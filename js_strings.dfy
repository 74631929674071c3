/** JavaScript's relational `<` on two strings. */
module JsStrings {

  /** `a < b` on JavaScript strings: lexicographic order, where a proper
      prefix is smaller than the longer string. (Dafny's own `<` on
      sequences means "proper prefix", which is not the same thing.) */
  predicate LexLess(a: string, b: string): (r: bool)
    ensures r ==> a != b
  {
    if |a| == 0 then |b| > 0
    else if |b| == 0 then false
    else if a[0] != b[0] then a[0] < b[0]
    else LexLess(a[1..], b[1..])
  }

  /** The comparison as the language standard defines it: either `a` is a
      proper prefix of `b`, or the first position where they differ holds
      a smaller character in `a`. */
  ghost predicate FirstDifferenceLess(a: string, b: string)
  {
    (|a| < |b| && a == b[..|a|]) ||
    exists k :: 0 <= k < |a| && k < |b| && a[..k] == b[..k] && a[k] < b[k]
  }

  lemma {:induction false} LexLessIsFirstDifference(a: string, b: string)
    ensures LexLess(a, b) <==> FirstDifferenceLess(a, b)
  {
    if |a| == 0 || |b| == 0 {
      if |a| == 0 && |b| > 0 {
        assert a == b[..|a|];
      }
    } else if a[0] != b[0] {
      if a[0] < b[0] {
        assert a[..0] == b[..0];
      }
      if FirstDifferenceLess(a, b) && !(|a| < |b| && a == b[..|a|]) {
        var k :| 0 <= k < |a| && k < |b| && a[..k] == b[..k] && a[k] < b[k];
        assert k == 0;
      }
    } else {
      LexLessIsFirstDifference(a[1..], b[1..]);
      if FirstDifferenceLess(a[1..], b[1..]) {
        if |a[1..]| < |b[1..]| && a[1..] == b[1..][..|a[1..]|] {
          assert a == [a[0]] + a[1..] == b[..|a|];
        } else {
          var k :| 0 <= k < |a[1..]| && k < |b[1..]| && a[1..][..k] == b[1..][..k] && a[1..][k] < b[1..][k];
          assert a[..k+1] == [a[0]] + a[1..][..k] == b[..k+1];
        }
      }
      if FirstDifferenceLess(a, b) {
        if |a| < |b| && a == b[..|a|] {
          assert a[1..] == b[1..][..|a[1..]|];
        } else {
          var k :| 0 <= k < |a| && k < |b| && a[..k] == b[..k] && a[k] < b[k];
          assert k > 0;
          assert a[1..][..k-1] == a[1..k] == b[1..k] == b[1..][..k-1];
        }
      }
    }
  }

  lemma {:induction false} LexLessIrreflexive(a: string)
    ensures !LexLess(a, a)
  {
    if |a| > 0 {
      LexLessIrreflexive(a[1..]);
    }
  }

  lemma {:induction false} LexLessAsymmetric(a: string, b: string)
    ensures LexLess(a, b) ==> !LexLess(b, a)
  {
    if |a| > 0 && |b| > 0 && a[0] == b[0] {
      LexLessAsymmetric(a[1..], b[1..]);
    }
  }

  lemma {:induction false} LexLessTransitive(a: string, b: string, c: string)
    ensures LexLess(a, b) && LexLess(b, c) ==> LexLess(a, c)
  {
    if |a| > 0 && |b| > 0 && |c| > 0 && a[0] == b[0] == c[0] {
      LexLessTransitive(a[1..], b[1..], c[1..]);
    }
  }

  lemma {:induction false} LexLessTotal(a: string, b: string)
    ensures a != b ==> LexLess(a, b) || LexLess(b, a)
  {
    if |a| > 0 && |b| > 0 && a[0] == b[0] {
      LexLessTotal(a[1..], b[1..]);
      if a[1..] == b[1..] {
        assert a == [a[0]] + a[1..] && b == [b[0]] + b[1..];
      }
    }
  }

  /** "Not less than" is transitive, so a list whose neighbours are in
      order is in order as a whole. */
  lemma {:induction false} NotLessTransitive(a: string, b: string, c: string)
    ensures !LexLess(a, b) && !LexLess(b, c) ==> !LexLess(a, c)
  {
    LexLessTotal(a, b);
    LexLessTotal(b, c);
    LexLessTransitive(c, b, a);
    LexLessAsymmetric(a, c);
    LexLessIrreflexive(a);
  }
}
