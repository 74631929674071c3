/** The two JavaScript collection built-ins the listing logic relies on:
    `Array.prototype.indexOf` and `Array.from(new Set(xs))`. */
module JsArrays {

  predicate NoDuplicates<T(==)>(s: seq<T>)
  {
    forall i, j :: 0 <= i < j < |s| ==> s[i] != s[j]
  }

  /** `s.indexOf(x)`: the position of the first occurrence of `x`, or -1. */
  function IndexOf<T(==)>(s: seq<T>, x: T): (r: int)
    ensures -1 <= r < |s|
    ensures r == -1 <==> x !in s
    ensures 0 <= r ==> s[r] == x && x !in s[..r]
  {
    if s == [] then -1
    else if s[0] == x then 0
    else
      var k := IndexOf(s[1..], x);
      if k == -1 then -1
      else
        assert s[..k + 1] == [s[0]] + s[1..][..k];
        k + 1
  }

  /** In a list without duplicates, looking up the element at `i` gives `i`
      back. */
  lemma {:induction false} IndexOfDistinct<T>(s: seq<T>, i: int)
    requires NoDuplicates(s)
    requires 0 <= i < |s|
    ensures IndexOf(s, s[i]) == i
  {
  }

  /** The first occurrence of an element of `p` in `p + q` lies in `p`. */
  lemma {:induction false} IndexOfAppendLeft<T>(p: seq<T>, q: seq<T>, x: T)
    requires x in p
    ensures IndexOf(p + q, x) == IndexOf(p, x)
  {
    if p[0] != x {
      assert (p + q)[1..] == p[1..] + q;
      IndexOfAppendLeft(p[1..], q, x);
    }
  }

  /** An element missing from `p` is first found in `p + q` after all of `p`. */
  lemma {:induction false} IndexOfAppendRight<T>(p: seq<T>, q: seq<T>, x: T)
    requires x !in p && x in q
    ensures IndexOf(p + q, x) == |p| + IndexOf(q, x)
  {
    if p == [] {
      assert p + q == q;
    } else {
      assert (p + q)[1..] == p[1..] + q;
      IndexOfAppendRight(p[1..], q, x);
    }
  }

  /** `Array.from(new Set(s))`: a Set remembers insertion order and ignores
      an element it already holds, so the array lists each distinct element
      once, where it was first seen. */
  function Dedup<T(==)>(s: seq<T>): (r: seq<T>)
    ensures NoDuplicates(r)
    ensures forall i :: 0 <= i < |r| ==> r[i] in s
    ensures forall i :: 0 <= i < |s| ==> s[i] in r
    ensures |r| <= |s|
  {
    if s == [] then []
    else
      var init, last := s[..|s| - 1], s[|s| - 1];
      assert s == init + [last];
      var prefix := Dedup(init);
      if last in prefix then prefix else prefix + [last]
  }

  /** The elements of `Dedup(s)` are in the order of their first
      occurrences in `s`. */
  lemma {:induction false} DedupFirstSeenOrder<T>(s: seq<T>)
    ensures forall i, j :: 0 <= i < j < |Dedup(s)| ==> IndexOf(s, Dedup(s)[i]) < IndexOf(s, Dedup(s)[j])
  {
    if s != [] {
      var init, last := s[..|s| - 1], s[|s| - 1];
      assert s == init + [last];
      DedupFirstSeenOrder(init);
      var prefix, r := Dedup(init), Dedup(s);
      assert r == prefix || (last !in prefix && r == prefix + [last]);
      forall i, j | 0 <= i < j < |r|
        ensures IndexOf(s, r[i]) < IndexOf(s, r[j])
      {
        assert r[i] == prefix[i] && r[i] in init;
        IndexOfAppendLeft(init, [last], r[i]);
        if j < |prefix| {
          assert r[j] == prefix[j] && r[j] in init;
          IndexOfAppendLeft(init, [last], r[j]);
        } else {
          IndexOfAppendRight(init, [last], last);
        }
      }
    }
  }

  /** The first element of a non-empty list is the first element of its
      de-duplication. */
  lemma {:induction false} DedupKeepsHead<T>(s: seq<T>)
    requires s != []
    ensures Dedup(s) != [] && Dedup(s)[0] == s[0]
  {
    DedupFirstSeenOrder(s);
    assert IndexOf(s, s[0]) == 0;
  }
}
