/** The post catalog: turning the files of the posts directory into `Post`
    records for the listing and for a single post page. The directory,
    the front-matter parser and the markdown renderer are inputs. */
module Posts {
  import opened Wrappers
  import opened JsStrings

  const MarkdownExtension := ".md"
  const DefaultCategory := "Uncategorized"

  /** The front-matter fields the catalog reads. A missing or empty
      `category` or `excerpt` is `None` or `Some("")`. */
  datatype FrontMatter = FrontMatter(
    title: string,
    date: string,
    category: Option<string>,
    excerpt: Option<string>)

  /** What the front-matter parser yields for one file: the metadata, the
      excerpt it extracts from the body, and the markdown body. */
  datatype Document = Document(data: FrontMatter, excerpt: Option<string>, content: string)

  /** One entry of the posts directory; `doc` is `None` when reading or
      parsing the file throws. */
  datatype DirEntry = DirEntry(fileName: string, doc: Option<Document>)

  datatype Post = Post(
    slug: string,
    title: string,
    date: string,
    category: string,
    excerpt: string,
    content: Option<string>)

  datatype CatalogError = NotFound(fileName: string) | Unreadable(fileName: string)

  predicate EndsWith(s: string, suffix: string)
  {
    |suffix| <= |s| && s[|s| - |suffix|..] == suffix
  }

  /** JavaScript's `v || fallback` on a string that may be missing: the
      empty string is falsy too. */
  function OrDefault(v: Option<string>, fallback: string): (r: string)
    ensures v.Some? && v.value != "" ==> r == v.value
    ensures !(v.Some? && v.value != "") ==> r == fallback
  {
    if v.Some? && v.value != "" then v.value else fallback
  }

  /** `fileName.replace(/\.md$/, '')`: removes one `.md` at the very end
      and leaves every other name as it is. */
  function Slug(fileName: string): (slug: string)
    ensures EndsWith(fileName, MarkdownExtension) ==> slug + MarkdownExtension == fileName
    ensures !EndsWith(fileName, MarkdownExtension) ==> slug == fileName
  {
    if EndsWith(fileName, MarkdownExtension)
    then fileName[..|fileName| - |MarkdownExtension|]
    else fileName
  }

  /** The file a post page reads: `${slug}.md`. */
  function PostFileName(slug: string): (fileName: string)
    ensures EndsWith(fileName, MarkdownExtension)
    ensures |fileName| == |slug| + |MarkdownExtension| && fileName[..|slug|] == slug
  {
    slug + MarkdownExtension
  }

  /** Every slug comes back from the file name it is looked up under. */
  lemma {:induction false} SlugOfPostFileName(slug: string)
    ensures Slug(PostFileName(slug)) == slug
  {
    var f := PostFileName(slug);
    assert f[|f| - |MarkdownExtension|..] == MarkdownExtension;
    assert f[..|f| - |MarkdownExtension|] == slug;
  }

  /** A listed markdown file is looked up under its own name again. */
  lemma {:induction false} PostFileNameOfSlug(fileName: string)
    requires EndsWith(fileName, MarkdownExtension)
    ensures PostFileName(Slug(fileName)) == fileName
  {
  }

  /** `data.category || 'Uncategorized'`, shared by both record builders. */
  function CategoryOf(data: FrontMatter): (c: string)
    ensures c != ""
    ensures data.category.Some? && data.category.value != "" ==> c == data.category.value
    ensures c == DefaultCategory <==> (data.category.None? || data.category.value in {"", DefaultCategory})
  {
    OrDefault(data.category, DefaultCategory)
  }

  /** The record the listing builds for one file: no rendered content, and
      the excerpt the parser extracted from the body. */
  function ListingRecord(fileName: string, doc: Document): (p: Post)
    ensures p.slug == Slug(fileName) && p.title == doc.data.title && p.date == doc.data.date
    ensures p.category == CategoryOf(doc.data)
    ensures p.excerpt == OrDefault(doc.excerpt, "")
    ensures p.content.None?
  {
    Post(Slug(fileName), doc.data.title, doc.data.date, CategoryOf(doc.data),
         OrDefault(doc.excerpt, ""), None)
  }

  /** The record a post page builds: the rendered body as content, and the
      excerpt from the front matter rather than the extracted one. */
  function DetailRecord(slug: string, doc: Document, render: string -> string): (p: Post)
    ensures p.slug == slug && p.title == doc.data.title && p.date == doc.data.date
    ensures p.category == CategoryOf(doc.data)
    ensures p.excerpt == OrDefault(doc.data.excerpt, "")
    ensures p.content == Some(render(doc.content))
  {
    Post(slug, doc.data.title, doc.data.date, CategoryOf(doc.data),
         OrDefault(doc.data.excerpt, ""), Some(render(doc.content)))
  }

  /** The unsorted listing: one record per directory entry, in directory
      order, or the first entry whose file cannot be read or parsed. */
  function ReadAll(dir: seq<DirEntry>): (r: Result<seq<Post>, CatalogError>)
    ensures r.Success? <==> forall i :: 0 <= i < |dir| ==> dir[i].doc.Some?
    ensures r.Success? ==>
      |r.value| == |dir| &&
      forall i :: 0 <= i < |dir| ==> r.value[i] == ListingRecord(dir[i].fileName, dir[i].doc.value)
    ensures r.Failure? ==>
      exists i :: 0 <= i < |dir| && dir[i].doc.None? && r.error == Unreadable(dir[i].fileName) &&
        forall j :: 0 <= j < i ==> dir[j].doc.Some?
  {
    if dir == [] then Success([])
    else if dir[0].doc.None? then Failure(Unreadable(dir[0].fileName))
    else
      match ReadAll(dir[1..])
      case Failure(e) =>
        assert forall i :: 1 <= i < |dir| ==> dir[i] == dir[1..][i - 1];
        Failure(e)
      case Success(rest) =>
        Success([ListingRecord(dir[0].fileName, dir[0].doc.value)] + rest)
  }

  /** Newest first: no post is older than the one after it, comparing the
      date strings with `<`. */
  predicate NewestFirst(s: seq<Post>)
  {
    forall i :: 0 <= i < |s| - 1 ==> !LexLess(s[i].date, s[i + 1].date)
  }

  /** Ordering by neighbours orders every pair. */
  lemma {:induction false} NewestFirstAllPairs(s: seq<Post>, i: int, j: int)
    requires NewestFirst(s)
    requires 0 <= i <= j < |s|
    ensures !LexLess(s[i].date, s[j].date)
    decreases j - i
  {
    if i == j {
      LexLessIrreflexive(s[i].date);
    } else {
      NewestFirstAllPairs(s, i + 1, j);
      NotLessTransitive(s[i].date, s[i + 1].date, s[j].date);
    }
  }

  /** `posts.sort((a, b) => (a.date < b.date ? 1 : -1))`, done in place as
      an insertion sort: a post moves ahead of its neighbour exactly when
      the comparator puts it first, that is, when the neighbour's date is
      smaller. */
  method SortNewestFirst(a: array<Post>)
    modifies a
    ensures multiset(a[..]) == old(multiset(a[..]))
    ensures NewestFirst(a[..])
  {
    var i := 0;
    while i < a.Length
      invariant 0 <= i <= a.Length
      invariant forall k :: 0 <= k < i - 1 ==> !LexLess(a[k].date, a[k + 1].date)
      invariant multiset(a[..]) == old(multiset(a[..]))
    {
      ghost var before := a[..];
      Insert(a, i);
      assert a[..] == a[..i + 1] + a[i + 1..];
      assert before == before[..i + 1] + before[i + 1..];
      i := i + 1;
    }
  }

  /** One insertion step: `a[..i]` is newest first, and `a[i]` moves left
      past every neighbour with a smaller date. */
  method Insert(a: array<Post>, i: int)
    requires 0 <= i < a.Length
    requires forall k :: 0 <= k < i - 1 ==> !LexLess(a[k].date, a[k + 1].date)
    modifies a
    ensures forall k :: 0 <= k < i ==> !LexLess(a[k].date, a[k + 1].date)
    ensures multiset(a[..i + 1]) == old(multiset(a[..i + 1]))
    ensures a[i + 1..] == old(a[i + 1..])
  {
    var j := i;
    while 0 < j && LexLess(a[j - 1].date, a[j].date)
      invariant 0 <= j <= i
      invariant forall k :: 0 <= k < j - 1 ==> !LexLess(a[k].date, a[k + 1].date)
      invariant forall k :: j < k < i ==> !LexLess(a[k].date, a[k + 1].date)
      invariant 0 < j < i ==> !LexLess(a[j - 1].date, a[j + 1].date)
      invariant j < i ==> LexLess(a[j + 1].date, a[j].date)
      invariant multiset(a[..i + 1]) == old(multiset(a[..i + 1]))
      invariant a[i + 1..] == old(a[i + 1..])
    {
      SiftStep(a, i, j);
      j := j - 1;
    }
    if j < i {
      LexLessAsymmetric(a[j + 1].date, a[j].date);
    }
  }

  /** One step of `Insert`'s loop: the moving post at `j` passes its older
      neighbour at `j - 1`, and the order facts move one place left. */
  method SiftStep(a: array<Post>, i: int, j: int)
    requires 0 < j <= i < a.Length
    requires forall k :: 0 <= k < j - 1 ==> !LexLess(a[k].date, a[k + 1].date)
    requires forall k :: j < k < i ==> !LexLess(a[k].date, a[k + 1].date)
    requires j < i ==> !LexLess(a[j - 1].date, a[j + 1].date)
    requires LexLess(a[j - 1].date, a[j].date)
    modifies a
    ensures forall k :: 0 <= k < j - 2 ==> !LexLess(a[k].date, a[k + 1].date)
    ensures forall k :: j - 1 < k < i ==> !LexLess(a[k].date, a[k + 1].date)
    ensures 1 < j ==> !LexLess(a[j - 2].date, a[j].date)
    ensures LexLess(a[j].date, a[j - 1].date)
    ensures multiset(a[..i + 1]) == old(multiset(a[..i + 1]))
    ensures a[i + 1..] == old(a[i + 1..])
  {
    Swap(a, j, i + 1);
  }

  /** Exchanges the post at `j` with the one before it, inside the first
      `n` posts. */
  method Swap(a: array<Post>, j: int, n: int)
    requires 0 < j < n <= a.Length
    modifies a
    ensures a[j - 1] == old(a[j]) && a[j] == old(a[j - 1])
    ensures forall k :: 0 <= k < a.Length && k != j - 1 && k != j ==> a[k] == old(a[k])
    ensures multiset(a[..n]) == old(multiset(a[..n]))
    ensures a[n..] == old(a[n..])
  {
    ghost var before := a[..];
    a[j - 1], a[j] := a[j], a[j - 1];
    assert a[..n] == a[..j - 1] + [a[j - 1], a[j]] + a[j + 1..n];
    assert before[..n] == before[..j - 1] + [before[j - 1], before[j]] + before[j + 1..n];
  }

  /** `getAllPosts`: the directory's records sorted newest first, or the
      error of the first file that cannot be read. */
  method GetAllPosts(dir: seq<DirEntry>) returns (r: Result<seq<Post>, CatalogError>)
    ensures r.Failure? ==> r == ReadAll(dir)
    ensures r.Success? <==> ReadAll(dir).Success?
    ensures r.Success? ==>
      |r.value| == |dir| &&
      multiset(r.value) == multiset(ReadAll(dir).value) &&
      NewestFirst(r.value)
  {
    var read := ReadAll(dir);
    if read.Failure? {
      return read;
    }
    var posts := read.value;
    var a := new Post[|posts|](i requires 0 <= i < |posts| => posts[i]);
    assert a[..] == posts;
    SortNewestFirst(a);
    assert |a[..]| == |multiset(a[..])| == |multiset(posts)| == |posts|;
    r := Success(a[..]);
  }

  /** The first directory entry with the given name. */
  function FindEntry(dir: seq<DirEntry>, fileName: string): (r: Option<DirEntry>)
    ensures r.None? <==> forall i :: 0 <= i < |dir| ==> dir[i].fileName != fileName
    ensures r.Some? ==>
      exists i :: 0 <= i < |dir| && dir[i] == r.value && dir[i].fileName == fileName &&
        forall j :: 0 <= j < i ==> dir[j].fileName != fileName
  {
    if dir == [] then None
    else if dir[0].fileName == fileName then Some(dir[0])
    else
      var r := FindEntry(dir[1..], fileName);
      assert forall i :: 1 <= i < |dir| ==> dir[i] == dir[1..][i - 1];
      if r.Some? then
        var i :| 0 <= i < |dir[1..]| && dir[1..][i] == r.value && dir[1..][i].fileName == fileName &&
          forall j :: 0 <= j < i ==> dir[1..][j].fileName != fileName;
        assert dir[i + 1] == r.value && forall j :: 0 <= j < i + 1 ==> dir[j].fileName != fileName;
        r
      else r
  }

  /** `getPostBySlug`: reads exactly `${slug}.md`; a missing file is
      `NotFound`, one that cannot be parsed is `Unreadable`. */
  function GetPostBySlug(dir: seq<DirEntry>, slug: string, render: string -> string): (r: Result<Post, CatalogError>)
    ensures r == Failure(NotFound(PostFileName(slug))) <==>
      forall i :: 0 <= i < |dir| ==> dir[i].fileName != PostFileName(slug)
    ensures r.Success? ==>
      exists e :: e in dir && e.fileName == PostFileName(slug) && e.doc.Some? &&
        r.value == DetailRecord(slug, e.doc.value, render)
    ensures forall i ::
      (0 <= i < |dir| && dir[i].fileName == PostFileName(slug) &&
       forall j :: 0 <= j < i ==> dir[j].fileName != PostFileName(slug)) ==>
        r == if dir[i].doc.Some? then Success(DetailRecord(slug, dir[i].doc.value, render))
             else Failure(Unreadable(PostFileName(slug)))
  {
    match FindEntry(dir, PostFileName(slug))
    case None => Failure(NotFound(PostFileName(slug)))
    case Some(e) =>
      if e.doc.None? then Failure(Unreadable(e.fileName))
      else Success(DetailRecord(slug, e.doc.value, render))
  }

  predicate DistinctNames(dir: seq<DirEntry>)
  {
    forall i, j :: 0 <= i < j < |dir| ==> dir[i].fileName != dir[j].fileName
  }

  /** In a directory whose names are distinct, the file `<slug>.md`
      decides the page: its record when it can be read, `Unreadable`
      otherwise. */
  lemma {:induction false} ExistingFileDecidesPage(dir: seq<DirEntry>, i: int, slug: string, render: string -> string)
    requires DistinctNames(dir)
    requires 0 <= i < |dir| && dir[i].fileName == PostFileName(slug)
    ensures dir[i].doc.Some? ==> GetPostBySlug(dir, slug, render) == Success(DetailRecord(slug, dir[i].doc.value, render))
    ensures dir[i].doc.None? ==> GetPostBySlug(dir, slug, render) == Failure(Unreadable(PostFileName(slug)))
  {
    assert forall j :: 0 <= j < i ==> dir[j].fileName != PostFileName(slug);
  }

  /** Every listed markdown post opens as a post page, under the slug the
      listing gives it, with the same slug, title, date and category. Only
      the excerpt's source differs, and only the page carries content. */
  lemma {:induction false} ListedPostOpens(dir: seq<DirEntry>, i: int, render: string -> string)
    requires DistinctNames(dir)
    requires forall k :: 0 <= k < |dir| ==> dir[k].doc.Some?
    requires 0 <= i < |dir| && EndsWith(dir[i].fileName, MarkdownExtension)
    ensures var listed := ReadAll(dir).value[i];
      GetPostBySlug(dir, listed.slug, render) == Success(DetailRecord(listed.slug, dir[i].doc.value, render)) &&
      var page := GetPostBySlug(dir, listed.slug, render).value;
      page.slug == listed.slug && page.title == listed.title && page.date == listed.date &&
      page.category == listed.category &&
      listed.excerpt == OrDefault(dir[i].doc.value.excerpt, "") &&
      page.excerpt == OrDefault(dir[i].doc.value.data.excerpt, "") &&
      listed.content.None? && page.content.Some?
  {
    var listed := ReadAll(dir).value[i];
    PostFileNameOfSlug(dir[i].fileName);
    ExistingFileDecidesPage(dir, i, listed.slug, render);
  }

  /** The listing does not filter by extension: an entry whose name does
      not end in `.md` is listed under its full name, and its post page
      looks for that name plus `.md`, which is not there. */
  lemma {:induction false} ListedNonMarkdownEntryNotFound(dir: seq<DirEntry>, i: int, render: string -> string)
    requires forall k :: 0 <= k < |dir| ==> dir[k].doc.Some?
    requires 0 <= i < |dir| && !EndsWith(dir[i].fileName, MarkdownExtension)
    requires forall j :: 0 <= j < |dir| ==> dir[j].fileName != dir[i].fileName + MarkdownExtension
    ensures ReadAll(dir).value[i].slug == dir[i].fileName
    ensures GetPostBySlug(dir, ReadAll(dir).value[i].slug, render) ==
      Failure(NotFound(dir[i].fileName + MarkdownExtension))
  {
  }
}
