/** The home page's data loader: the sorted listing and the distinct
    categories that appear in it. */
module HomePage {
  import opened Wrappers
  import opened JsArrays
  import opened Posts

  datatype HomeData = HomeData(posts: seq<Post>, categories: seq<string>)

  /** `posts.map(post => post.category)`. */
  function CategoryColumn(posts: seq<Post>): (cs: seq<string>)
    ensures |cs| == |posts|
    ensures forall i :: 0 <= i < |posts| ==> cs[i] == posts[i].category
  {
    seq(|posts|, i requires 0 <= i < |posts| => posts[i].category)
  }

  /** `Array.from(new Set(posts.map(post => post.category)))`: every
      category once, and nothing that is not some post's category. */
  function Categories(posts: seq<Post>): (cats: seq<string>)
    ensures NoDuplicates(cats)
    ensures forall i :: 0 <= i < |posts| ==> posts[i].category in cats
    ensures forall c :: c in cats ==> exists i :: 0 <= i < |posts| && posts[i].category == c
    ensures posts == [] ==> cats == []
  {
    var column := CategoryColumn(posts);
    var cats := Dedup(column);
    assert forall i :: 0 <= i < |posts| ==> column[i] in cats;
    assert forall c :: c in cats ==> c in column;
    cats
  }

  /** The categories come in the order in which the (sorted) posts first
      mention them. */
  lemma {:induction false} CategoriesFirstSeenOrder(posts: seq<Post>, i: int, j: int)
    requires 0 <= i < j < |Categories(posts)|
    ensures IndexOf(CategoryColumn(posts), Categories(posts)[i]) < IndexOf(CategoryColumn(posts), Categories(posts)[j])
  {
    DedupFirstSeenOrder(CategoryColumn(posts));
  }

  /** `getPosts`: the listing exactly as `getAllPosts` returns it, and its
      categories; a failing listing fails the page. */
  method GetPosts(dir: seq<DirEntry>) returns (r: Result<HomeData, CatalogError>)
    ensures r.Success? <==> ReadAll(dir).Success?
    ensures r.Failure? ==> r.error == ReadAll(dir).error
    ensures r.Success? ==>
      |r.value.posts| == |dir| &&
      multiset(r.value.posts) == multiset(ReadAll(dir).value) &&
      NewestFirst(r.value.posts) &&
      r.value.categories == Categories(r.value.posts)
  {
    var all := GetAllPosts(dir);
    if all.Failure? {
      return Failure(all.error);
    }
    var posts := all.value;
    r := Success(HomeData(posts, Categories(posts)));
  }
}
