/** The client-side post list: one piece of state, the selected category,
    and the tab menu and visible posts derived from it. */
module PostListView {
  import opened JsArrays
  import opened Posts
  import CategoryFilter

  /** The "all posts" entry of the menu. */
  const All := "全部"

  /** `Array.from(new Set(['全部', ...categories]))`. */
  function MenuOf(categories: seq<string>): (menu: seq<string>)
    ensures menu != [] && menu[0] == All
    ensures forall k :: 0 < k < |menu| ==> menu[k] != All
    ensures NoDuplicates(menu)
    ensures forall c :: c in categories ==> c in menu
    ensures forall c :: c in menu ==> c == All || c in categories
  {
    var menu := Dedup([All] + categories);
    DedupKeepsHead([All] + categories);
    assert forall i :: 0 <= i < |categories| ==> categories[i] == ([All] + categories)[i + 1];
    menu
  }

  /** After the "all" entry the menu keeps the categories in the order in
      which they first appear in the input. */
  lemma {:induction false} MenuKeepsFirstSeenOrder(categories: seq<string>, i: int, j: int)
    requires 1 <= i < j < |MenuOf(categories)|
    ensures IndexOf(categories, MenuOf(categories)[i]) < IndexOf(categories, MenuOf(categories)[j])
  {
    var menu := MenuOf(categories);
    DedupFirstSeenOrder([All] + categories);
    IndexOfAppendRight([All], categories, menu[i]);
    IndexOfAppendRight([All], categories, menu[j]);
  }

  /** `initialPosts.filter(post => post.category === selectedCategory)`. */
  function FilterByCategory(posts: seq<Post>, category: string): (r: seq<Post>)
    ensures |r| <= |posts|
    ensures forall k :: 0 <= k < |r| ==> r[k].category == category && r[k] in posts
  {
    if posts == [] then []
    else
      var rest := FilterByCategory(posts[1..], category);
      if posts[0].category == category then [posts[0]] + rest else rest
  }

  /** The posts shown for a selection: all of them for the "all" entry,
      otherwise those of the selected category. */
  function Visible(posts: seq<Post>, selection: string): (r: seq<Post>)
    ensures selection == All ==> r == posts
    ensures |r| <= |posts|
    ensures forall k :: 0 <= k < |r| ==> r[k] in posts && (selection != All ==> r[k].category == selection)
  {
    if selection == All then posts else FilterByCategory(posts, selection)
  }

  /** The positions from `from` on, in increasing order, of the posts in a
      category: an independent description of what the filter keeps. */
  ghost function MatchingPositions(posts: seq<Post>, category: string, from: nat): (ps: seq<nat>)
    requires from <= |posts|
    ensures forall k :: 0 <= k < |ps| ==> from <= ps[k] < |posts| && posts[ps[k]].category == category
    ensures forall k, l :: 0 <= k < l < |ps| ==> ps[k] < ps[l]
    ensures forall n :: from <= n < |posts| && posts[n].category == category ==> n in ps
    decreases |posts| - from
  {
    if from == |posts| then []
    else
      var rest := MatchingPositions(posts, category, from + 1);
      if posts[from].category == category then [from] + rest else rest
  }

  /** The filter keeps exactly the posts of the category, in their order:
      the k-th visible post is the post at the k-th matching position. */
  lemma {:induction false} FilterIsMatchingSubsequence(posts: seq<Post>, category: string, from: nat)
    requires from <= |posts|
    ensures var r := FilterByCategory(posts[from..], category);
      var ps := MatchingPositions(posts, category, from);
      |r| == |ps| && forall k :: 0 <= k < |r| ==> r[k] == posts[ps[k]]
    decreases |posts| - from
  {
    if from < |posts| {
      var tail := posts[from..];
      assert tail[0] == posts[from] && tail[1..] == posts[from + 1..];
      FilterIsMatchingSubsequence(posts, category, from + 1);
      var rest := FilterByCategory(posts[from + 1..], category);
      var restPositions := MatchingPositions(posts, category, from + 1);
      if posts[from].category == category {
        var r := FilterByCategory(tail, category);
        var ps := MatchingPositions(posts, category, from);
        assert r == [posts[from]] + rest;
        assert ps == [from] + restPositions;
        forall k | 0 <= k < |r|
          ensures r[k] == posts[ps[k]]
        {
          if k > 0 {
            assert r[k] == rest[k - 1] && ps[k] == restPositions[k - 1];
          }
        }
      } else {
        assert FilterByCategory(tail, category) == rest;
        assert MatchingPositions(posts, category, from) == restPositions;
      }
    }
  }

  /** For any other selection the visible posts are exactly those of the
      selected category, in the order of the listing. */
  lemma {:induction false} VisibleIsMatchingSubsequence(posts: seq<Post>, selection: string)
    requires selection != All
    ensures var r := Visible(posts, selection);
      var ps := MatchingPositions(posts, selection, 0);
      |r| == |ps| && forall k :: 0 <= k < |r| ==> r[k] == posts[ps[k]]
  {
    FilterIsMatchingSubsequence(posts, selection, 0);
    assert posts[0..] == posts;
  }

  /** A selection other than "all" that no post carries shows nothing. */
  lemma {:induction false} VisibleForUnknownCategory(posts: seq<Post>, selection: string)
    requires selection != All
    requires forall i :: 0 <= i < |posts| ==> posts[i].category != selection
    ensures Visible(posts, selection) == []
  {
    if posts != [] {
      VisibleForUnknownCategory(posts[1..], selection);
    }
  }

  class PostList {
    const initialPosts: seq<Post>
    const categories: seq<string>
    var selectedCategory: string

    /** `useState('全部')`. */
    constructor (initialPosts: seq<Post>, categories: seq<string>)
      ensures this.initialPosts == initialPosts && this.categories == categories
      ensures selectedCategory == All
      ensures FilteredPosts() == initialPosts
    {
      this.initialPosts := initialPosts;
      this.categories := categories;
      selectedCategory := All;
    }

    /** `allCategories`, the menu handed to the tab bar. */
    function AllCategories(): (menu: seq<string>)
      ensures menu != [] && menu[0] == All && NoDuplicates(menu)
      ensures forall c :: c in categories ==> c in menu
      ensures forall c :: c in menu ==> c == All || c in categories
    {
      MenuOf(categories)
    }

    /** `filteredPosts`. */
    function FilteredPosts(): (r: seq<Post>)
      reads this
      ensures selectedCategory == All ==> r == initialPosts
      ensures forall k :: 0 <= k < |r| ==>
        r[k] in initialPosts && (selectedCategory != All ==> r[k].category == selectedCategory)
    {
      Visible(initialPosts, selectedCategory)
    }

    /** The tab the bar highlights for the current selection. */
    function SelectedTab(): (i: int)
      reads this
      ensures i == -1 <==> selectedCategory !in AllCategories()
      ensures 0 <= i ==> i < |AllCategories()| && AllCategories()[i] == selectedCategory
    {
      CategoryFilter.SelectedIndex(AllCategories(), selectedCategory)
    }

    /** `setSelectedCategory`: replaces the selection without checking it
      against the menu. The new state depends only on the argument, so
      selecting the same category again changes nothing. */
    method Select(category: string)
      modifies this
      ensures selectedCategory == category
      ensures FilteredPosts() == Visible(initialPosts, category)
    {
      selectedCategory := category;
    }

    /** The tab bar's `onChange` wired to `setSelectedCategory`: picking
      tab `index` selects its category, and that tab is then highlighted. */
    method OnTabChange(index: int)
      requires 0 <= index < |AllCategories()|
      modifies this
      ensures selectedCategory == AllCategories()[index]
      ensures SelectedTab() == index
      ensures FilteredPosts() == Visible(initialPosts, AllCategories()[index])
    {
      var menu := AllCategories();
      Select(CategoryFilter.TabCategory(menu, index));
      CategoryFilter.TabRoundTrip(menu, index);
    }
  }

  /** At first the "all" tab, the menu's first, is highlighted. */
  lemma {:induction false} InitialTabIsAll(categories: seq<string>)
    ensures CategoryFilter.SelectedIndex(MenuOf(categories), All) == 0
  {
  }
}
