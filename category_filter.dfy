/** The category tab bar: it shows the tab of the selected category and
    reports the category of the tab the user picks. */
module CategoryFilter {
  import opened JsArrays

  /** `categories.indexOf(selectedCategory)`: -1 when no tab matches. */
  function SelectedIndex(categories: seq<string>, selectedCategory: string): (i: int)
    ensures -1 <= i < |categories|
    ensures i == -1 <==> selectedCategory !in categories
    ensures 0 <= i ==> categories[i] == selectedCategory
  {
    IndexOf(categories, selectedCategory)
  }

  /** `onChange={(index) => onCategoryChange(categories[index])}`; the tab
      group only reports indices of tabs it rendered. */
  function TabCategory(categories: seq<string>, index: int): (c: string)
    requires 0 <= index < |categories|
    ensures c == categories[index]
  {
    categories[index]
  }

  /** The highlighted tab shows the selected category, and no earlier tab
      does; no tab is highlighted exactly when the category is not listed. */
  lemma {:induction false} SelectedTabShowsSelection(categories: seq<string>, selectedCategory: string)
    ensures SelectedIndex(categories, selectedCategory) == -1 <==> selectedCategory !in categories
    ensures selectedCategory in categories ==>
      var i := SelectedIndex(categories, selectedCategory);
      0 <= i < |categories| && TabCategory(categories, i) == selectedCategory &&
      forall k :: 0 <= k < i ==> categories[k] != selectedCategory
  {
    var i := SelectedIndex(categories, selectedCategory);
    if 0 <= i {
      assert forall k :: 0 <= k < i ==> categories[k] == categories[..i][k];
    }
  }

  /** Picking a tab and then highlighting the reported category lands on
      the same tab, provided no category is listed twice. */
  lemma {:induction false} TabRoundTrip(categories: seq<string>, index: int)
    requires NoDuplicates(categories)
    requires 0 <= index < |categories|
    ensures SelectedIndex(categories, TabCategory(categories, index)) == index
  {
    IndexOfDistinct(categories, index);
  }
}
