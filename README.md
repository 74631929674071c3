# Blog post listing, modelled in Dafny

This project models the data logic behind the blog's post listing:

- how the post catalog turns the files of the posts directory into `Post`
  records (`apps/web/lib/posts.ts`);
- how the home page derives the distinct categories
  (`apps/web/app/page.tsx`);
- the client-side category filter: its single piece of state, the tab menu
  and the visible posts (`apps/web/app/components/PostList.tsx`);
- the tab bar's mapping between the selected category and the highlighted
  tab (`packages/ui/src/components/CategoryFilter.tsx`).

The directory is a sequence of entries, each a file name and the parsed
front matter, extracted excerpt and markdown body of the file, or nothing
when the file cannot be read or parsed. The markdown renderer is a function
parameter.

Modules, one per source file plus three helpers:

| file | module | models |
|---|---|---|
| `wrappers.dfy` | `Wrappers` | `Option` and `Result` |
| `js_strings.dfy` | `JsStrings` | JavaScript `<` on strings (`LexLess`) and its order laws |
| `js_arrays.dfy` | `JsArrays` | `Array.prototype.indexOf` (`IndexOf`) and `Array.from(new Set(xs))` (`Dedup`) |
| `posts.dfy` | `Posts` | `getAllPosts`, the in-place sort, `getPostBySlug` |
| `home_page.dfy` | `HomePage` | `getPosts` and the distinct categories |
| `category_filter.dfy` | `CategoryFilter` | `selectedIndex` and the tab `onChange` mapping |
| `post_list.dfy` | `PostListView` | the `PostList` component as a class with a `selectedCategory` field |

Behaviour of the code worth knowing, as the model captures it:

- The listing holds every directory entry, because there is no filter on
  the extension. A non-`.md` entry keeps its full name as its slug, and its
  post page then looks for that name plus `.md`
  (`Posts.ListedNonMarkdownEntryNotFound`).
- The comparator never returns 0, so the order of posts with equal dates
  is left to the engine. The model sorts by insertion with that comparator
  and proves that the listing is a permutation that is newest first, and
  nothing about equal dates.
- `GetPostBySlug` tells a missing file (`NotFound`) apart from one that
  cannot be read or parsed (`Unreadable`). The post page catches every
  error and answers "not found" to both.
- The listing takes the excerpt that the parser extracts from the body. The
  post page takes the `excerpt` field of the front matter. Both default to
  `''` (`Posts.ListedPostOpens`).

## Model

| member | source | states |
|---|---|---|
| `JsStrings.LexLess` | apps/web/lib/posts.ts:46 | `a.date < b.date`: JavaScript `<` on strings; a date is never smaller than an equal date |
| `JsStrings.LexLessIsFirstDifference` | apps/web/lib/posts.ts:46 | the recursive `LexLess` agrees with the standard's definition of `<` on strings: a proper prefix is smaller, otherwise the first differing character decides |
| `JsStrings.LexLessIrreflexive` | apps/web/lib/posts.ts:46 | no date is smaller than itself |
| `JsStrings.LexLessAsymmetric` | apps/web/lib/posts.ts:46 | two dates are never each smaller than the other |
| `JsStrings.LexLessTransitive` | apps/web/lib/posts.ts:46 | `<` on dates is transitive |
| `JsStrings.LexLessTotal` | apps/web/lib/posts.ts:46 | of two different dates one is smaller |
| `JsStrings.NotLessTransitive` | apps/web/lib/posts.ts:46 | "not smaller" is transitive, the law that makes neighbour-wise order global |
| `JsArrays.IndexOf` | packages/ui/src/components/CategoryFilter.tsx:18 | the result is -1 exactly when the element is absent; otherwise it is a position holding the element, with no earlier occurrence |
| `JsArrays.IndexOfDistinct` | packages/ui/src/components/CategoryFilter.tsx:18 | in a list without duplicates, `indexOf` of the element at `i` is `i` |
| `JsArrays.Dedup` | apps/web/app/page.tsx:8 | `Array.from(new Set(s))` has no duplicates, holds every element of `s` and nothing else, and is no longer than `s` |
| `JsArrays.DedupFirstSeenOrder` | apps/web/app/page.tsx:8 | the de-duplicated elements are in the order of their first occurrence in `s` |
| `JsArrays.DedupKeepsHead` | apps/web/app/components/PostList.tsx:17 | the first element of a non-empty list stays first after de-duplication |
| `Posts.OrDefault` | apps/web/lib/posts.ts:40-41 | the JavaScript or-default of a possibly missing string is the value itself when it is present and non-empty, and the fallback otherwise |
| `Posts.Slug` | apps/web/lib/posts.ts:31 | a name ending in `.md` is the slug followed by `.md`; any other name is its own slug, so an `.md` elsewhere is kept |
| `Posts.PostFileName` | apps/web/lib/posts.ts:50 | the file a post page reads is the slug followed by `.md` |
| `Posts.SlugOfPostFileName` | apps/web/lib/posts.ts:50 | the file a slug is looked up under gives back that slug |
| `Posts.PostFileNameOfSlug` | apps/web/lib/posts.ts:31 | a listed `.md` file is looked up under its own name again |
| `Posts.CategoryOf` | apps/web/lib/posts.ts:40 | the category is the front-matter category when that is present and non-empty; it is never empty, and is `'Uncategorized'` exactly when the front matter has none, an empty one, or that very word |
| `Posts.ListingRecord` | apps/web/lib/posts.ts:36-42 | a listing record has the file's slug, the front-matter title and date, the category rule, the extracted excerpt or `''`, and no content |
| `Posts.DetailRecord` | apps/web/lib/posts.ts:69-76 | a page record has the requested slug, the same title, date and category rule, the front-matter excerpt or `''`, and the rendered body as content |
| `Posts.ReadAll` | apps/web/lib/posts.ts:28-44 | the listing succeeds exactly when every entry can be read; it then has one record per entry, in directory order; otherwise it fails with the first unreadable entry |
| `Posts.NewestFirstAllPairs` | apps/web/lib/posts.ts:46 | in a list ordered newest first by neighbours, no post is older than any later one |
| `Posts.Insert` | apps/web/lib/posts.ts:46 | one insertion step makes `a[..i + 1]` newest first, holding exactly the posts it held before, and leaves every later post where it was |
| `Posts.SortNewestFirst` | apps/web/lib/posts.ts:46 | the array is sorted in place into a permutation of itself that is newest first by JavaScript string `<` |
| `Posts.GetAllPosts` | apps/web/lib/posts.ts:22-47 | the result fails exactly as the unsorted listing fails; otherwise it has one post per entry, is a permutation of the unsorted records and is newest first |
| `Posts.FindEntry` | apps/web/lib/posts.ts:50-51 | the lookup finds nothing exactly when no entry has the name; otherwise it finds the first entry with that name |
| `Posts.GetPostBySlug` | apps/web/lib/posts.ts:49-77 | the result is `NotFound("<slug>.md")` exactly when no file has that name; otherwise the file named `<slug>.md` decides it: its page record when it can be read, `Unreadable("<slug>.md")` when not |
| `Posts.ExistingFileDecidesPage` | apps/web/lib/posts.ts:50-51 | in a directory with distinct names, an existing `<slug>.md` gives its page record when readable and `Unreadable` otherwise |
| `Posts.ListedPostOpens` | apps/web/lib/posts.ts:31-75 | each listed `.md` post opens as a page under its listed slug, with the same slug, title, date and category; only the page has content, and the two excerpts come from their two sources |
| `Posts.ListedNonMarkdownEntryNotFound` | apps/web/lib/posts.ts:28-31 | an entry not ending in `.md` is listed under its full name, and its page is not found unless a file with `.md` added exists |
| `HomePage.CategoryColumn` | apps/web/app/page.tsx:8 | the mapped list has one category per post, at the post's position |
| `HomePage.Categories` | apps/web/app/page.tsx:8 | the categories have no duplicates, include every post's category, include only posts' categories, and are empty for no posts |
| `HomePage.CategoriesFirstSeenOrder` | apps/web/app/page.tsx:8 | the categories are in the order in which the sorted posts first mention them |
| `HomePage.GetPosts` | apps/web/app/page.tsx:6-10 | the page data fails exactly when the listing fails; otherwise its posts meet the listing's contract and its categories are those of these posts |
| `CategoryFilter.TabCategory` | packages/ui/src/components/CategoryFilter.tsx:24 | a tab change at `index` reports the menu's category at `index` |
| `CategoryFilter.SelectedIndex` | packages/ui/src/components/CategoryFilter.tsx:18 | the selected index is -1 exactly when the selection is not in the menu, and otherwise a tab showing the selection |
| `CategoryFilter.SelectedTabShowsSelection` | packages/ui/src/components/CategoryFilter.tsx:18 | the selected index is -1 exactly when the selection is not in the menu; otherwise its tab shows the selection and no earlier tab does |
| `CategoryFilter.TabRoundTrip` | packages/ui/src/components/CategoryFilter.tsx:18-24 | in a menu without duplicates, picking tab `i` and highlighting the reported category lands on tab `i` |
| `PostListView.MenuOf` | apps/web/app/components/PostList.tsx:17 | the menu starts with `'全部'`, which appears nowhere else, has no duplicates, holds every input category and nothing else |
| `PostListView.MenuKeepsFirstSeenOrder` | apps/web/app/components/PostList.tsx:17 | after `'全部'` the menu keeps the input categories in first-seen order |
| `PostListView.FilterByCategory` | apps/web/app/components/PostList.tsx:30-34 | every kept post is a post of the listing with the selected category, and no more posts are kept than listed |
| `PostListView.Visible` | apps/web/app/components/PostList.tsx:26-34 | with `'全部'` selected every post is visible unchanged; otherwise only listed posts of the selected category are visible |
| `PostListView.MatchingPositions` | apps/web/app/components/PostList.tsx:30-34 | the increasing positions of exactly the posts in the category |
| `PostListView.FilterIsMatchingSubsequence` | apps/web/app/components/PostList.tsx:30-34 | the filter keeps exactly the posts at the matching positions, in order |
| `PostListView.VisibleIsMatchingSubsequence` | apps/web/app/components/PostList.tsx:26-34 | for a selection other than `'全部'`, the visible posts are the order-preserving subsequence of posts in that category |
| `PostListView.VisibleForUnknownCategory` | apps/web/app/components/PostList.tsx:30-34 | a selection other than `'全部'` that no post carries shows nothing |
| `PostListView.InitialTabIsAll` | apps/web/app/components/PostList.tsx:13-17 | the initial selection `'全部'` is the menu's first tab |
| `PostListView.PostList.constructor` | apps/web/app/components/PostList.tsx:13 | the selection starts at `'全部'`, so every post is visible |
| `PostListView.PostList.AllCategories` | apps/web/app/components/PostList.tsx:16-19 | the component's menu starts with `'全部'`, has no duplicates and holds exactly the given categories besides it |
| `PostListView.PostList.FilteredPosts` | apps/web/app/components/PostList.tsx:22-35 | the component's visible posts are all of `initialPosts` for `'全部'`, and otherwise posts of `initialPosts` in the selected category |
| `PostListView.PostList.SelectedTab` | apps/web/app/components/PostList.tsx:40-41 | the tab bar highlights no tab exactly when the selection is not in the menu, and otherwise a tab showing the selection |
| `PostListView.PostList.Select` | apps/web/app/components/PostList.tsx:42 | the selection becomes the argument, unchecked against the menu; posts and categories are constants; the new state does not depend on the old one, so selecting twice equals selecting once |
| `PostListView.PostList.OnTabChange` | apps/web/app/components/PostList.tsx:39-43 | picking tab `i` selects the menu's `i`-th category, highlights tab `i` and shows that category's posts |

## Left out

- Filesystem access (`existsSync`, `mkdirSync`, `readdirSync`, `readFileSync`): the directory is an input sequence of entries. Creating a missing directory is not modelled; an empty directory is the empty sequence, which gives an empty listing and no categories.
- Path handling: `path.join` normalises a slug holding `/` or `..`; the model looks up the exact name `<slug>.md` among the entries.
- The front-matter parser (`gray-matter`) and its excerpt extraction are a library whose code is not part of this model; their output is an input. A file it cannot read or parse is an entry without a document.
- `title` and `date` are strings as the `Post` interface declares them. A missing title or date (`undefined`) and YAML dates parsed as `Date` objects are not modelled.
- `LexLess` compares Unicode scalar values, while JavaScript compares UTF-16 code units. The two orders differ only for characters beyond U+FFFF against characters from U+E000 to U+FFFF, which ISO dates do not contain.
- `Posts.SortNewestFirst`: the engine's own sort algorithm is not modelled. The comparator returns -1 when a post is compared with itself and -1 both ways for equal dates, so it is not a consistent comparator, and the ECMAScript standard then leaves the sort order implementation-defined and guarantees only a permutation. The model sorts by insertion with the same comparator and proves what a merge or insertion sort, as the engines use, gives: a newest-first permutation. The order of equal dates is left unstated, as in the source.
- The markdown pipeline (`remark`, `remark-rehype`, `rehype-highlight`, `rehype-stringify`) is a parameter `render`; rendering failures, highlighting and HTML escaping are not modelled.
- `async`, `await` and `Promise.all` are modelled as sequential code. The listing fails with the first unreadable entry in directory order, which is the rejection `Promise.all` reports.
- React rendering, `useMemo` caching, `console.log` calls, the `Tab.Group` markup and the behaviour of the tab group when the selected index is -1.
- `packages/ui/src/components/BlogPostCard.tsx` is presentational; its only logic is the link `/posts/<slug>`. The Tailwind configuration files are styling only.
