# Store screen: category list and view state

This project models the storefront screen's catalog derivation and the small
pieces of view state around it, and proves properties of that model in Dafny.

The screen takes a product list and a search query and derives the list of
categories it renders, in three steps:

1. **Filter.** With an empty query every product is kept. Otherwise a product
   is kept when its lower-cased title, followed directly by its lower-cased
   description, includes the lower-cased query.
2. **Group.** A `reduce` over the filtered products builds an
   insertion-ordered `Map` from category to products. Each product is appended
   to the list of its own category.
3. **Order.** The map's entries go into an array, which is sorted twice. The
   first sort puts larger groups first. The second moves the category
   "Varios" to the end.

Around that list the screen keeps three pieces of state:

- the layout: "list" for catalogs of more than 30 products, "grid" otherwise;
- the selected category: the first group's category whenever the list
  changes; clicking a header toggles it. The click handler (line 145) is
  attached in both layouts, although the comment at line 143 says clicking is
  meant for the list view only; only the pointer cursor is list-only. So a
  click in the grid changes the selection, which shows once the layout
  switches to the list (`GridClickChangesSelection`);
- a visibility rule: a group shows its products when it is selected or the
  layout is the grid.

Files and modules:

- `sequences.dfy` (`Sequences`): subsequence, sortedness, injectivity and distinctness predicates.
- `stable_sort.dfy` (`StableSort`): `Array.prototype.sort` as a stable sort by an integer key. The functional insertion sort `SortByKey` is the specification. `SortInPlace` is an in-place insertion sort on an `array`, proved to produce it.
- `search_text.dfy` (`SearchText`): `toLowerCase` restricted to ASCII, and `includes`.
- `catalog.dfy` (`Catalog`): `Product`, `Group`, the filter, the grouping loop `GroupByCategory`, the two sorts, the whole `categories` memo as the method `Categories`, and its specification `CategoryList`, with the partition and ordering lemmas.
- `store_view.dfy` (`StoreView`): initial layout, selection toggle, default selection and visibility.

`Categories` runs the steps in the order the screen does: filter, then the map-building loop, then copy into an array, then sort in place twice. Its postcondition says the result is `CategoryList(products, query)`. The lemmas about `CategoryList` state what the screen relies on: the list is a partition of the filtered products, it is ordered by size with "Varios" last, and ties keep first-appearance order.

Sorting with a comparator `(a, b) => key(a) - key(b)` is sorting by `key`. `ComparatorsAreKeyDifferences` shows that both comparators of the screen have this form: `SizeKey` for the first and `VariosKey` for the second. The second comparator answers 1 for two "Varios" groups, so it is not a consistent comparator in that one case. That case never arises, because the category keys are distinct (`CatalogCategoriesDistinct`). `StableSortUnique` shows that a sorted sequence that keeps every key class in input order must equal `SortByKey`. So any stable algorithm, which is what the language standard requires of `sort`, gives the result modelled here.

## Model

| member | source | states |
|---|---|---|
| `SearchText.Lower` | src/modules/store/screens/Store.tsx:31 | lower-casing keeps the length, maps each character through the ASCII lower-case map, and leaves no upper-case letter |
| `SearchText.LowerIdempotent` | src/modules/store/screens/Store.tsx:31 | lower-casing an already lower-cased string changes nothing |
| `SearchText.Contains` | src/modules/store/screens/Store.tsx:31 | `includes` holds exactly when the needle occurs at some position of the haystack |
| `SearchText.ContainsEmpty` | src/modules/store/screens/Store.tsx:31 | every string includes the empty string |
| `Catalog.MatchesQuery` | src/modules/store/screens/Store.tsx:31 | the search predicate as written: the lower-cased title followed by the lower-cased description includes the lower-cased query |
| `Catalog.MatchesJoinedText` | src/modules/store/screens/Store.tsx:31 | a product matches exactly when the lower-cased query occurs at some position of the lower-cased text of title and description joined |
| `Catalog.Matching` | src/modules/store/screens/Store.tsx:30-32 | the filtered list is a subsequence of the products |
| `Catalog.MatchingMembers` | src/modules/store/screens/Store.tsx:30-32 | the filter keeps a product exactly when it matches the query |
| `Catalog.MatchingMultiplicity` | src/modules/store/screens/Store.tsx:30-32 | each matching product is kept as often as it occurs, and each other product is dropped |
| `Catalog.MatchingEmptyQuery` | src/modules/store/screens/Store.tsx:29-33 | filtering by the empty query returns the products unchanged, so skipping the filter for an empty query changes no result |
| `Catalog.Search` | src/modules/store/screens/Store.tsx:29-33 | skipping the filter for the empty query gives the same list as filtering by every query, the empty one included |
| `Catalog.SearchKeepsExactlyMatches` | src/modules/store/screens/Store.tsx:29-33 | the searched list equals the products when the query is empty; for any query it is the subsequence of matching products, in original order and with original multiplicities |
| `Catalog.MatchAcrossTitleAndDescription` | src/modules/store/screens/Store.tsx:31 | title and description are joined without a separator, so a query can match across the boundary ("Mesa" + "Roja" matches "sar") |
| `Catalog.QueryCaseInsensitive` | src/modules/store/screens/Store.tsx:31 | the letter case of the query does not affect matching |
| `Catalog.InCategory` | src/modules/store/screens/Store.tsx:41 | a category's bucket is a subsequence of the filtered list |
| `Catalog.InCategoryMembers` | src/modules/store/screens/Store.tsx:36-44 | every product in a bucket is a filtered product of its category, and every filtered product of that category is in the bucket |
| `Catalog.InCategoryMultiplicity` | src/modules/store/screens/Store.tsx:36-44 | a bucket holds each filtered product of its category as often as the filtered list does, and no other product |
| `Catalog.Keys` | src/modules/store/screens/Store.tsx:36-44 | the map's keys are distinct, include the category of every filtered product, and include no other category |
| `Catalog.KeysInFirstAppearanceOrder` | src/modules/store/screens/Store.tsx:36-44 | the map's keys are ordered by the position of their first product in the filtered list |
| `Catalog.FirstIndexOf` | src/modules/store/screens/Store.tsx:36-44 | the position returned holds the first product of the category, or is the list length when the category is absent |
| `Catalog.GroupByCategory` | src/modules/store/screens/Store.tsx:36-47 | the reduce loop over an insertion-ordered map, followed by the copy of its entries, yields `Grouped(draft)`: one group per key, in key order, holding that key's bucket |
| `Catalog.Entries` | src/modules/store/screens/Store.tsx:47 | `Array.from(map.entries())`: one entry per key, in insertion order, pairing the key with its map value |
| `Catalog.SumSizesGroupsFor` | src/modules/store/screens/Store.tsx:36-44 | with distinct keys covering every category, the bucket sizes add up to the length of the filtered list |
| `Catalog.ComparatorsAreKeyDifferences` | src/modules/store/screens/Store.tsx:48-53 | the size comparator is the difference of `SizeKey`; the "Varios" comparator is the difference of `VariosKey` on groups of different categories |
| `Catalog.BySizeDescending` | src/modules/store/screens/Store.tsx:48 | the first comparator as written: it puts `a` first (negative) exactly when `a` is the larger group, and answers 0 exactly on equal sizes |
| `Catalog.VariosLast` | src/modules/store/screens/Store.tsx:49-53 | the second comparator as written: it puts `a` after `b` exactly when `a` is "Varios", and before `b` exactly when only `b` is "Varios" |
| `StableSort.SortByKey` | src/modules/store/screens/Store.tsx:47-53 | a sort keeps the number of elements; its order, stability and permutation facts are the lemmas below |
| `StableSort.SortPermutes` | src/modules/store/screens/Store.tsx:47-53 | each sort returns a permutation of its input |
| `StableSort.SortSorted` | src/modules/store/screens/Store.tsx:47-53 | each sort returns a sequence whose keys never decrease |
| `StableSort.SortStable` | src/modules/store/screens/Store.tsx:47-53 | each sort keeps the elements of every key class in input order (stability) |
| `StableSort.StableSortUnique` | src/modules/store/screens/Store.tsx:47-53 | any sorted arrangement that keeps every key class in input order is the modelled sort's result |
| `StableSort.SortKeepsInjective` | src/modules/store/screens/Store.tsx:47-53 | sorting keeps distinct categories distinct |
| `StableSort.SortInPlace` | src/modules/store/screens/Store.tsx:47-53 | the in-place array sort leaves the array holding `SortByKey` of its old contents |
| `StableSort.InsertInPlace` | src/modules/store/screens/Store.tsx:47-53 | shifting the larger elements of the sorted prefix right and dropping the element into the gap is `Insert` |
| `Catalog.Ordered` | src/modules/store/screens/Store.tsx:47-53 | the two sorts in turn keep the number of groups |
| `Catalog.OrderedVariosLast` | src/modules/store/screens/Store.tsx:49-53 | after both sorts, a "Varios" group is the last entry |
| `Catalog.OrderedSizesNonIncreasing` | src/modules/store/screens/Store.tsx:47-53 | after both sorts, no group other than "Varios" is larger than one before it |
| `Catalog.OrderedTiesKeepInputOrder` | src/modules/store/screens/Store.tsx:47-53 | two groups other than "Varios" with equal sizes stay in their input order |
| `Catalog.CategoryList` | src/modules/store/screens/Store.tsx:25-54 | the memo's result has one group per distinct category of the filtered products |
| `Catalog.Categories` | src/modules/store/screens/Store.tsx:25-54 | the memo's filter, map loop and two in-place sorts compute `CategoryList(products, query)` |
| `Catalog.CatalogCategoriesDistinct` | src/modules/store/screens/Store.tsx:36-53 | no category is listed twice, so `key={category}` is unique |
| `Catalog.CatalogEntryIsBucket` | src/modules/store/screens/Store.tsx:162-179 | a listed group holds exactly the filtered products of its category and is never empty, so the inner "No hay productos" branch is unreachable |
| `Catalog.CatalogGroupsAreBuckets` | src/modules/store/screens/Store.tsx:36-44 | every listed group holds exactly its category's filtered products, in filtered order, and is non-empty |
| `Catalog.CatalogCoversSearch` | src/modules/store/screens/Store.tsx:36-44 | every filtered product appears in the listed group of its own category |
| `Catalog.CatalogGroupMultiplicity` | src/modules/store/screens/Store.tsx:36-44 | each listed group holds every filtered product of its category as often as the filtered list does, and no other product |
| `Catalog.CatalogProductInExactlyOneGroup` | src/modules/store/screens/Store.tsx:36-44 | each filtered product is listed in exactly one group, the one of its own category |
| `Catalog.CatalogSizesSum` | src/modules/store/screens/Store.tsx:36-53 | the listed group sizes add up to the number of filtered products |
| `Catalog.CatalogEmptyIff` | src/modules/store/screens/Store.tsx:184-187 | the list is empty exactly when no product passes the filter, which is when the outer "No hay productos" message shows |
| `Catalog.CatalogVariosLast` | src/modules/store/screens/Store.tsx:47-53 | a "Varios" group, when present, is the last entry of the list |
| `Catalog.CatalogSizesNonIncreasing` | src/modules/store/screens/Store.tsx:47-53 | apart from "Varios", listed groups are in non-increasing order of size |
| `Catalog.CatalogTiesInFirstAppearanceOrder` | src/modules/store/screens/Store.tsx:47-53 | groups other than "Varios" of equal size are listed in the order their categories first appear in the filtered list |
| `StoreView.InitialLayout` | src/modules/store/screens/Store.tsx:19-21 | the initial layout is the list exactly when there are more than 30 products, and the grid otherwise |
| `StoreView.SelectCategory` | src/modules/store/screens/Store.tsx:63-66 | clicking the selected category clears the selection; clicking any other category selects it; the result is either no selection or the clicked category |
| `StoreView.SelectTwice` | src/modules/store/screens/Store.tsx:63-66 | from any selection other than the clicked category, two clicks select it and then clear it |
| `StoreView.DefaultSelection` | src/modules/store/screens/Store.tsx:57-61 | when the list is non-empty the selection becomes the first group's category; otherwise the selection is kept |
| `StoreView.DefaultSelectsLargestGroup` | src/modules/store/screens/Store.tsx:57-61 | the default selection is a group at least as large as every group other than "Varios"; it is "Varios" only when that is the only group; its products are shown in either layout |
| `StoreView.DefaultSelectionAfterLoad` | src/modules/store/screens/Store.tsx:22-61 | with a non-empty catalog and no query, the default selection picks a category |
| `StoreView.ShowsProducts` | src/modules/store/screens/Store.tsx:160 | the visibility condition as written: a group shows its products when it is selected or the layout is the grid |
| `StoreView.GridShowsEveryGroup` | src/modules/store/screens/Store.tsx:160 | in the grid layout every group shows its products |
| `StoreView.ListShowsAtMostOneGroup` | src/modules/store/screens/Store.tsx:160 | in the list layout at most one group, the selected one, shows its products |
| `StoreView.ClickTogglesGroup` | src/modules/store/screens/Store.tsx:63-66 | in the list layout a click opens the clicked group exactly when it was closed, and every other group is then closed |
| `StoreView.GridClickChangesSelection` | src/modules/store/screens/Store.tsx:141-145 | a header click changes the selection in the grid layout too, and the grid shows the group before and after |

## Left out

- Rendering, JSX and the hooks (`useState`, `useMemo`, `useEffect`). These are framework plumbing. `DefaultSelection` models the effect body as a function of the current selection and the new list; when React runs it is not modelled.
- Scrolling to the clicked category (Store.tsx lines 69-81). It is DOM queries and floating-point layout arithmetic, deferred with `queueMicrotask`.
- The cart drawer and navigation (lines 192-202). `addItem(Date.now(), …)`, `router.push` and `CartItemDrawer` call code that is not part of this model, and they depend on the clock.
- The query input, its clear button and the two layout buttons (lines 94-133). They only assign `setQuery(value)`, `setQuery("")`, `setLayout("list")` and `setLayout("grid")`, so no member models them. Every query and every layout is a parameter of the modelled functions.
- `ProductCard`, `Input`, `Toggle`, `Link` and `cn` are UI library components.
- Product fields other than `id`, `title`, `description` and `category`. The `Product` type's definition is not part of this model. `id` is taken to be a string.
- Strings: a JavaScript string is a sequence of UTF-16 code units, while a Dafny `string` is a sequence of Unicode scalar values. `includes` gives the same answer on well-formed strings; lone surrogates cannot be represented.
- `SearchText.Lower`: ASCII only. It maps 'A'..'Z' and leaves every other character unchanged. It does not model full Unicode `toLowerCase` (accented capitals, locale-independent special cases).
- `StableSort.SortByKey`: models `Array.prototype.sort` by one stable algorithm, insertion sort. The engine's algorithm is not modelled. `StableSortUnique` shows every stable sort gives the same result.
- `Catalog.GroupByCategory`: the JavaScript `Map` is modelled by a key-order sequence and a Dafny `map`. The copy made by `concat` and the reuse of the accumulator object are not modelled.
