# Product catalog core: keyword categories, deduplication, filtering

This project models the logic inside `ProductManager` of a single-page product
catalog script (`script.js`). The page fetches a shop's product pages, keeps
one product per id, projects each onto the record it displays, infers a
category for every product from keywords in its title, and lets the visitor
filter the grid by category.

Modules, one per piece of the script:

- `Text` — the string operations the matcher relies on: `includes`
  (`Contains`), `replace` with a one-character pattern (`RemoveFirst`, which
  removes only the first occurrence), and `toLowerCase` (`Lower`).
- `Categories` — the fixed `categoryKeywords` table, walked in its listed
  order (Jackets, Pants, Sweaters, Shoes, Accessories), and
  `getProductCategory` (`GetProductCategory`), with the walk and its early
  return as the recursive `MatchIndex`.
- `Catalog` — the pipeline of `fetchProducts`: `flatMap` over the pages
  (`Flatten`), the filter through the mutable `seenIds` set (the loop
  `DedupById`, proved equal to the specification function `FirstById`), and
  the projection onto `{title, image, price, link, sold}` (`ProjectAll`).
- `Filtering` — the `filter` inside `filterByCategory` (`InCategory`) and the
  fact that the six category views partition the product list.
- `Manager` — the class `ProductManager` with its fields `allProducts` and
  `grid`. The grid is kept abstractly: the cards it shows (one per product,
  in order), the "no products" marker, or the load-error message. The display
  methods rebuild it card by card as the script's `forEach`/`appendChild`
  loops do.

Two behaviours of the script show up in the proofs:

- The third keyword test removes the FIRST `s` of a keyword, so `shoes`
  becomes `hoes` and `trousers` becomes `trouers` (`Categories.FirstSRemoval`),
  so this test does not yield the singular form of those keywords. A title
  reading just `shoe` does not match the Shoes row
  (`Categories.SingularShoeMissed`).
- Choosing `All` with an empty product list leaves an empty grid. Only the
  other categories show the "no products" marker (`Manager.ShownCases`).

The `keyword + 's'` test never changes the outcome
(`Categories.PluralTestRedundant`).

## Model

| member | source | states |
|---|---|---|
| `Text.ContainsTransitive` | script.js:52-55 | a string contained in a contained string is contained in the whole (the substring order `includes` tests is transitive) |
| `Text.ContainsPrefix` | script.js:53-54 | `keyword + 's'` contains `keyword` |
| `Text.RemoveFirstAbsent` | script.js:55 | `replace('s', '')` returns a keyword without an `s` unchanged |
| `Text.RemoveFirstAt` | script.js:55 | when the first `s` stands at position `i`, `replace('s', '')` cuts out exactly that character and keeps the rest in order |
| `Text.LowerIsLowerCase` | script.js:50 | the lower-cased title has no capital letters; a string is lower-case exactly when lower-casing leaves it unchanged |
| `Text.LowerIdempotent` | script.js:50 | lower-casing twice is lower-casing once |
| `Text.ContainsLower` | script.js:50-55 | lower-casing both strings keeps containment |
| `Categories.MatchIndex` | script.js:51-59 | the walk returns the first table row with a matching keyword: that row matches, no earlier row does, and `|table|` means no row matches |
| `Categories.GetProductCategory` | script.js:49-61 | the result is one of Jackets, Pants, Sweaters, Shoes, Accessories, Other; it is Other exactly when no keyword of any row matches the lower-cased title in any of its three forms |
| `Categories.CategoryAtIndex` | script.js:49-61 | the category is the name at the first matching row's position in priority order, Other last |
| `Categories.FirstMatchWins` | script.js:51-57 | the result is row `i`'s name if and only if row `i` matches and no earlier row does |
| `Categories.EarlierRowWins` | script.js:51-57 | "Hoodie Bomber" matches both the Sweaters row and the Jackets row and is classified Jackets |
| `Categories.PluralTestRedundant` | script.js:52-55 | a keyword matches exactly when the title contains the keyword or the keyword without its first `s`; the `keyword + 's'` test adds nothing |
| `Categories.NamesFollowTable` | script.js:11-60 | the possible answers are the table's row names in the table's order followed by `Other`, one more than the table has rows |
| `Categories.KeywordsAreLowerCase` | script.js:11-17 | every keyword of the table is lower-case |
| `Categories.KeywordInAnyCase` | script.js:50-55 | a title containing a table keyword in any mix of upper and lower case matches that keyword's row |
| `Categories.CaseInsensitive` | script.js:49-50 | a title and its lower-case form get the same category |
| `Categories.KeywordMatchesGrow` | script.js:52-55 | a keyword that matches a title matches every title containing it |
| `Categories.MatchIndexGrow` | script.js:51-59 | on any table, a title's first matching row comes no later than that of any title it contains |
| `Categories.ExtendTitle` | script.js:49-61 | extending a title keeps its category or moves it to an earlier one in priority order (Other last) |
| `Categories.FirstSRemoval` | script.js:55 | the third test turns `shoes` into `hoes` and `trousers` into `trouers`, not into their singular forms |
| `Categories.SingularShoeMissed` | script.js:52-55 | the title `shoe` matches no keyword of the Shoes row |
| `Catalog.Flatten` | script.js:124-125 | every listing of every page is in the flattened list, and every listing in it comes from some page |
| `Catalog.FirstById` | script.js:123-132 | the kept listings are no more than the input's and have pairwise distinct ids |
| `Catalog.DedupById` | script.js:123-132 | the loop with the `seenIds` set returns exactly `FirstById` of its input |
| `Catalog.FirstByIdSameIds` | script.js:123-132 | deduplication keeps the set of ids of the input |
| `Catalog.FirstByIdOfDistinct` | script.js:123-132 | a list with distinct ids comes through unchanged |
| `Catalog.FirstByIdIdempotent` | script.js:123-132 | deduplicating twice equals deduplicating once |
| `Catalog.FirstByIdKeepsFirstOccurrences` | script.js:123-132 | the kept listings are the input's listings at strictly increasing positions, each the first occurrence of its id, and every first occurrence is kept |
| `Catalog.LinkedItem` | script.js:137 | a link read back to an item id has the form `https://item.taobao.com/item.htm?id=` followed by that id |
| `Catalog.ShownPrice` | script.js:136 | a price read back to an amount has the form yen sign followed by that amount |
| `Catalog.ProjectAll` | script.js:133-139 | one record per listing in the same order; title, image and sold come from name, imgUrl and sold; the link reads back to the listing's id and the price to the listing's price |
| `Catalog.DistinctLinks` | script.js:133-139 | listings with distinct ids become products with distinct links when the id's text determines the id |
| `Catalog.PipelineStoresEachIdOnce` | script.js:123-139 | the stored list is no longer than the fetched list, has one product per distinct fetched id, and has distinct links when the id's text determines the id |
| `Filtering.InCategory` | script.js:69-71 | the filtered list is no longer than the product list and holds only products of the list whose category is the chosen one |
| `Filtering.InCategoryCounts` | script.js:69-71 | a product occurs in the view as often as in the list when its category is the chosen one, and not at all otherwise |
| `Filtering.InCategoryAppend` | script.js:69-71 | filtering keeps the original order: the view of a concatenation is the concatenation of the views |
| `Filtering.InCategoryKeepsAll` | script.js:69-71 | a list wholly in the category is its own view |
| `Filtering.InCategoryIdempotent` | script.js:69-71 | filtering a view again changes nothing |
| `Filtering.UnknownCategoryIsEmpty` | script.js:69-71 | a name the matcher never returns selects no product |
| `Filtering.ViewsCount` | script.js:69-71 | pooled over distinct category names, the views hold a product as often as the list does when its category is among the names, and not at all otherwise |
| `Filtering.ViewsPartition` | script.js:69-71 | the views of the six categories together hold exactly the product list |
| `Filtering.ExactlyOneView` | script.js:69-71 | each product of the list appears in the view of its own category and in no other view |
| `Manager.FilteredView` | script.js:76-85 | the grid shows the marker exactly when the list is empty; a non-empty list always shows cards, exactly its products in its order |
| `Manager.ShownCases` | script.js:63-92 | `All` shows every product in order; any other choice shows the marker exactly when no product is in the category, and otherwise cards holding exactly the filtered list `InCategory(allProducts, category)`, which keeps the list's order and multiplicities (`Filtering.InCategoryAppend`, `Filtering.InCategoryCounts`); a product is among those cards exactly when it is in the list with that category |
| `Manager.UnknownCategoryShowsMarker` | script.js:63-85 | choosing a name the matcher never returns, other than `All`, shows the marker |
| `Manager.ProductManager.constructor` | script.js:6-19 | a new manager holds no products and the grid holds the page's initial markup |
| `Manager.ProductManager.DisplayAllProducts` | script.js:87-92 | the grid shows one card per product of `allProducts`, in order; `allProducts` is unchanged |
| `Manager.ProductManager.DisplayFilteredProducts` | script.js:76-85 | the grid shows the marker for an empty list and one card per product otherwise; `allProducts` is unchanged |
| `Manager.ProductManager.FilterByCategory` | script.js:63-74 | the grid shows what `Shown` gives for the choice; `allProducts` is never modified |
| `Manager.ProductManager.FetchProducts` | script.js:122-154 | on success `allProducts` becomes the deduplicated, projected listings of all pages and the grid shows them all; on failure the grid shows the error and `allProducts` is kept |

## Left out

- Network and concurrency: `fetch`, the request headers, `URLSearchParams`, the fixed fan-out of nine page requests joined with `Promise.all`, and the `response.ok` check. The outcome of the requests is a parameter of `FetchProducts`, either the pages' product lists or a failure.
- Manager.ProductManager.FetchProducts: a failure anywhere in the request chain, or a page whose JSON lacks `data.shopProducts.productList`, is one `FetchFailed` outcome. The logged error and the static error markup are the single grid state `LoadFailed`.
- HTML building: `createProductCard` and its string templating into `innerHTML`, including the truthiness test on `sold`. A card in the grid is represented by the product it shows.
- UI events: the burger-menu and overlay toggling, the `active` class bookkeeping, the click-outside handling and the `DOMContentLoaded` bootstrap.
- Number formatting: `price` and `sold` are the text the page shows for those JSON values, so JavaScript's number-to-string conversion is not modelled. In the same way the id's text in the link is a caller-given function `idText`.
- Text.Lower: only the ASCII capitals `A`-`Z` are lower-cased. The Unicode case mapping of `toLowerCase`, including mappings that change a string's length, is not modelled.
- Catalog.Flatten: its contract states membership in both directions, not the order. The order (page after page, each page in its own order) is its body.
- `getProductCategory` reads `this.categoryKeywords`, which nothing ever changes; the table is a module constant `Categories.CategoryKeywords`.
- `window.VERSION` and the other configuration lines at the top of the script.
