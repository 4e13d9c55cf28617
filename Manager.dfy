/** `ProductManager`: the product list it holds and the grid it draws. The grid
    is kept abstractly: the cards it shows (one per product, in order), the
    "no products" marker, or the load-error message. */
module Manager {
  import opened Catalog
  import opened Categories
  import opened Filtering

  /** What the products grid shows. `Placeholder` is whatever the page markup
      holds before the first load. */
  datatype Grid = Placeholder | Cards(cards: seq<Product>) | NoProducts | LoadFailed

  /** The result of the nine page requests: every page's product list, or a
      failure somewhere in the requests. */
  datatype FetchOutcome<Id> = Pages(pages: seq<seq<Listing<Id>>>) | FetchFailed

  /** The overlay entry that shows every product. */
  const All: string := "All"

  /** What `displayFilteredProducts(products)` leaves in the grid. */
  function FilteredView(products: seq<Product>): (g: Grid)
    ensures g == NoProducts <==> products == []
    ensures products != [] ==> g == Cards(products)
  {
    if products == [] then NoProducts else Cards(products)
  }

  /** What `filterByCategory(category)` leaves in the grid over `allProducts`. */
  function Shown(allProducts: seq<Product>, category: string): Grid {
    if category == All then Cards(allProducts) else FilteredView(InCategory(allProducts, category))
  }

  /** `All` shows every product in order, even when there are none (an empty
      grid, not the marker); any other choice shows the marker exactly when no
      product falls in the category, and otherwise cards for the category's
      products: exactly the filtered list, so in their original order and as
      often as they occur (see `InCategoryAppend` and `InCategoryCounts`). */
  lemma ShownCases(allProducts: seq<Product>, category: string)
    ensures category == All ==> Shown(allProducts, category) == Cards(allProducts)
    ensures category != All ==>
      (Shown(allProducts, category) == NoProducts <==>
        forall i :: 0 <= i < |allProducts| ==> GetProductCategory(allProducts[i].title) != category)
    ensures category != All && InCategory(allProducts, category) != [] ==>
      Shown(allProducts, category) == Cards(InCategory(allProducts, category))
    ensures category != All && Shown(allProducts, category).Cards? ==>
      forall p :: p in Shown(allProducts, category).cards <==>
        p in allProducts && GetProductCategory(p.title) == category
  {
    if category != All {
      forall p | p in allProducts
        ensures p in InCategory(allProducts, category) <==> GetProductCategory(p.title) == category
      {
        ExactlyOneView(allProducts, p, category);
      }
      if InCategory(allProducts, category) != [] {
        var p := InCategory(allProducts, category)[0];
        assert p in InCategory(allProducts, category);
        var i :| 0 <= i < |allProducts| && allProducts[i] == p;
      } else {
        forall i | 0 <= i < |allProducts| ensures GetProductCategory(allProducts[i].title) != category {
          assert allProducts[i] in allProducts;
        }
      }
    }
  }

  /** Choosing a name the matcher never answers (and not `All`) always shows
      the marker. */
  lemma UnknownCategoryShowsMarker(allProducts: seq<Product>, category: string)
    requires category != All && category !in CategoryNames
    ensures Shown(allProducts, category) == NoProducts
  {
    UnknownCategoryIsEmpty(allProducts, category);
  }

  class ProductManager {
    var allProducts: seq<Product>
    var grid: Grid

    constructor ()
      ensures allProducts == [] && grid == Placeholder
    {
      allProducts := [];
      grid := Placeholder;
    }

    /** `displayAllProducts`: clear the grid, then append one card per product. */
    method DisplayAllProducts()
      modifies this`grid
      ensures grid == Cards(allProducts)
      ensures allProducts == old(allProducts)
    {
      grid := Cards([]);
      var i := 0;
      while i < |allProducts|
        invariant 0 <= i <= |allProducts|
        invariant grid == Cards(allProducts[..i])
      {
        grid := Cards(grid.cards + [allProducts[i]]);
        i := i + 1;
      }
      assert allProducts[..|allProducts|] == allProducts;
    }

    /** `displayFilteredProducts(products)`: clear the grid; show the marker
        for an empty list, one card per product otherwise. */
    method DisplayFilteredProducts(products: seq<Product>)
      modifies this`grid
      ensures grid == FilteredView(products)
      ensures allProducts == old(allProducts)
    {
      grid := Cards([]);
      if |products| == 0 {
        grid := NoProducts;
        return;
      }
      var i := 0;
      while i < |products|
        invariant 0 <= i <= |products|
        invariant grid == Cards(products[..i])
      {
        grid := Cards(grid.cards + [products[i]]);
        i := i + 1;
      }
      assert products[..|products|] == products;
    }

    /** `filterByCategory(category)`: redraws the grid for the chosen entry and
        leaves the product list as it was. */
    method FilterByCategory(category: string)
      modifies this`grid
      ensures grid == Shown(allProducts, category)
      ensures allProducts == old(allProducts)
    {
      if category == All {
        DisplayAllProducts();
        return;
      }
      var filteredProducts := InCategory(allProducts, category);
      DisplayFilteredProducts(filteredProducts);
    }

    /** `fetchProducts`, after the requests: on success store the
        deduplicated, projected products and show them all; on failure show
        the error message and keep the products held so far. */
    method FetchProducts<Id(==)>(outcome: FetchOutcome<Id>, idText: Id -> string)
      modifies this
      ensures outcome.Pages? ==>
        allProducts == Pipeline(outcome.pages, idText) && grid == Cards(allProducts)
      ensures outcome.FetchFailed? ==> allProducts == old(allProducts) && grid == LoadFailed
    {
      match outcome
      case FetchFailed =>
        grid := LoadFailed;
      case Pages(pagesData) =>
        var kept := DedupById(Flatten(pagesData));
        allProducts := ProjectAll(kept, idText);
        DisplayAllProducts();
    }
  }
}
