/** The pure part of `filterByCategory`: `allProducts.filter(...)` keeps the
    products whose inferred category equals the chosen one. */
module Filtering {
  import opened Catalog
  import opened Categories

  /** The products of `products` whose title falls in `category`, in order. */
  function InCategory(products: seq<Product>, category: string): (shown: seq<Product>)
    ensures |shown| <= |products|
    ensures forall p :: p in shown ==> p in products && GetProductCategory(p.title) == category
  {
    if products == [] then []
    else if GetProductCategory(products[0].title) == category then [products[0]] + InCategory(products[1..], category)
    else InCategory(products[1..], category)
  }

  /** Each product is kept as often as it occurs when its category is the
      chosen one, and dropped otherwise. */
  lemma {:induction false} InCategoryCounts(products: seq<Product>, category: string, p: Product)
    ensures multiset(InCategory(products, category))[p] ==
      if GetProductCategory(p.title) == category then multiset(products)[p] else 0
  {
    if products != [] {
      var first, rest := products[0], products[1..];
      assert products == [first] + rest;
      assert multiset(products) == multiset{first} + multiset(rest);
      InCategoryCounts(rest, category, p);
      if GetProductCategory(first.title) == category {
        assert InCategory(products, category) == [first] + InCategory(rest, category);
        assert multiset(InCategory(products, category)) == multiset{first} + multiset(InCategory(rest, category));
      } else {
        assert InCategory(products, category) == InCategory(rest, category);
      }
    }
  }

  /** Filtering respects order: the view of a concatenation is the
      concatenation of the views. */
  lemma {:induction false} InCategoryAppend(front: seq<Product>, back: seq<Product>, category: string)
    ensures InCategory(front + back, category) == InCategory(front, category) + InCategory(back, category)
  {
    if front != [] {
      var whole := front + back;
      assert whole != [] && whole[0] == front[0] && whole[1..] == front[1..] + back;
      InCategoryAppend(front[1..], back, category);
    } else {
      assert front + back == back;
    }
  }

  /** A list that lies wholly in the category is its own view. */
  lemma {:induction false} InCategoryKeepsAll(products: seq<Product>, category: string)
    requires forall i :: 0 <= i < |products| ==> GetProductCategory(products[i].title) == category
    ensures InCategory(products, category) == products
  {
    if products != [] {
      InCategoryKeepsAll(products[1..], category);
    }
  }

  /** Filtering a view again changes nothing. */
  lemma InCategoryIdempotent(products: seq<Product>, category: string)
    ensures InCategory(InCategory(products, category), category) == InCategory(products, category)
  {
    var shown := InCategory(products, category);
    forall i | 0 <= i < |shown| ensures GetProductCategory(shown[i].title) == category {
      assert shown[i] in shown;
    }
    InCategoryKeepsAll(shown, category);
  }

  /** A name the matcher never answers shows nothing. */
  lemma {:induction false} UnknownCategoryIsEmpty(products: seq<Product>, category: string)
    requires category !in CategoryNames
    ensures InCategory(products, category) == []
  {
    if products != [] {
      UnknownCategoryIsEmpty(products[1..], category);
    }
  }

  /** The views for each of `categories`, pooled. */
  function Views(products: seq<Product>, categories: seq<string>): multiset<Product> {
    if categories == [] then multiset{}
    else multiset(InCategory(products, categories[0])) + Views(products, categories[1..])
  }

  predicate NoRepeats(names: seq<string>) {
    forall i, j :: 0 <= i < j < |names| ==> names[i] != names[j]
  }

  lemma {:induction false} ViewsCount(products: seq<Product>, categories: seq<string>, p: Product)
    requires NoRepeats(categories)
    ensures Views(products, categories)[p] ==
      if GetProductCategory(p.title) in categories then multiset(products)[p] else 0
  {
    if categories != [] {
      ViewsCount(products, categories[1..], p);
      InCategoryCounts(products, categories[0], p);
      assert categories[0] !in categories[1..];
      assert forall c :: c in categories <==> c == categories[0] || c in categories[1..];
    }
  }

  /** The six views partition the products: pooled, the views for
      Jackets, Pants, Sweaters, Shoes, Accessories and Other hold every
      product exactly as often as the full list does. */
  lemma ViewsPartition(products: seq<Product>)
    ensures Views(products, CategoryNames) == multiset(products)
  {
    assert NoRepeats(CategoryNames);
    forall p ensures Views(products, CategoryNames)[p] == multiset(products)[p] {
      ViewsCount(products, CategoryNames, p);
    }
  }

  /** Each product of the list appears in the view of its own category and in
      no other view. */
  lemma ExactlyOneView(products: seq<Product>, p: Product, category: string)
    requires p in products
    ensures GetProductCategory(p.title) in CategoryNames
    ensures p in InCategory(products, category) <==> category == GetProductCategory(p.title)
  {
    InCategoryCounts(products, category, p);
    assert multiset(products)[p] > 0;
  }
}
