/** The product pipeline of `fetchProducts`: the pages' product lists are
    flattened, duplicates by id are dropped (first occurrence kept), and each
    listing is projected onto the record the grid shows. */
module Catalog {

  datatype Option<T> = None | Some(value: T)

  /** A product as the catalog API lists it. `price` and `sold` are the text
      the page shows for those values; `Id` is any type with equality. */
  datatype Listing<Id> = Listing(id: Id, name: string, imgUrl: string, price: string, sold: string)

  /** A product as the page keeps it in `allProducts`. */
  datatype Product = Product(title: string, image: string, price: string, link: string, sold: string)

  const ItemLinkPrefix: string := "https://item.taobao.com/item.htm?id="

  /** The yen sign put in front of every price. */
  const PriceSign: string := "\U{A5}"

  /** `pagesData.flatMap(...)`: every page's product list, one after another. */
  function Flatten<T>(pages: seq<seq<T>>): (all: seq<T>)
    ensures forall p, k :: 0 <= p < |pages| && 0 <= k < |pages[p]| ==> pages[p][k] in all
    ensures forall x :: x in all ==> exists p :: 0 <= p < |pages| && x in pages[p]
  {
    if pages == [] then [] else pages[0] + Flatten(pages[1..])
  }

  /** The ids that occur in `xs`. */
  function IdSet<Id(==)>(xs: seq<Listing<Id>>): set<Id> {
    set i | 0 <= i < |xs| :: xs[i].id
  }

  predicate DistinctIds<Id(==)>(xs: seq<Listing<Id>>) {
    forall i, j :: 0 <= i < j < |xs| ==> xs[i].id != xs[j].id
  }

  /** Position `i` holds the first listing of `xs` with its id. */
  predicate IsFirstOccurrence<Id(==)>(xs: seq<Listing<Id>>, i: int)
    requires 0 <= i < |xs|
  {
    forall j :: 0 <= j < i ==> xs[j].id != xs[i].id
  }

  lemma IdSetAppend<Id>(xs: seq<Listing<Id>>, x: Listing<Id>)
    ensures IdSet(xs + [x]) == IdSet(xs) + {x.id}
  {
    assert forall i | 0 <= i < |xs| :: (xs + [x])[i] == xs[i];
    assert (xs + [x])[|xs|] == x;
  }

  /** The filter through `seenIds`, as a function of the list read so far:
      a listing is kept when no earlier kept listing has its id. */
  function FirstById<Id(==)>(xs: seq<Listing<Id>>): (kept: seq<Listing<Id>>)
    ensures |kept| <= |xs|
    ensures DistinctIds(kept)
  {
    if xs == [] then []
    else
      var rest := FirstById(xs[..|xs| - 1]);
      var x := xs[|xs| - 1];
      if x.id in IdSet(rest) then rest else rest + [x]
  }

  /** The filter loop of `fetchProducts`: walks the list once, keeping a set of
      the ids seen so far. */
  method DedupById<Id(==)>(xs: seq<Listing<Id>>) returns (kept: seq<Listing<Id>>)
    ensures kept == FirstById(xs)
  {
    var seenIds: set<Id> := {};
    kept := [];
    var i := 0;
    while i < |xs|
      invariant 0 <= i <= |xs|
      invariant kept == FirstById(xs[..i])
      invariant seenIds == IdSet(kept)
    {
      var x := xs[i];
      assert xs[..i + 1][..i] == xs[..i];
      if x.id !in seenIds {
        IdSetAppend(kept, x);
        seenIds := seenIds + {x.id};
        kept := kept + [x];
      }
      i := i + 1;
    }
    assert xs[..|xs|] == xs;
  }

  /** Deduplication loses no id: the kept listings carry exactly the ids of
      the input. */
  lemma {:induction false} FirstByIdSameIds<Id>(xs: seq<Listing<Id>>)
    ensures IdSet(FirstById(xs)) == IdSet(xs)
  {
    if xs != [] {
      var init, x := xs[..|xs| - 1], xs[|xs| - 1];
      assert xs == init + [x];
      FirstByIdSameIds(init);
      IdSetAppend(init, x);
      IdSetAppend(FirstById(init), x);
    }
  }

  /** A list whose ids are already distinct comes through unchanged. */
  lemma {:induction false} FirstByIdOfDistinct<Id>(xs: seq<Listing<Id>>)
    requires DistinctIds(xs)
    ensures FirstById(xs) == xs
  {
    if xs != [] {
      var init, x := xs[..|xs| - 1], xs[|xs| - 1];
      assert xs == init + [x];
      FirstByIdOfDistinct(init);
      assert x.id !in IdSet(init);
    }
  }

  /** Deduplicating twice is deduplicating once. */
  lemma FirstByIdIdempotent<Id>(xs: seq<Listing<Id>>)
    ensures FirstById(FirstById(xs)) == FirstById(xs)
  {
    FirstByIdOfDistinct(FirstById(xs));
  }

  /** The positions of `xs` that deduplication keeps, in increasing order. */
  function KeptPositions<Id(==)>(xs: seq<Listing<Id>>): seq<nat> {
    if xs == [] then []
    else
      var init := xs[..|xs| - 1];
      if xs[|xs| - 1].id in IdSet(FirstById(init)) then KeptPositions(init)
      else KeptPositions(init) + [|xs| - 1]
  }

  /** The kept listings are the input's listings at strictly increasing
      positions. */
  lemma {:induction false} KeptPositionsSelect<Id>(xs: seq<Listing<Id>>)
    ensures |KeptPositions(xs)| == |FirstById(xs)|
    ensures forall k :: 0 <= k < |KeptPositions(xs)| ==>
      KeptPositions(xs)[k] < |xs| && FirstById(xs)[k] == xs[KeptPositions(xs)[k]]
    ensures forall k, l :: 0 <= k < l < |KeptPositions(xs)| ==> KeptPositions(xs)[k] < KeptPositions(xs)[l]
  {
    if xs != [] {
      var init, x := xs[..|xs| - 1], xs[|xs| - 1];
      KeptPositionsSelect(init);
      assert forall i | 0 <= i < |init| :: xs[i] == init[i];
    }
  }

  /** A position is kept exactly when it holds the first occurrence of its id. */
  lemma {:induction false} KeptPositionsAreFirstOccurrences<Id>(xs: seq<Listing<Id>>)
    ensures forall i :: 0 <= i < |xs| ==> (i in KeptPositions(xs) <==> IsFirstOccurrence(xs, i))
  {
    if xs != [] {
      var init, x := xs[..|xs| - 1], xs[|xs| - 1];
      var n := |init|;
      KeptPositionsAreFirstOccurrences(init);
      KeptPositionsSelect(init);
      FirstByIdSameIds(init);
      assert forall i | 0 <= i < n :: xs[i] == init[i];
      assert forall i | 0 <= i < n :: IsFirstOccurrence(xs, i) == IsFirstOccurrence(init, i);
      if x.id in IdSet(init) {
        var j :| 0 <= j < n && init[j].id == x.id;
        assert !IsFirstOccurrence(xs, n);
      } else {
        assert forall j | 0 <= j < n :: init[j].id in IdSet(init);
        assert IsFirstOccurrence(xs, n);
      }
    }
  }

  /** Deduplication keeps the first occurrence of each id and nothing else, in
      the input's order: the kept listings are the input's listings at strictly
      increasing positions, each a first occurrence of its id, and every first
      occurrence is among them. */
  lemma FirstByIdKeepsFirstOccurrences<Id>(xs: seq<Listing<Id>>)
    ensures |KeptPositions(xs)| == |FirstById(xs)|
    ensures forall k :: 0 <= k < |KeptPositions(xs)| ==>
      KeptPositions(xs)[k] < |xs| && FirstById(xs)[k] == xs[KeptPositions(xs)[k]] &&
      IsFirstOccurrence(xs, KeptPositions(xs)[k])
    ensures forall k, l :: 0 <= k < l < |KeptPositions(xs)| ==> KeptPositions(xs)[k] < KeptPositions(xs)[l]
    ensures forall i :: 0 <= i < |xs| && IsFirstOccurrence(xs, i) ==> i in KeptPositions(xs)
  {
    KeptPositionsSelect(xs);
    KeptPositionsAreFirstOccurrences(xs);
    var P := KeptPositions(xs);
    forall k | 0 <= k < |P| ensures IsFirstOccurrence(xs, P[k]) {
      assert P[k] in P;
    }
  }

  /** The record `fetchProducts` builds from one listing. */
  function ToProduct<Id>(l: Listing<Id>, idText: Id -> string): Product {
    Product(l.name, l.imgUrl, PriceSign + l.price, ItemLinkPrefix + idText(l.id), l.sold)
  }

  /** The item id a product link points at, when the link has the item-page form. */
  function LinkedItem(link: string): (id: Option<string>)
    ensures id.Some? ==> link == ItemLinkPrefix + id.value
  {
    if |ItemLinkPrefix| <= |link| && link[..|ItemLinkPrefix|] == ItemLinkPrefix
    then Some(link[|ItemLinkPrefix|..]) else None
  }

  /** The price text behind a shown price, when it starts with the yen sign. */
  function ShownPrice(price: string): (amount: Option<string>)
    ensures amount.Some? ==> price == PriceSign + amount.value
  {
    if |PriceSign| <= |price| && price[..|PriceSign|] == PriceSign
    then Some(price[|PriceSign|..]) else None
  }

  /** `.map(product => ({...}))`: one record per listing, in the same order.
      Each record keeps the listing's name, image and sold count, its link
      leads back to the listing's id and its price back to the listing's
      price. */
  function ProjectAll<Id>(ls: seq<Listing<Id>>, idText: Id -> string): (ps: seq<Product>)
    ensures |ps| == |ls|
    ensures forall i :: 0 <= i < |ls| ==>
      ps[i].title == ls[i].name && ps[i].image == ls[i].imgUrl && ps[i].sold == ls[i].sold &&
      LinkedItem(ps[i].link) == Some(idText(ls[i].id)) &&
      ShownPrice(ps[i].price) == Some(ls[i].price)
  {
    seq(|ls|, i requires 0 <= i < |ls| => ToProduct(ls[i], idText))
  }

  /** When the id's text determines the id, listings with distinct ids become
      products with distinct links. */
  lemma DistinctLinks<Id>(ls: seq<Listing<Id>>, idText: Id -> string)
    requires DistinctIds(ls)
    requires forall a: Id, b: Id :: idText(a) == idText(b) ==> a == b
    ensures forall i, j :: 0 <= i < j < |ls| ==> ProjectAll(ls, idText)[i].link != ProjectAll(ls, idText)[j].link
  {
    var ps := ProjectAll(ls, idText);
    forall i, j | 0 <= i < j < |ls| ensures ps[i].link != ps[j].link {
      assert ls[i].id != ls[j].id;
      assert LinkedItem(ps[i].link) == Some(idText(ls[i].id));
      assert LinkedItem(ps[j].link) == Some(idText(ls[j].id));
    }
  }

  /** The whole pipeline: the products `fetchProducts` stores for the fetched
      pages. */
  function Pipeline<Id(==)>(pages: seq<seq<Listing<Id>>>, idText: Id -> string): seq<Product> {
    ProjectAll(FirstById(Flatten(pages)), idText)
  }

  /** What the pipeline stores: no more products than listings fetched,
      exactly one product per distinct id fetched, and, when the id's text determines the id, no two
      products with the same link. */
  lemma PipelineStoresEachIdOnce<Id>(pages: seq<seq<Listing<Id>>>, idText: Id -> string)
    ensures |Pipeline(pages, idText)| <= |Flatten(pages)|
    ensures |Pipeline(pages, idText)| == |IdSet(Flatten(pages))|
    ensures (forall a: Id, b: Id :: idText(a) == idText(b) ==> a == b) ==>
      forall i, j :: 0 <= i < j < |Pipeline(pages, idText)| ==>
        Pipeline(pages, idText)[i].link != Pipeline(pages, idText)[j].link
  {
    var kept := FirstById(Flatten(pages));
    FirstByIdSameIds(Flatten(pages));
    DistinctIdsCount(kept);
    if forall a: Id, b: Id :: idText(a) == idText(b) ==> a == b {
      DistinctLinks(kept, idText);
    }
  }

  /** A list with distinct ids has as many ids as listings. */
  lemma {:induction false} DistinctIdsCount<Id>(xs: seq<Listing<Id>>)
    requires DistinctIds(xs)
    ensures |IdSet(xs)| == |xs|
  {
    if xs != [] {
      var init, x := xs[..|xs| - 1], xs[|xs| - 1];
      assert xs == init + [x];
      DistinctIdsCount(init);
      IdSetAppend(init, x);
      assert x.id !in IdSet(init);
    }
  }
}
