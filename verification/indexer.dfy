/**
 The indexer, seen from the import: an append-only trace of the calls the
 import makes to it. Each call either logs an event for one entity of one
 kind, or asks the indexer to process every logged event of a kind. What
 the indexer does with them is the platform's business.
 */
module Indexer {

  datatype Entity = StockItem | Product

  datatype EventType = Save | Remove

  datatype Action =
    | LogEvent(entity: Entity, eventType: EventType, productId: nat)
    | IndexEvents(entity: Entity, eventType: EventType)

  type Trace = seq<Action>

  /** A product of the catalog, as the SKU filter sees it. */
  datatype CatalogProduct = CatalogProduct(id: nat, sku: string)

  /**
   The products whose SKU is one of `skus`, in catalog order. A SKU that is
   not in the catalog selects nothing. Matching is exact string membership.
   */
  function ProductsWithSkus(catalog: seq<CatalogProduct>, skus: set<string>): (r: seq<CatalogProduct>)
    ensures forall p :: p in r <==> p in catalog && p.sku in skus
    ensures |r| <= |catalog|
  {
    if |catalog| == 0 then []
    else
      var rest := ProductsWithSkus(catalog[1..], skus);
      assert forall p :: p in catalog <==> p == catalog[0] || p in catalog[1..];
      if catalog[0].sku in skus then [catalog[0]] + rest else rest
  }

  /** The filter keeps catalog order: filtering a concatenation concatenates the filtered parts. */
  lemma {:induction false} ProductsWithSkusAppend(a: seq<CatalogProduct>, b: seq<CatalogProduct>, skus: set<string>)
    ensures ProductsWithSkus(a + b, skus) == ProductsWithSkus(a, skus) + ProductsWithSkus(b, skus)
    decreases |a|
  {
    if |a| == 0 {
      assert a + b == b;
    } else {
      assert (a + b)[0] == a[0];
      assert (a + b)[1..] == a[1..] + b;
      ProductsWithSkusAppend(a[1..], b, skus);
    }
  }

  /**
   Logging save events for products: for each product in turn, first its
   stock item, then the product itself.
   */
  function LogSaveEvents(products: seq<CatalogProduct>): (t: Trace)
    ensures |t| == 2 * |products|
    ensures forall k :: 0 <= k < |products| ==>
              && t[2 * k] == LogEvent(StockItem, Save, products[k].id)
              && t[2 * k + 1] == LogEvent(Product, Save, products[k].id)
  {
    if |products| == 0 then []
    else
      var p := products[|products| - 1];
      LogSaveEvents(products[..|products| - 1])
        + [LogEvent(StockItem, Save, p.id), LogEvent(Product, Save, p.id)]
  }

  /** Processing the logged save events: stock items first, then products. */
  const IndexSaveEvents: Trace := [IndexEvents(StockItem, Save), IndexEvents(Product, Save)]

  /**
   `t` is `before` followed by the save run for `products`: a stock item
   save and a product save logged per product, in order, then the requests
   to process stock item saves and then product saves.
   */
  predicate SaveRunAfter(before: Trace, t: Trace, products: seq<CatalogProduct>)
  {
    var n := |before|;
    && |t| == n + 2 * |products| + 2
    && t[..n] == before
    && (forall k :: 0 <= k < |products| ==>
          && t[n + 2 * k] == LogEvent(StockItem, Save, products[k].id)
          && t[n + 2 * k + 1] == LogEvent(Product, Save, products[k].id))
    && t[n + 2 * |products|] == IndexEvents(StockItem, Save)
    && t[n + 2 * |products| + 1] == IndexEvents(Product, Save)
  }

  /** Appending the logged saves and the processing requests is a save run. */
  lemma SaveRunPositions(before: Trace, products: seq<CatalogProduct>)
    ensures SaveRunAfter(before, before + LogSaveEvents(products) + IndexSaveEvents, products)
  {
    var log := LogSaveEvents(products);
    var t := before + log + IndexSaveEvents;
    forall k | 0 <= k < |products|
      ensures t[|before| + 2 * k] == log[2 * k] && t[|before| + 2 * k + 1] == log[2 * k + 1]
    {
    }
  }

  /** Logging a delete event for each product, in order. */
  function LogDeleteEvents(products: seq<CatalogProduct>): (t: Trace)
    ensures |t| == |products|
    ensures forall k :: 0 <= k < |products| ==> t[k] == LogEvent(Product, Remove, products[k].id)
  {
    if |products| == 0 then []
    else LogDeleteEvents(products[..|products| - 1]) + [LogEvent(Product, Remove, products[|products| - 1].id)]
  }

  /** Processing the logged product delete events. */
  const IndexDeleteEvents: Trace := [IndexEvents(Product, Remove)]

  /** True of a trace that holds no action of the given event type. */
  predicate FreeOf(t: Trace, e: EventType)
  {
    forall k :: 0 <= k < |t| ==> t[k].eventType != e
  }
}
