/**
 The product import entity as this override sees it: the state the
 overridden and added members read and write, and those members as
 functions from one state to the next. Everything the base import owns
 (row validation, persistence, the SKUs it created or updated) is an input
 held in the state.
 */
module ProductImport {
  import opened Wrappers
  import opened Behaviors
  import opened Indexer
  import DeletedSkus
  import CategoryIndex

  const BehaviorParameter: string := "behavior"

  datatype ImportEntity = ImportEntity(
    source: DeletedSkus.Source,
    dataValidated: bool,
    parameters: map<string, string>,
    defaultBehavior: string,                 // the text the base import reports when no behaviour was set
    validatedRows: seq<DeletedSkus.RowMark>,
    newSkus: set<string>,                    // the SKUs the base import created or updated
    categories: CategoryIndex.Index,
    indexer: Trace)

  /** Installs an in-memory source; whatever was validated before has to be validated again. */
  function SetArraySource(e: ImportEntity, source: DeletedSkus.Source): (r: ImportEntity)
    ensures r.source == source && !r.dataValidated
    ensures r.(source := e.source, dataValidated := e.dataValidated) == e
  {
    e.(source := source, dataValidated := false)
  }

  /** The behaviour text the import runs with: the parameter when set, otherwise the default. */
  function BehaviorText(e: ImportEntity): string
  {
    if BehaviorParameter in e.parameters then e.parameters[BehaviorParameter] else e.defaultBehavior
  }

  /**
   The behaviour the import runs with, classified from its text: whether
   the text was set as a parameter or is the default, `append` is always
   `Append`, and so on.
   */
  function GetBehavior(e: ImportEntity): (b: Behavior)
    ensures WellFormed(b)
    ensures BehaviorName(b) == BehaviorText(e)
  {
    ParseBehavior(BehaviorText(e))
  }

  /** Sets the behaviour parameter, and nothing else; the import then runs with that behaviour. */
  function SetBehavior(e: ImportEntity, behavior: string): (r: ImportEntity)
    ensures r.parameters.Keys == e.parameters.Keys + {BehaviorParameter}
    ensures r.parameters[BehaviorParameter] == behavior
    ensures forall k :: k in e.parameters && k != BehaviorParameter ==> r.parameters[k] == e.parameters[k]
    ensures r.(parameters := e.parameters) == e
    ensures GetBehavior(r) == ParseBehavior(behavior)
    ensures BehaviorName(GetBehavior(r)) == behavior
  {
    e.(parameters := e.parameters[BehaviorParameter := behavior])
  }

  /** Builds the category index over the collection; only the index changes. */
  function InitCategories(e: ImportEntity, cats: seq<CategoryIndex.Category>, names: CategoryIndex.Names): (r: ImportEntity)
    requires CategoryIndex.AllResolvable(cats, names)
    ensures r.(categories := e.categories) == e
    ensures forall k :: k in e.categories ==> k in r.categories
    ensures forall k :: k in r.categories && k !in e.categories ==>
              exists i :: 0 <= i < |cats| && CategoryIndex.Writes(cats[i], names, k)
  {
    var index := CategoryIndex.InitCategories(e.categories, cats, names);
    assert forall k :: k in e.categories ==> k in index by {
      forall k | k in e.categories {
        CategoryIndex.InitCategoriesKeys(e.categories, cats, names, k);
      }
    }
    assert forall k :: k in index && k !in e.categories ==> CategoryIndex.WrittenBy(cats, names, k) by {
      forall k | k in index && k !in e.categories {
        CategoryIndex.InitCategoriesKeys(e.categories, cats, names, k);
      }
    }
    e.(categories := index)
  }

  /** The SKUs the filter matches on; the model takes a missing (`null`) SKU to match no product. */
  function PresentSkus(skus: seq<Option<string>>): (r: set<string>)
    ensures forall s :: s in r <==> Some(s) in skus
  {
    set k | 0 <= k < |skus| && skus[k].Some? :: skus[k].value
  }

  /** The catalog products a delete import is about to remove. */
  function DeletedProducts(e: ImportEntity, catalog: seq<CatalogProduct>): seq<CatalogProduct>
    requires DeletedSkus.Seekable(e.validatedRows, e.source)
  {
    ProductsWithSkus(catalog, PresentSkus(DeletedSkus.GetDeletedSkus(e.validatedRows, e.source)))
  }

  /** The catalog products a replace or append import created or updated. */
  function UpdatedProducts(e: ImportEntity, catalog: seq<CatalogProduct>): seq<CatalogProduct>
  {
    ProductsWithSkus(catalog, e.newSkus)
  }

  /**
   Before a delete import removes its products, logs a delete event for
   each of them; under any other behaviour it does nothing.
   */
  function PrepareDeletedProductsReindex(e: ImportEntity, catalog: seq<CatalogProduct>): (r: ImportEntity)
    requires GetBehavior(e) == Delete ==> DeletedSkus.Seekable(e.validatedRows, e.source)
    ensures r.(indexer := e.indexer) == e
    ensures GetBehavior(e) != Delete ==> r == e
    ensures GetBehavior(e) == Delete ==>
              var ps := DeletedProducts(e, catalog);
              && |r.indexer| == |e.indexer| + |ps|
              && r.indexer[..|e.indexer|] == e.indexer
              && forall k :: 0 <= k < |ps| ==> r.indexer[|e.indexer| + k] == LogEvent(Product, Remove, ps[k].id)
  {
    if GetBehavior(e) != Delete then e
    else e.(indexer := e.indexer + LogDeleteEvents(DeletedProducts(e, catalog)))
  }

  /** Calls the indexer for the products the import touched, by behaviour. */
  function ReindexImportedProducts(e: ImportEntity, catalog: seq<CatalogProduct>): (r: ImportEntity)
    ensures r.(indexer := e.indexer) == e
    ensures |r.indexer| >= |e.indexer| && r.indexer[..|e.indexer|] == e.indexer
    ensures GetBehavior(e) == Delete ==> r.indexer[|e.indexer|..] == [IndexEvents(Product, Remove)]
    ensures GetBehavior(e) in {Append, Replace} ==> r == ReindexUpdatedProducts(e, catalog)
    ensures GetBehavior(e).Other? ==> r == e
  {
    match GetBehavior(e)
    case Delete => e.(indexer := e.indexer + IndexDeleteEvents)
    case Replace => ReindexUpdatedProducts(e, catalog)
    case Append => ReindexUpdatedProducts(e, catalog)
    case Other(_) => e
  }

  /**
   Logs save events for every updated product -- its stock item, then the
   product -- and then has stock item saves processed, then product saves.
   */
  function ReindexUpdatedProducts(e: ImportEntity, catalog: seq<CatalogProduct>): (r: ImportEntity)
    ensures r.(indexer := e.indexer) == e
    ensures SaveRunAfter(e.indexer, r.indexer, UpdatedProducts(e, catalog))
  {
    SaveRunPositions(e.indexer, UpdatedProducts(e, catalog));
    e.(indexer := e.indexer + LogSaveEvents(UpdatedProducts(e, catalog)) + IndexSaveEvents)
  }

  /**
   A reindex adds indexer calls of one event type only: save events for
   append and replace, delete events for delete, none otherwise. Save
   events are processed exactly when the behaviour text is `append` or
   `replace`.
   */
  lemma ReindexEventKinds(e: ImportEntity, catalog: seq<CatalogProduct>)
    ensures var added := ReindexImportedProducts(e, catalog).indexer[|e.indexer|..];
            && (GetBehavior(e) in {Append, Replace} ==> FreeOf(added, Remove))
            && (GetBehavior(e) == Delete ==> FreeOf(added, Save))
            && (GetBehavior(e).Other? ==> added == [])
            && (IndexEvents(StockItem, Save) in added <==> GetBehavior(e) in {Append, Replace})
            && (IndexEvents(StockItem, Save) in added <==> BehaviorText(e) in {AppendName, ReplaceName})
  {
    var added := ReindexImportedProducts(e, catalog).indexer[|e.indexer|..];
    match GetBehavior(e)
    case Append =>
      UpdatedAdds(e, catalog);
    case Replace =>
      UpdatedAdds(e, catalog);
    case Delete =>
      assert added == IndexDeleteEvents;
    case Other(_) =>
      assert added == [];
  }

  /** What append and replace add: save events only, with stock item saves processed. */
  lemma UpdatedAdds(e: ImportEntity, catalog: seq<CatalogProduct>)
    ensures var added := ReindexUpdatedProducts(e, catalog).indexer[|e.indexer|..];
            FreeOf(added, Remove) && IndexEvents(StockItem, Save) in added
  {
    var s := LogSaveEvents(UpdatedProducts(e, catalog)) + IndexSaveEvents;
    assert ReindexUpdatedProducts(e, catalog).indexer[|e.indexer|..] == s;
    SaveRunAdds(UpdatedProducts(e, catalog));
  }

  /** A save run -- the logged saves, then the processing requests -- holds no delete event. */
  lemma SaveRunAdds(ps: seq<CatalogProduct>)
    ensures var s := LogSaveEvents(ps) + IndexSaveEvents;
            FreeOf(s, Remove) && IndexEvents(StockItem, Save) in s
  {
    var t := LogSaveEvents(ps);
    var s := t + IndexSaveEvents;
    LogSaveEventsAreSaves(ps);
    assert s[|t|] == IndexEvents(StockItem, Save);
    forall k | 0 <= k < |s|
      ensures s[k].eventType != Remove
    {
      if k < |t| {
        assert s[k] == t[k];
      }
    }
  }

  /** Every event logged for updated products is a save event. */
  lemma LogSaveEventsAreSaves(ps: seq<CatalogProduct>)
    ensures FreeOf(LogSaveEvents(ps), Remove)
  {
    var t := LogSaveEvents(ps);
    forall k | 0 <= k < |t|
      ensures t[k].eventType != Remove
    {
      var q := k / 2;
      assert k == 2 * q || k == 2 * q + 1;
      assert t[2 * q].eventType == Save && t[2 * q + 1].eventType == Save;
    }
  }

  /**
   A delete run: events are logged before the products go and processed
   after, so every delete event logged for the run comes before the single
   request to process them, which ends the trace.
   */
  lemma DeleteRunOrdering(e: ImportEntity, catalog: seq<CatalogProduct>)
    requires GetBehavior(e) == Delete && DeletedSkus.Seekable(e.validatedRows, e.source)
    ensures var r := ReindexImportedProducts(PrepareDeletedProductsReindex(e, catalog), catalog);
            var ps := DeletedProducts(e, catalog);
            var n := |e.indexer|;
            && |r.indexer| == n + |ps| + 1
            && r.indexer[..n] == e.indexer
            && (forall k :: 0 <= k < |ps| ==> r.indexer[n + k] == LogEvent(Product, Remove, ps[k].id))
            && r.indexer[n + |ps|] == IndexEvents(Product, Remove)
  {
    var p := PrepareDeletedProductsReindex(e, catalog);
    assert GetBehavior(p) == Delete;
    var r := ReindexImportedProducts(p, catalog);
    assert r.indexer == p.indexer + [IndexEvents(Product, Remove)];
  }
}
