# Fast simple import: product entity overrides, modelled in Dafny

This project models the product import entity of the AvS FastSimpleImport
extension: the class that extends the platform's product import to take an
in-memory array as its source, to set the import behaviour directly, to
build the category text-path to id index, and to re-index exactly the
products an import run created, updated or deleted.

The core is the category index (`CategoryIndex`). Every category has an id
and an id path such as `1/2/5/7`; the names along the path are looked up by
id in the same collection. A category whose path has at most
two segments (the tree root, the store roots) adds nothing. Every other
category writes its id under four keys: the empty string (the import joins
an empty array before it collects any names, so every qualifying category
overwrites this key), the names of path segments 1 to the end joined with
`/`, the same names without the first one (a path starting below the store
root), and its own id. Keys are strings throughout: PHP keeps an array key
that is the canonical decimal text of an integer as that integer, so the id
`7` and a name path `"7"` are one key; `Decimal` models that text.

The smaller pieces: `DeletedSkus` collects the SKU of every row whose
validated flag the base import set, in flag order; `Behaviors` classifies
the behaviour parameter; `Indexer` is the indexer as an append-only trace of "log an
event" and "process events" calls; `ProductImport` holds the entity state
and the overridden members as functions from one state to the next.

Modules: `Wrappers` (Option), `Strings` (explode/implode), `Decimal`,
`IndexFold` (writing a run of key sets into an index), `CategoryIndex`,
`DeletedSkus`, `Behaviors`, `Indexer`, `ProductImport`.

## Model

| member | source | states |
|---|---|---|
| Strings.Split | src/app/code/community/AvS/FastSimpleImport/Model/Import/Entity/Product.php:46 | exploding a path gives one more piece than there are separators, no piece holds a separator, and imploding the pieces gives the path back |
| Strings.SplitJoin | src/app/code/community/AvS/FastSimpleImport/Model/Import/Entity/Product.php:46 | exploding an implode of separator-free parts gives the parts back (the other half of the round trip) |
| Strings.Join | src/app/code/community/AvS/FastSimpleImport/Model/Import/Entity/Product.php:50-58 | implode puts exactly one separator between each two separator-free parts and starts with the first part; with Split it round-trips both ways |
| Decimal.Format | src/app/code/community/AvS/FastSimpleImport/Model/Import/Entity/Product.php:59 | the key an id takes is canonical decimal text, starting with `0` only for id 0 |
| Decimal.Parse | src/app/code/community/AvS/FastSimpleImport/Model/Import/Entity/Product.php:52 | a path segment is read as an integer id exactly when it is canonical decimal text; finding the item also needs the collection to hold that id (`CategoryIndex.Resolves`) |
| Decimal.ParseFormat | src/app/code/community/AvS/FastSimpleImport/Model/Import/Entity/Product.php:52 | parsing the key of an id gives that id |
| Decimal.FormatParse | src/app/code/community/AvS/FastSimpleImport/Model/Import/Entity/Product.php:52 | formatting a parsed segment gives the segment back, so no other text reaches an id |
| Decimal.FormatInjective | src/app/code/community/AvS/FastSimpleImport/Model/Import/Entity/Product.php:59 | two categories share an id key exactly when their ids are equal |
| CategoryIndex.Qualifies | src/app/code/community/AvS/FastSimpleImport/Model/Import/Entity/Product.php:46-48 | a category takes part exactly when its path holds at least two `/` |
| CategoryIndex.NamesOf | src/app/code/community/AvS/FastSimpleImport/Model/Import/Entity/Product.php:51-53 | the collected names are, position by position, the names of the categories the segments refer to |
| CategoryIndex.CollectNames | src/app/code/community/AvS/FastSimpleImport/Model/Import/Entity/Product.php:51-53 | the inner loop collects the names of segments 1 to the end, in order |
| CategoryIndex.AddOneCategory | src/app/code/community/AvS/FastSimpleImport/Model/Import/Entity/Product.php:46-60 | one loop iteration, run statement by statement (empty key, name collection, full path, first name dropped, store path, id), does what AddCategory does |
| CategoryIndex.FullPathExtendsStorePath | src/app/code/community/AvS/FastSimpleImport/Model/Import/Entity/Product.php:56-58 | dropping the first name leaves the path below the store root: the full path is the store root's name, `/`, then that path |
| CategoryIndex.AddCategory | src/app/code/community/AvS/FastSimpleImport/Model/Import/Entity/Product.php:46-60 | the four updates in a row amount to setting every key the category writes (empty key, both name paths, id) to its id at once; a category that does not qualify changes nothing |
| CategoryIndex.BuildCategoryIndex | src/app/code/community/AvS/FastSimpleImport/Model/Import/Entity/Product.php:45-61 | the loop over the collection builds the same index as applying the categories' writes one after the other |
| CategoryIndex.InitCategories | src/app/code/community/AvS/FastSimpleImport/Model/Import/Entity/Product.php:45-61 | building the index never removes an entry that was there before |
| CategoryIndex.InitCategoriesFold | src/app/code/community/AvS/FastSimpleImport/Model/Import/Entity/Product.php:45-61 | the index is the categories' writes applied in iteration order, each overwriting earlier values of its keys |
| CategoryIndex.InitCategoriesConcat | src/app/code/community/AvS/FastSimpleImport/Model/Import/Entity/Product.php:45-61 | building over two runs of categories is building over the first, then carrying on over the second from that index |
| CategoryIndex.SkippedCategoryAddsNothing | src/app/code/community/AvS/FastSimpleImport/Model/Import/Entity/Product.php:46-48 | a category with at most two path segments, wherever it stands in the collection, leaves the index as if it were absent |
| CategoryIndex.InitCategoriesKeys | src/app/code/community/AvS/FastSimpleImport/Model/Import/Entity/Product.php:45-61 | a key is in the result exactly when it was there before or some category writes it |
| CategoryIndex.InitCategoriesLastWriter | src/app/code/community/AvS/FastSimpleImport/Model/Import/Entity/Product.php:50-59 | on a collision the later category wins: a key maps to the id of the last category writing it |
| CategoryIndex.InitCategoriesUnwritten | src/app/code/community/AvS/FastSimpleImport/Model/Import/Entity/Product.php:45-61 | entries no category writes keep their value, and no other key appears |
| CategoryIndex.InitCategoriesValues | src/app/code/community/AvS/FastSimpleImport/Model/Import/Entity/Product.php:45-61 | every value is the earlier value of an unwritten key or the id of a qualifying category writing that key |
| CategoryIndex.EmptyKeyIsLastQualifying | src/app/code/community/AvS/FastSimpleImport/Model/Import/Entity/Product.php:49-50 | the empty key maps to the id of the last qualifying category |
| CategoryIndex.NamePathLookup | src/app/code/community/AvS/FastSimpleImport/Model/Import/Entity/Product.php:51-58 | the full name path and the name path below the store root each map to the category's id unless a later category writes that key |
| CategoryIndex.IdKeyLookup | src/app/code/community/AvS/FastSimpleImport/Model/Import/Entity/Product.php:59 | the category's own id, as a key, maps to that id unless a later category writes it |
| ProductImport.InitCategories | src/app/code/community/AvS/FastSimpleImport/Model/Import/Entity/Product.php:41-63 | only the category index changes; no entry is removed and every new key is written by some category |
| DeletedSkus.GetDeletedSkus | src/app/code/community/AvS/FastSimpleImport/Model/Import/Entity/Product.php:94-104 | one SKU per row whose validated flag is set, in flag order: the row with `i` set flags before it lands at position `i` |
| DeletedSkus.CollectDeletedSkus | src/app/code/community/AvS/FastSimpleImport/Model/Import/Entity/Product.php:96-103 | the skip-and-seek loop yields that SKU list |
| DeletedSkus.RankInverse | src/app/code/community/AvS/FastSimpleImport/Model/Import/Entity/Product.php:97-101 | every position of the SKU list comes from some row whose flag is set |
| DeletedSkus.DeletedSkusMembership | src/app/code/community/AvS/FastSimpleImport/Model/Import/Entity/Product.php:96-103 | a SKU is listed exactly when some row whose flag is set carries it |
| Behaviors.ParseBehavior | src/app/code/community/AvS/FastSimpleImport/Model/Import/Entity/Product.php:113-120 | each known behaviour is recognised by exactly its name, and the parameter text survives classification |
| Behaviors.ParseOfName | src/app/code/community/AvS/FastSimpleImport/Model/Import/Entity/Product.php:113-120 | classifying a behaviour's name gives the behaviour back |
| Indexer.ProductsWithSkus | src/app/code/community/AvS/FastSimpleImport/Model/Import/Entity/Product.php:76-78 | the filter keeps exactly the catalog products whose SKU is requested |
| Indexer.ProductsWithSkusAppend | src/app/code/community/AvS/FastSimpleImport/Model/Import/Entity/Product.php:76-78 | the filter keeps catalog order: filtering a concatenation concatenates the filtered parts |
| Indexer.LogSaveEvents | src/app/code/community/AvS/FastSimpleImport/Model/Import/Entity/Product.php:155-176 | two save events per product, the stock item's before the product's, products in order |
| Indexer.LogDeleteEvents | src/app/code/community/AvS/FastSimpleImport/Model/Import/Entity/Product.php:199-206 | one product delete event per product, in order |
| ProductImport.SetArraySource | src/app/code/community/AvS/FastSimpleImport/Model/Import/Entity/Product.php:18-24 | the source is replaced, validation is reset, nothing else changes |
| ProductImport.SetBehavior | src/app/code/community/AvS/FastSimpleImport/Model/Import/Entity/Product.php:31-34 | only the behaviour parameter changes, and the import then runs with that behaviour |
| ProductImport.PresentSkus | src/app/code/community/AvS/FastSimpleImport/Model/Import/Entity/Product.php:76-78 | the filter matches the SKUs that are present; a missing SKU matches nothing |
| ProductImport.PrepareDeletedProductsReindex | src/app/code/community/AvS/FastSimpleImport/Model/Import/Entity/Product.php:70-87 | nothing happens unless the behaviour is delete; then one delete event per product to be deleted is appended, in order |
| ProductImport.ReindexImportedProducts | src/app/code/community/AvS/FastSimpleImport/Model/Import/Entity/Product.php:111-125 | delete appends only the request to process product delete events (`IndexDeleteEvents`, lines 214-219); append and replace run ReindexUpdatedProducts; any other behaviour changes nothing |
| ProductImport.ReindexUpdatedProducts | src/app/code/community/AvS/FastSimpleImport/Model/Import/Entity/Product.php:132-148 | appends, per updated product, a stock item save then a product save, then the requests to process stock item saves and then product saves (`IndexSaveEvents`, lines 181-192); nothing else changes |
| ProductImport.GetBehavior | src/app/code/community/AvS/FastSimpleImport/Model/Import/Entity/Product.php:72 | the behaviour is classified from its text, whether that text is the parameter or the default, so `append` is always `Append` and an `Other` never carries a known name |
| ProductImport.ReindexEventKinds | src/app/code/community/AvS/FastSimpleImport/Model/Import/Entity/Product.php:113-124 | a reindex adds events of one event type only, and processes saves exactly when the behaviour text is `append` or `replace` |
| ProductImport.DeleteRunOrdering | src/app/code/community/AvS/FastSimpleImport/Model/Import/Entity/Product.php:72-84 | in a delete run every delete event is logged before the single request to process them, which ends the trace |

## Left out

- Loading the category and product collections from the database is not modelled: the categories, the id-to-name map and the catalog are inputs, and the catalog's order stands for the database's.
- A path segment that names no category of the collection makes the platform call `getName()` on `null`, a fatal error; `CategoryIndex.Resolvable` is a precondition instead.
- Category ids are modelled as `nat`; the platform hands them over as decimal strings, which PHP stores as the same integer keys.
- Reading the behaviour (`getBehavior`) belongs to the base import, which is not part of this model: the behaviour text is the `behavior` parameter when set and otherwise a default text held in the state, and both are classified the same way. Any normalisation the base applies is not modelled.
- The text of the behaviour constants (`append`, `replace`, `delete`) is the platform's; those values are assumed.
- The base import's row validation, persistence and the set of created or updated SKUs are inputs (`validatedRows`, `newSkus`). What a set validated flag means belongs to the base import, which is not part of this model; the model only collects the SKUs of rows whose flag is set, whatever the flag records. The SKU list keys become integers in PHP when a SKU is numeric text; that conversion is not modelled.
- Seeking the source is a map lookup; a seek past the end throws in the platform, so `DeletedSkus.Seekable` is a precondition.
- The indexer's event log and processing, stock-item loading and the reindex flags set on product and stock-item objects are platform code; the indexer is an opaque trace of calls.
- Fluent `return $this` results are not modelled.
- Indexer.ProductsWithSkus: the SKU filter is a database query; the model takes it as exact, case-sensitive string membership in catalog order, whereas the database's collation may compare SKUs case-insensitively and decides the order.
- ProductImport.PresentSkus: a row without a SKU yields PHP `null`, which the database adapter may quote as an empty string; the model assumes such a SKU matches no product.
