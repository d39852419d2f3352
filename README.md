# Product management service: a Dafny model

This project models the core of a product catalogue service. The service keeps
Product records (id, name, description, price, stock quantity) in a table and
offers create, read, update, delete and filtered search. The model has three
layers, one per source file:

- **Repository** (`repository.dfy`). The product table is a value
  `Store(rows: map<int, Product>, nextId: int)` whose ids come from a counter.
  `ProductTable` is a class whose `Save` and `DeleteById` change `rows` and
  `nextId` in place. Each of these methods is tied to a pure function
  (`Persist`, `Remove`) of the old table. The derived queries are pure
  functions over the table: `FindById`, `FindAll`, `FindByName`,
  `FindByPriceLessThanEqual`, `FindLowStockProducts`, `ExistsByName`,
  `ExistsById`.
- **Service** (`service.dfy`). `ProductServiceImpl` is a class that holds the
  repository and the shared result cache `map<Key, Cached>`.
  - Its object invariant says every cache entry equals what its read would
    compute from the table now. Because of this, every read returns exactly the
    current table's answer, whether the entry was already cached or not.
  - Every successful mutation empties the cache.
  - A failed mutation changes neither the table nor the cache. The eviction runs
    only after the method returns normally, and an exception skips it.
  - `updateProduct` applies its conditional setters one by one, as the source
    does. `Merge` is the function that specifies the result.
  - `Create`, `Update` and `Delete` are the operations on table values. The
    lemmas about uniqueness, not-found and "nothing else changes" are stated
    over these functions.
- **Controller** (`controller.dfy`). Pure functions map each service outcome to
  a status (201 on create, 200 or 404 on get, 200 on update, 204 on delete).
  `SearchCall` picks the read that search performs: a maximum price beats a
  stock threshold, and with neither it lists all products. `Lifecycle` sends
  create, get, update, delete, get to a fresh service, and its contract gives the
  statuses 201, 200, 200, 204, 404. Its PUT body carries only a price; the real
  handler first runs Bean Validation on the body (`@Valid`), which this model
  leaves out, so the model's PUT applies such a partial body directly.

Modelling choices:

- Prices are integers in minor units (99.99 is 9999), so comparisons are exact.
- A product's `id` is `None` until the table assigns one.
- `save` of a record whose id is stored overwrites that row. Any other record is
  inserted under the next counter value. For a body that carries an id the table
  does not hold, what `save` does is up to the JPA provider (some insert under a
  generated id, others refuse the detached entity); the model picks the insert. `deleteById` keeps the counter, so an
  id is never handed out twice.
- `createProduct` passes the request body to `save` as it is. So a create
  request that carries the id of a stored row and a new name overwrites that
  row. The model keeps this behaviour: `CreateOverwritesStoredId` states it, and
  `CreateInsertsOne` states the insert-one-row property for a body whose id is
  absent or not stored (the tests send a body without an id).
- Lists (`findAll` and the two searches) come back in ascending id order. The
  database gives no order, and this model picks one. Every list holds each row
  once, and its length equals the number of matching rows.
- `findByName` returns a single result. In Spring Data, such a query fails when
  it matches more than one row. The model gives `Failure(NonUniqueResult)` in
  that case, and `getProductByName` does not cache the failure.
- Names are unique after create and after delete. Update does not check names,
  so it can break uniqueness (`UpdateCanDuplicateName`), and after that
  `findByName` of the shared name fails.
- The controller documents a 409 for a taken name
  (`ProductController.java:32`). The service throws `IllegalArgumentException`
  (`ProductServiceImpl.java:30`), and the exception handler that turns it into a
  status is not part of this model. The model reports `DuplicateName` and stops
  there.

## Model

| member | source | states |
|---|---|---|
| Repository.RowsFrom | src/main/java/com/example/demo/repository/ProductRepository.java:13-19 | the scan behind every list query: each returned row is stored and satisfies the filter, every stored matching row is returned, ids strictly ascend |
| Repository.RowsFromCount | src/main/java/com/example/demo/repository/ProductRepository.java:13-19 | a scan returns exactly one element per matching id (proved by induction over the id range) |
| Repository.RowsFromDistinct | src/main/java/com/example/demo/repository/ProductRepository.java:13-19 | no row appears twice in a scan |
| Repository.FindById | src/main/java/com/example/demo/repository/ProductRepository.java:13 | `findById` returns the stored row carrying the requested id, and empty only when no stored row has that id |
| Repository.FindAll | src/main/java/com/example/demo/repository/ProductRepository.java:13 | `findAll` returns every stored row, each once, and nothing else |
| Repository.FindByPriceLessThanEqual | src/main/java/com/example/demo/repository/ProductRepository.java:16 | exactly the stored rows with `price <= p` (bound included), each once |
| Repository.FindLowStockProducts | src/main/java/com/example/demo/repository/ProductRepository.java:18-19 | exactly the stored rows with `stockQuantity <= t` (bound included), each once |
| Repository.FindByName | src/main/java/com/example/demo/repository/ProductRepository.java:14 | empty iff no row has the name; otherwise a stored row with that name; an error iff two distinct rows share it |
| Repository.NamedRows | src/main/java/com/example/demo/repository/ProductRepository.java:14 | the number of rows with a name is zero iff `existsByName` is false, and at least two iff two distinct rows share the name |
| Repository.ExistsByNameAgreesWithFindByName | src/main/java/com/example/demo/repository/ProductRepository.java:14-21 | `existsByName(n)` holds iff `findByName(n)` is not empty |
| Repository.Persist | src/main/java/com/example/demo/repository/ProductRepository.java:13 | `save` keeps the table consistent, stores and returns the record with its fields unchanged, overwrites in place when the id is stored, and otherwise inserts under a fresh id that no row had; no other row changes |
| Repository.Remove | src/main/java/com/example/demo/repository/ProductRepository.java:13 | `deleteById` removes exactly that key, leaves every other row and the counter as they were, and `existsById` is false afterwards |
| Repository.SaveThenFindById | src/test/java/com/example/demo/repository/ProductRepositoryIntegrationTest.java:94-109 | a record saved without an id gets an id, and `findById` of it returns the record with the same name and price |
| Repository.SaveOverwritesInPlace | src/test/java/com/example/demo/repository/ProductRepositoryIntegrationTest.java:112-123 | saving a read row with a new price and stock overwrites that row, later reads see the new values, and the row count is unchanged |
| Repository.DeletedIdNotReused | src/main/java/com/example/demo/repository/ProductRepository.java:13 | an id freed by `deleteById` is not assigned by a later insert, whatever unstored id (or none) the inserted body carries |
| Repository.Empty | src/main/java/com/example/demo/repository/ProductRepository.java:12-13 | a fresh repository: consistent, no rows, and the id counter at 1 |
| Repository.ProductTable.constructor | src/main/java/com/example/demo/repository/ProductRepository.java:12-13 | a fresh repository is valid and equals `Empty()` |
| Repository.ProductTable.Save | src/main/java/com/example/demo/repository/ProductRepository.java:13 | the in-place `save` leaves the table and returns the record exactly as `Persist` of the old table says |
| Repository.ProductTable.DeleteById | src/main/java/com/example/demo/repository/ProductRepository.java:13 | the in-place `deleteById` leaves the table exactly as `Remove` of the old table says |
| Service.MergeFieldwise | src/main/java/com/example/demo/service/impl/ProductServiceImpl.java:71-83 | each of name, description, price and stockQuantity takes the patch value when given and keeps the stored value otherwise; the id never changes |
| Service.MergeNoChanges | src/main/java/com/example/demo/service/impl/ProductServiceImpl.java:71-83 | an all-null patch is a no-op on the record |
| Service.MergeIdempotent | src/main/java/com/example/demo/service/impl/ProductServiceImpl.java:71-83 | applying a patch twice equals applying it once |
| Service.CreateDuplicateFails | src/main/java/com/example/demo/service/impl/ProductServiceImpl.java:28-31 | creating with a name some row already has fails with DuplicateName (so nothing is saved) |
| Service.CreateInsertsOne | src/main/java/com/example/demo/service/impl/ProductServiceImpl.java:32 | creating with a free name and no stored id (absent, or one the table does not hold) inserts exactly one row under a fresh id, returns it with the given fields, and `findById` of its id returns it |
| Service.CreateOverwritesStoredId | src/main/java/com/example/demo/service/impl/ProductServiceImpl.java:32 | creating with a free name and a body carrying a stored id overwrites that row with the body; the row count and the counter are unchanged |
| Service.UpdateMissingFails | src/main/java/com/example/demo/service/impl/ProductServiceImpl.java:68-69 | updating a missing id fails with NotFound |
| Service.UpdateRewritesOnlyTarget | src/main/java/com/example/demo/service/impl/ProductServiceImpl.java:68-85 | updating a stored id replaces that one row by the merged record under the same id; no other row and not the counter change |
| Service.UpdateNoChangesKeepsTable | src/main/java/com/example/demo/service/impl/ProductServiceImpl.java:71-85 | an all-null patch leaves the table unchanged and returns the stored row |
| Service.DeleteMissingFails | src/main/java/com/example/demo/service/impl/ProductServiceImpl.java:91-93 | deleting a missing id fails with NotFound |
| Service.DeleteRemovesOne | src/main/java/com/example/demo/service/impl/ProductServiceImpl.java:94 | deleting a stored id removes exactly that row, one row fewer, and the id no longer exists |
| Service.CreateKeepsNamesUnique | src/main/java/com/example/demo/service/impl/ProductServiceImpl.java:28-32 | a successful create keeps names unique |
| Service.DeleteKeepsNamesUnique | src/main/java/com/example/demo/service/impl/ProductServiceImpl.java:90-95 | a successful delete keeps names unique |
| Service.UpdateCanDuplicateName | src/main/java/com/example/demo/service/impl/ProductServiceImpl.java:72-74 | renaming a row to another row's name succeeds, breaks uniqueness, and makes `findByName` of that name fail |
| Service.ProductServiceImpl.constructor | src/main/java/com/example/demo/service/impl/ProductServiceImpl.java:22-24 | the service starts with the given repository and an empty, hence coherent, cache |
| Service.ProductServiceImpl.ReadThrough | src/main/java/com/example/demo/service/impl/ProductServiceImpl.java:35-63 | a read returns the current table's answer; a cached key changes nothing; a miss stores the result under its own key; a failed read caches nothing |
| Service.ProductServiceImpl.CreateProduct | src/main/java/com/example/demo/service/impl/ProductServiceImpl.java:26-33 | a taken name returns DuplicateName with table and cache unchanged; otherwise the table becomes the saved one, the saved record is returned and the cache is emptied |
| Service.ProductServiceImpl.GetProductById | src/main/java/com/example/demo/service/impl/ProductServiceImpl.java:35-39 | returns `findById` of the current table and leaves it cached under the id |
| Service.ProductServiceImpl.GetAllProducts | src/main/java/com/example/demo/service/impl/ProductServiceImpl.java:41-45 | returns `findAll` of the current table and leaves it cached under the default key |
| Service.ProductServiceImpl.GetProductByName | src/main/java/com/example/demo/service/impl/ProductServiceImpl.java:47-51 | returns `findByName` of the current table; cached under the name key on success, cache unchanged on failure |
| Service.ProductServiceImpl.GetProductsByPriceLessThanEqual | src/main/java/com/example/demo/service/impl/ProductServiceImpl.java:53-57 | returns the current price query and leaves it cached under the price key |
| Service.ProductServiceImpl.GetLowStockProducts | src/main/java/com/example/demo/service/impl/ProductServiceImpl.java:59-63 | returns the current low-stock query and leaves it cached under the threshold key |
| Service.ProductServiceImpl.UpdateProduct | src/main/java/com/example/demo/service/impl/ProductServiceImpl.java:65-86 | a missing id returns NotFound with table and cache unchanged; otherwise the conditional setters give the merged record, which is saved and returned, and the cache is emptied |
| Service.ProductServiceImpl.DeleteProduct | src/main/java/com/example/demo/service/impl/ProductServiceImpl.java:88-95 | a missing id returns NotFound with table and cache unchanged; otherwise the row is deleted and the cache emptied |
| Service.ProductServiceImpl.ExistsByName | src/main/java/com/example/demo/service/impl/ProductServiceImpl.java:97-100 | true iff some stored row has the name; not cached |
| Service.NoStaleReadAfterCreate | src/main/java/com/example/demo/service/impl/ProductServiceImpl.java:26-57 | a price search cached as empty is not served after a create: the same search then returns the new product |
| Controller.PostAgainstTable | src/main/java/com/example/demo/controller/ProductController.java:34-36 | POST answers 201 exactly when no stored row has the name, returning the stored record with the request's fields; otherwise the error is DuplicateName |
| Controller.PutAgainstTable | src/main/java/com/example/demo/controller/ProductController.java:83-87 | PUT answers 200 exactly when the id is stored, returning the stored row merged with the patch under the same id; otherwise the error is NotFound |
| Controller.DeleteAgainstTable | src/main/java/com/example/demo/controller/ProductController.java:95-99 | DELETE answers 204 with no body exactly when the id is stored; otherwise the error is NotFound |
| Controller.GetByIdStatus | src/main/java/com/example/demo/controller/ProductController.java:44-49 | get-by-id answers 200 with the row iff the table holds the id, and 404 otherwise |
| Controller.SearchSemantics | src/main/java/com/example/demo/controller/ProductController.java:61-74 | with a maximum price, search answers exactly the rows at or below it whatever the threshold; with only a threshold, the same answer as the low-stock read, exactly the rows at or below the threshold; with neither, the same as listing all products |
| Controller.Lifecycle | src/main/java/com/example/demo/controller/ProductController.java:34-99 | create, get, update the price, delete, get against a fresh service answer 201, 200, 200, 204, 404, and the update changes only the price |

## Left out

- Timestamps (`createdAt`, `updatedAt`) are dropped. Nothing in the modelled code reads them.
- Bean Validation (`@Valid`, an empty name giving 400) is left out. Its constraints live in the `Product` class, which is not part of this model. For the same reason the model makes name, price and stock non-null. Only description is optional.
- The mapping of service exceptions to HTTP statuses (409, 404 on update and delete) and the error body are left out. The exception handler is not part of this model, and `ErrorResponse` has no behaviour.
- Security configuration, HTTP routing, JSON serialisation and OpenAPI annotations are framework wiring, not logic.
- `@Transactional` and JPA persistence internals are left out. Each operation is one step on the table value. A failing backing store is not modelled.
- Concurrency is left out: racing creates with the same name, and concurrent cache access. The code makes no guarantees about either.
- The cache holds values, so the model does not capture the aliasing of cached entity objects in the source.
- Cache keys are one constructor per read shape. The source's keys are the raw id, Spring's default key and three strings with distinct prefixes (`name:`, `price:`, `lowStock:`). The string form of a `BigDecimal` price (where `100.0` and `100.00` give different keys) is not modelled, because prices are integers in minor units.
- The cache has no size bound, and neither does the model.
- `Long` ids and `Integer` stock and thresholds are unbounded integers. The only arithmetic is the id counter's increment, and 64-bit overflow of that counter is not modelled.
- List order: every list result comes back in ascending id order. The source leaves the order to the database, so this is a choice and not a promise of the code.
- The cache is coherent only while the service is the table's one writer (its object invariant says so). In the source, a write made directly through `ProductRepository` evicts nothing, so a later cached read through the service can return a stale answer; the model does not capture such writes.
- Names are compared with exact, case-sensitive string equality in `FindByName` and `ExistsByName`. In the source, `findByName` and `existsByName` are SQL comparisons whose result depends on the database collation; under a case-insensitive collation, `createProduct` would also refuse a name differing only in case.
- `ProductService` is the interface. Its operations are the methods of `ProductServiceImpl`, which are modelled.
