/**
 * `ProductController`: each handler calls one service operation and wraps its
 * outcome in an HTTP status. The handlers hold no state; they are functions of
 * the request parameters and of what the service returned. A service failure
 * is not caught here: it propagates unchanged to the application's exception
 * handling.
 */
module Controller {
  import opened Wrappers
  import opened Catalog
  import opened Repository
  import opened Service

  const OK := 200
  const CREATED := 201
  const NO_CONTENT := 204
  const NOT_FOUND := 404

  /** An HTTP response: a status and an optional body. */
  datatype Reply<T> = Reply(status: int, body: Option<T>)

  /** POST: 201 with the record the service created. */
  function CreateProduct(created: Result<Product, Error>): Result<Reply<Product>, Error> {
    match created
    case Success(p) => Success(Reply(CREATED, Some(p)))
    case Failure(e) => Failure(e)
  }

  /** GET by id: 200 with the product when the service found one, 404 with no body otherwise. */
  function GetProductById(found: Option<Product>): Reply<Product> {
    match found
    case Some(p) => Reply(OK, Some(p))
    case None => Reply(NOT_FOUND, None)
  }

  /** GET all: 200 with the list. */
  function GetAllProducts(all: seq<Product>): Reply<seq<Product>> {
    Reply(OK, Some(all))
  }

  /**
   * Search: the service read the handler calls, named by its cache key. A
   * maximum price wins over a stock threshold; with neither, all products.
   */
  function SearchCall(maxPrice: Option<int>, lowStockThreshold: Option<int>): Key {
    if maxPrice.Some? then ByPrice(maxPrice.value)
    else if lowStockThreshold.Some? then LowStock(lowStockThreshold.value)
    else AllProducts
  }

  /** Search: 200 with whatever list the chosen read returned. */
  function SearchProducts(results: seq<Product>): Reply<seq<Product>> {
    Reply(OK, Some(results))
  }

  /** PUT: 200 with the merged record the service saved. */
  function UpdateProduct(updated: Result<Product, Error>): Result<Reply<Product>, Error> {
    match updated
    case Success(p) => Success(Reply(OK, Some(p)))
    case Failure(e) => Failure(e)
  }

  /** DELETE: 204 with no body once the service call has returned. */
  function DeleteProduct(deleted: Result<(), Error>): Result<Reply<()>, Error> {
    match deleted
    case Success(_) => Success(Reply(NO_CONTENT, None))
    case Failure(e) => Failure(e)
  }

  /** What the service's create and update methods return for an outcome on table values: the saved record. */
  function Returned(outcome: Result<Saved, Error>): Result<Product, Error> {
    match outcome
    case Success(saved) => Success(saved.record)
    case Failure(e) => Failure(e)
  }

  /** What the service's delete method returns for an outcome on table values. */
  function Deleted(outcome: Result<Store, Error>): Result<(), Error> {
    match outcome
    case Success(_) => Success(())
    case Failure(e) => Failure(e)
  }

  /**
   * POST against a table: 201 exactly when no row has the name, with the
   * stored record holding the request's fields; otherwise DuplicateName.
   */
  lemma PostAgainstTable(s: Store, p: Product)
    requires Consistent(s)
    ensures var reply := CreateProduct(Returned(Create(s, p)));
      && (reply.Success? <==> !ExistsByName(s, p.name))
      && (reply.Success? ==>
            && reply.value.status == CREATED
            && reply.value.body.Some?
            && reply.value.body.value == p.(id := reply.value.body.value.id)
            && Stored(Create(s, p).value.store, reply.value.body.value))
      && (reply.Failure? ==> reply.error == DuplicateName(p.name))
  {
  }

  /**
   * PUT against a table: 200 exactly when the id is stored, with the stored
   * row merged with the patch under the same id; otherwise NotFound.
   */
  lemma PutAgainstTable(s: Store, id: int, patch: Patch)
    requires Consistent(s)
    ensures var reply := UpdateProduct(Returned(Update(s, id, patch)));
      && (reply.Success? <==> id in s.rows)
      && (reply.Success? ==>
            && reply.value.status == OK
            && reply.value.body == Some(Merge(s.rows[id], patch))
            && reply.value.body.value.id == Some(id))
      && (reply.Failure? ==> reply.error == NotFound(id))
  {
  }

  /** DELETE against a table: 204 with no body exactly when the id is stored; otherwise NotFound. */
  lemma DeleteAgainstTable(s: Store, id: int)
    requires Consistent(s)
    ensures var reply := DeleteProduct(Deleted(Delete(s, id)));
      && (reply.Success? <==> id in s.rows)
      && (reply.Success? ==> reply.value == Reply(NO_CONTENT, None))
      && (reply.Failure? ==> reply.error == NotFound(id))
  {
  }

  /** GET by id answers 200 exactly when the table holds the id, with that row, and 404 otherwise. */
  lemma GetByIdStatus(s: Store, id: int)
    requires Consistent(s)
    ensures var r := GetProductById(FindById(s, id));
      && (r.status == OK <==> id in s.rows)
      && (r.status == NOT_FOUND <==> id !in s.rows)
      && (r.status == OK ==> r.body == Some(s.rows[id]))
  {
  }

  /**
   * What search returns, read against the table: with a maximum price,
   * exactly the rows at or below it, whatever the threshold; with only a
   * threshold, exactly the rows with stock at or below it; with neither,
   * the same as listing all products.
   */
  lemma SearchSemantics(s: Store, maxPrice: Option<int>, lowStockThreshold: Option<int>)
    requires Consistent(s)
    ensures var a := Answer(s, SearchCall(maxPrice, lowStockThreshold));
      && a.Success? && a.value.Items?
      && (maxPrice.Some? ==> a == Answer(s, ByPrice(maxPrice.value)))
      && (maxPrice.Some? ==>
            forall k :: k in s.rows ==> (s.rows[k] in a.value.products <==> s.rows[k].price <= maxPrice.value))
      && (maxPrice.None? && lowStockThreshold.Some? ==> a == Answer(s, LowStock(lowStockThreshold.value)))
      && (maxPrice.None? && lowStockThreshold.Some? ==>
            forall k :: k in s.rows ==>
              (s.rows[k] in a.value.products <==> s.rows[k].stockQuantity <= lowStockThreshold.value))
      && (maxPrice.None? && lowStockThreshold.None? ==> a == Answer(s, AllProducts))
  {
  }

  /**
   * The request sequence create, get, update the price, delete, get against
   * a fresh service: 201, 200, 200 with only the price changed, 204, then 404.
   */
  method Lifecycle() returns (statuses: seq<int>, updated: Product)
    ensures statuses == [CREATED, OK, OK, NO_CONTENT, NOT_FOUND]
    ensures updated == Product(Some(1), "Test Product", Some("Test Description"), 8999, 10)
  {
    var table := new ProductTable();
    var service := new ProductServiceImpl(table);

    var created := service.CreateProduct(Product(None, "Test Product", Some("Test Description"), 9999, 10));
    var postReply := CreateProduct(created);
    var id := created.value.id.value;

    var found := service.GetProductById(id);
    var getReply := GetProductById(found);

    var merged := service.UpdateProduct(id, Patch(None, None, Some(8999), None));
    var putReply := UpdateProduct(merged);
    updated := merged.value;

    var deleted := service.DeleteProduct(id);
    var deleteReply := DeleteProduct(deleted);

    var gone := service.GetProductById(id);
    var lastReply := GetProductById(gone);

    statuses := [postReply.value.status, getReply.status, putReply.value.status,
                 deleteReply.value.status, lastReply.status];
  }
}
