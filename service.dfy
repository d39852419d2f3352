/**
 * `ProductServiceImpl`: the business rules over the product table (a unique
 * name on create, a field-by-field merge on update, not-found on update and
 * delete) and the read-through result cache that every mutation clears.
 */
module Service {
  import opened Wrappers
  import opened Catalog
  import opened Repository

  /** The body of an update: each field that is absent (null in the request) keeps its stored value. */
  datatype Patch = Patch(
    name: Option<string>,
    description: Option<string>,
    price: Option<int>,
    stockQuantity: Option<int>)

  /** A patch that sets no field. */
  const NoChanges := Patch(None, None, None, None)

  /** The record `p` after the non-null fields of `patch` have been set on it. */
  function Merge(p: Product, patch: Patch): Product {
    p.(name := patch.name.GetOr(p.name),
       description := if patch.description.Some? then patch.description else p.description,
       price := patch.price.GetOr(p.price),
       stockQuantity := patch.stockQuantity.GetOr(p.stockQuantity))
  }

  /** Each field given in the patch is taken from it, each field not given is kept, and the id never changes. */
  lemma MergeFieldwise(p: Product, patch: Patch)
    ensures var r := Merge(p, patch);
      && r.id == p.id
      && (patch.name.Some? ==> r.name == patch.name.value)
      && (patch.name.None? ==> r.name == p.name)
      && (patch.description.Some? ==> r.description == patch.description)
      && (patch.description.None? ==> r.description == p.description)
      && (patch.price.Some? ==> r.price == patch.price.value)
      && (patch.price.None? ==> r.price == p.price)
      && (patch.stockQuantity.Some? ==> r.stockQuantity == patch.stockQuantity.value)
      && (patch.stockQuantity.None? ==> r.stockQuantity == p.stockQuantity)
  {
  }

  /** A patch with no fields set changes nothing. */
  lemma MergeNoChanges(p: Product)
    ensures Merge(p, NoChanges) == p
  {
  }

  /** Applying the same patch twice is the same as applying it once. */
  lemma MergeIdempotent(p: Product, patch: Patch)
    ensures Merge(Merge(p, patch), patch) == Merge(p, patch)
  {
  }

  /** A cache key; each read operation has its own shape, so keys of different reads never collide. */
  datatype Key =
    | ById(id: int)              // key "#id"
    | AllProducts                // the default key of the argument-less getAllProducts
    | ByName(name: string)       // key "'name:' + #name"
    | ByPrice(price: int)        // key "'price:' + #price"
    | LowStock(threshold: int)   // key "'lowStock:' + #threshold"

  /** A cached result: a single optional product, or a list of products. */
  datatype Cached = Item(product: Option<Product>) | Items(products: seq<Product>)

  /** What the read under key `k` computes from the table, bypassing the cache. */
  function Answer(s: Store, k: Key): Result<Cached, Error>
    requires Consistent(s)
  {
    match k
    case ById(id) => Success(Item(FindById(s, id)))
    case AllProducts => Success(Items(FindAll(s)))
    case ByName(name) =>
      (match FindByName(s, name)
       case Success(found) => Success(Item(found))
       case Failure(e) => Failure(e))
    case ByPrice(price) => Success(Items(FindByPriceLessThanEqual(s, price)))
    case LowStock(threshold) => Success(Items(FindLowStockProducts(s, threshold)))
  }

  /** Every cache entry is what its read would compute from the table now. */
  ghost predicate Coherent(cache: map<Key, Cached>, s: Store)
    requires Consistent(s)
  {
    forall k :: k in cache ==> Answer(s, k) == Success(cache[k])
  }

  /** `createProduct` on a table value: refuse a taken name, otherwise save. */
  function Create(s: Store, p: Product): Result<Saved, Error>
    requires Consistent(s)
  {
    if ExistsByName(s, p.name) then Failure(DuplicateName(p.name))
    else Success(Persist(s, p))
  }

  /** `updateProduct` on a table value: refuse a missing id, otherwise merge the patch into the row and save it. */
  function Update(s: Store, id: int, patch: Patch): Result<Saved, Error>
    requires Consistent(s)
  {
    match FindById(s, id)
    case None => Failure(NotFound(id))
    case Some(existing) => Success(Persist(s, Merge(existing, patch)))
  }

  /** `deleteProduct` on a table value: refuse a missing id, otherwise delete the row. */
  function Delete(s: Store, id: int): Result<Store, Error>
    requires Consistent(s)
  {
    if !ExistsById(s, id) then Failure(NotFound(id))
    else Success(Remove(s, id))
  }

  /** Creating a product whose name is taken fails with DuplicateName. */
  lemma CreateDuplicateFails(s: Store, p: Product, other: int)
    requires Consistent(s)
    requires other in s.rows && s.rows[other].name == p.name
    ensures Create(s, p) == Failure(DuplicateName(p.name))
  {
  }

  /**
   * Creating a product with a free name and no stored id (none, or one the
   * table does not hold) inserts exactly one row, under an id no row had,
   * and returns that row; it holds the given fields.
   */
  lemma CreateInsertsOne(s: Store, p: Product)
    requires Consistent(s)
    requires !ExistsByName(s, p.name) && !(p.id.Some? && p.id.value in s.rows)
    ensures Create(s, p).Success?
    ensures var r := Create(s, p).value;
      && r.record == p.(id := Some(s.nextId))
      && s.nextId !in s.rows
      && r.store.rows == s.rows[s.nextId := r.record]
      && |r.store.rows| == |s.rows| + 1
      && FindById(r.store, s.nextId) == Some(r.record)
  {
  }

  /**
   * Creating a product with a free name whose body carries a stored id
   * overwrites that row in place: the row count and the counter are kept.
   */
  lemma CreateOverwritesStoredId(s: Store, p: Product)
    requires Consistent(s)
    requires !ExistsByName(s, p.name) && p.id.Some? && p.id.value in s.rows
    ensures Create(s, p).Success?
    ensures var r := Create(s, p).value;
      && r.record == p
      && r.store.rows == s.rows[p.id.value := p]
      && |r.store.rows| == |s.rows|
      && r.store.nextId == s.nextId
  {
  }

  /** Updating a missing id fails with NotFound. */
  lemma UpdateMissingFails(s: Store, id: int, patch: Patch)
    requires Consistent(s)
    requires id !in s.rows
    ensures Update(s, id, patch) == Failure(NotFound(id))
  {
  }

  /** Updating an existing id rewrites that one row with the merged record, under the same id, and no other row. */
  lemma UpdateRewritesOnlyTarget(s: Store, id: int, patch: Patch)
    requires Consistent(s)
    requires id in s.rows
    ensures Update(s, id, patch).Success?
    ensures var r := Update(s, id, patch).value;
      && r.record == Merge(s.rows[id], patch)
      && r.record.id == Some(id)
      && r.store.rows == s.rows[id := r.record]
      && r.store.nextId == s.nextId
  {
  }

  /** An update that sets no field leaves the table as it was and returns the stored row. */
  lemma UpdateNoChangesKeepsTable(s: Store, id: int)
    requires Consistent(s)
    requires id in s.rows
    ensures Update(s, id, NoChanges) == Success(Saved(s, s.rows[id]))
  {
    MergeNoChanges(s.rows[id]);
    assert s.rows[id := s.rows[id]] == s.rows;
  }

  /** Deleting a missing id fails with NotFound. */
  lemma DeleteMissingFails(s: Store, id: int)
    requires Consistent(s)
    requires id !in s.rows
    ensures Delete(s, id) == Failure(NotFound(id))
  {
  }

  /** Deleting an existing id removes exactly that row. */
  lemma DeleteRemovesOne(s: Store, id: int)
    requires Consistent(s)
    requires id in s.rows
    ensures Delete(s, id).Success?
    ensures var t := Delete(s, id).value;
      t.rows == s.rows - {id} && |t.rows| == |s.rows| - 1 && !ExistsById(t, id)
  {
  }

  /** No two rows share a name. */
  ghost predicate NamesUnique(s: Store) {
    forall j, k :: j in s.rows && k in s.rows && s.rows[j].name == s.rows[k].name ==> j == k
  }

  /** A successful create keeps names unique. */
  lemma CreateKeepsNamesUnique(s: Store, p: Product)
    requires Consistent(s) && NamesUnique(s)
    requires Create(s, p).Success?
    ensures NamesUnique(Create(s, p).value.store)
  {
  }

  /** A successful delete keeps names unique. */
  lemma DeleteKeepsNamesUnique(s: Store, id: int)
    requires Consistent(s) && NamesUnique(s)
    requires Delete(s, id).Success?
    ensures NamesUnique(Delete(s, id).value)
  {
  }

  /**
   * Update does not check names: renaming one row to another row's name
   * succeeds, breaks uniqueness, and from then on `findByName` of that name fails.
   */
  lemma UpdateCanDuplicateName(s: Store, id: int, other: int, patch: Patch)
    requires Consistent(s)
    requires id in s.rows && other in s.rows && id != other
    requires patch.name == Some(s.rows[other].name)
    ensures Update(s, id, patch).Success?
    ensures var t := Update(s, id, patch).value.store;
      !NamesUnique(t) && FindByName(t, s.rows[other].name).Failure?
  {
  }

  /** The product service: the repository it is given and the shared cache "products". */
  class ProductServiceImpl {
    const repository: ProductTable
    var cache: map<Key, Cached>

    ghost predicate Valid()
      reads this, repository
    {
      repository.Valid() && Coherent(cache, repository.Snapshot())
    }

    constructor (repository: ProductTable)
      requires repository.Valid()
      ensures Valid()
      ensures this.repository == repository && cache == map[]
    {
      this.repository := repository;
      cache := map[];
    }

    /**
     * Read-through caching: an entry under `k` is returned as it is;
     * otherwise the read is computed from the table and, when it succeeds,
     * stored under `k`. Either way the result is what the table holds now.
     */
    method ReadThrough(k: Key) returns (r: Result<Cached, Error>)
      requires Valid()
      modifies this
      ensures Valid()
      ensures r == Answer(repository.Snapshot(), k)
      ensures k in old(cache) ==> cache == old(cache)
      ensures k !in old(cache) && r.Success? ==> cache == old(cache)[k := r.value]
      ensures r.Failure? ==> cache == old(cache)
    {
      if k in cache {
        r := Success(cache[k]);
      } else {
        r := Answer(repository.Snapshot(), k);
        if r.Success? {
          cache := cache[k := r.value];
        }
      }
    }

    /** `createProduct`: a taken name fails and changes nothing; otherwise the record is saved and the cache cleared. */
    method CreateProduct(p: Product) returns (r: Result<Product, Error>)
      requires Valid()
      modifies this, repository
      ensures Valid()
      ensures match Create(old(repository.Snapshot()), p)
        case Failure(e) =>
          r == Failure(e) && repository.Snapshot() == old(repository.Snapshot()) && cache == old(cache)
        case Success(saved) =>
          r == Success(saved.record) && repository.Snapshot() == saved.store && cache == map[]
    {
      if Repository.ExistsByName(repository.Snapshot(), p.name) {
        return Failure(DuplicateName(p.name));
      }
      var saved := repository.Save(p);
      cache := map[];
      r := Success(saved);
    }

    /** `getProductById`, cached under the id. */
    method GetProductById(id: int) returns (r: Option<Product>)
      requires Valid()
      modifies this
      ensures Valid()
      ensures r == FindById(repository.Snapshot(), id)
      ensures cache == old(cache)[ById(id) := Item(r)]
    {
      var a := ReadThrough(ById(id));
      r := a.value.product;
    }

    /** `getAllProducts`, cached under the default key. */
    method GetAllProducts() returns (r: seq<Product>)
      requires Valid()
      modifies this
      ensures Valid()
      ensures r == FindAll(repository.Snapshot())
      ensures cache == old(cache)[AllProducts := Items(r)]
    {
      var a := ReadThrough(AllProducts);
      r := a.value.products;
    }

    /** `getProductByName`, cached under the name key unless the lookup fails. */
    method GetProductByName(name: string) returns (r: Result<Option<Product>, Error>)
      requires Valid()
      modifies this
      ensures Valid()
      ensures r == FindByName(repository.Snapshot(), name)
      ensures r.Success? ==> cache == old(cache)[ByName(name) := Item(r.value)]
      ensures r.Failure? ==> cache == old(cache)
    {
      var a := ReadThrough(ByName(name));
      match a
      case Success(c) => r := Success(c.product);
      case Failure(e) => r := Failure(e);
    }

    /** `getProductsByPriceLessThanEqual`, cached under the price key. */
    method GetProductsByPriceLessThanEqual(price: int) returns (r: seq<Product>)
      requires Valid()
      modifies this
      ensures Valid()
      ensures r == FindByPriceLessThanEqual(repository.Snapshot(), price)
      ensures cache == old(cache)[ByPrice(price) := Items(r)]
    {
      var a := ReadThrough(ByPrice(price));
      r := a.value.products;
    }

    /** `getLowStockProducts`, cached under the threshold key. */
    method GetLowStockProducts(threshold: int) returns (r: seq<Product>)
      requires Valid()
      modifies this
      ensures Valid()
      ensures r == FindLowStockProducts(repository.Snapshot(), threshold)
      ensures cache == old(cache)[LowStock(threshold) := Items(r)]
    {
      var a := ReadThrough(LowStock(threshold));
      r := a.value.products;
    }

    /** `updateProduct`: a missing id fails and changes nothing; otherwise the patch is merged, saved and the cache cleared. */
    method UpdateProduct(id: int, patch: Patch) returns (r: Result<Product, Error>)
      requires Valid()
      modifies this, repository
      ensures Valid()
      ensures match Update(old(repository.Snapshot()), id, patch)
        case Failure(e) =>
          r == Failure(e) && repository.Snapshot() == old(repository.Snapshot()) && cache == old(cache)
        case Success(saved) =>
          r == Success(saved.record) && repository.Snapshot() == saved.store && cache == map[]
    {
      var found := FindById(repository.Snapshot(), id);
      if found.None? {
        return Failure(NotFound(id));
      }
      var existing := found.value;
      if patch.name.Some? {
        existing := existing.(name := patch.name.value);
      }
      if patch.description.Some? {
        existing := existing.(description := patch.description);
      }
      if patch.price.Some? {
        existing := existing.(price := patch.price.value);
      }
      if patch.stockQuantity.Some? {
        existing := existing.(stockQuantity := patch.stockQuantity.value);
      }
      var saved := repository.Save(existing);
      cache := map[];
      r := Success(saved);
    }

    /** `deleteProduct`: a missing id fails and changes nothing; otherwise the row is deleted and the cache cleared. */
    method DeleteProduct(id: int) returns (r: Result<(), Error>)
      requires Valid()
      modifies this, repository
      ensures Valid()
      ensures match Delete(old(repository.Snapshot()), id)
        case Failure(e) =>
          r == Failure(e) && repository.Snapshot() == old(repository.Snapshot()) && cache == old(cache)
        case Success(t) =>
          r == Success(()) && repository.Snapshot() == t && cache == map[]
    {
      if !ExistsById(repository.Snapshot(), id) {
        return Failure(NotFound(id));
      }
      repository.DeleteById(id);
      cache := map[];
      r := Success(());
    }

    /** `existsByName`: passed straight to the repository, not cached. */
    method ExistsByName(name: string) returns (b: bool)
      requires Valid()
      ensures b <==> exists k :: k in repository.rows && repository.rows[k].name == name
    {
      b := Repository.ExistsByName(repository.Snapshot(), name);
    }
  }

  /**
   * A read cached before a mutation is not served after it: a price search
   * on an empty table is cached as empty; after a product under that price
   * is created, the same search returns it.
   */
  method NoStaleReadAfterCreate() returns (before: seq<Product>, after: seq<Product>)
    ensures before == []
    ensures after == [Product(Some(1), "Test Product", None, 9999, 10)]
  {
    var table := new ProductTable();
    var service := new ProductServiceImpl(table);
    before := service.GetProductsByPriceLessThanEqual(10000);
    assert ByPrice(10000) in service.cache;
    var created := service.CreateProduct(Product(None, "Test Product", None, 9999, 10));
    after := service.GetProductsByPriceLessThanEqual(10000);
    assert table.rows == map[1 := created.value];
    assert (set k | k in table.rows && table.rows[k].price <= 10000) == {1};
  }
}
