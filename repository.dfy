/**
 * The product table behind `ProductRepository`: the derived queries it
 * declares and the `save`, `findById`, `existsById`, `deleteById` and
 * `findAll` it inherits, over an abstract table of rows keyed by id with a
 * counter that hands out fresh ids.
 */
module Repository {
  import opened Wrappers
  import opened Catalog

  /** The table's value: rows keyed by id, and the next id to hand out. */
  datatype Store = Store(rows: map<int, Product>, nextId: int)

  /** Ids start at 1, every row carries its own key as id, and the counter is above every key. */
  ghost predicate Consistent(s: Store) {
    1 <= s.nextId &&
    forall k :: k in s.rows ==> 1 <= k < s.nextId && s.rows[k].id == Some(k)
  }

  /** `p` is the row the table holds under `p`'s id. */
  ghost predicate Stored(s: Store, p: Product) {
    p.id.Some? && p.id.value in s.rows && s.rows[p.id.value] == p
  }

  /** The ids, `k` or above, of the rows that satisfy `keep`. */
  ghost function Matching(s: Store, k: int, keep: Product -> bool): set<int> {
    set j | j in s.rows && k <= j && keep(s.rows[j])
  }

  /** The rows with id `k` or above that satisfy `keep`, in ascending id order. */
  function RowsFrom(s: Store, k: int, keep: Product -> bool): (r: seq<Product>)
    requires Consistent(s)
    decreases s.nextId - k
    ensures forall i :: 0 <= i < |r| ==> Stored(s, r[i]) && keep(r[i]) && k <= r[i].id.value
    ensures forall j :: k <= j && j in s.rows && keep(s.rows[j]) ==> s.rows[j] in r
    ensures forall i, j :: 0 <= i < j < |r| ==> r[i].id.Some? && r[j].id.Some? && r[i].id.value < r[j].id.value
  {
    if k >= s.nextId then []
    else if k in s.rows && keep(s.rows[k]) then [s.rows[k]] + RowsFrom(s, k + 1, keep)
    else RowsFrom(s, k + 1, keep)
  }

  /** Lowering the bound by one adds id `k` to the matching ids exactly when row `k` matches. */
  lemma MatchingStep(s: Store, k: int, keep: Product -> bool)
    ensures k !in Matching(s, k + 1, keep)
    ensures k in s.rows && keep(s.rows[k]) ==> Matching(s, k, keep) == Matching(s, k + 1, keep) + {k}
    ensures !(k in s.rows && keep(s.rows[k])) ==> Matching(s, k, keep) == Matching(s, k + 1, keep)
  {
  }

  /** A result holds one row per matching id. */
  lemma {:induction false} RowsFromCount(s: Store, k: int, keep: Product -> bool)
    requires Consistent(s)
    decreases s.nextId - k
    ensures |RowsFrom(s, k, keep)| == |Matching(s, k, keep)|
  {
    if k >= s.nextId {
      assert Matching(s, k, keep) == {};
    } else {
      RowsFromCount(s, k + 1, keep);
      MatchingStep(s, k, keep);
    }
  }

  /** No row appears twice in a result, since ids ascend strictly. */
  lemma RowsFromDistinct(s: Store, k: int, keep: Product -> bool)
    requires Consistent(s)
    ensures var r := RowsFrom(s, k, keep);
      forall i, j :: 0 <= i < j < |r| ==> r[i] != r[j]
  {
  }

  /** `findById`: the row stored under `id`, if any. */
  function FindById(s: Store, id: int): (r: Option<Product>)
    requires Consistent(s)
    ensures r.Some? ==> Stored(s, r.value) && r.value.id == Some(id)
    ensures r.None? ==> forall p :: Stored(s, p) ==> p.id != Some(id)
  {
    if id in s.rows then Some(s.rows[id]) else None
  }

  /** `existsById`. */
  function ExistsById(s: Store, id: int): bool {
    id in s.rows
  }

  /** `existsByName`: some row carries exactly this name. */
  function ExistsByName(s: Store, name: string): bool {
    exists k | k in s.rows :: s.rows[k].name == name
  }

  /** `findAll`: every row, each once. */
  function FindAll(s: Store): (r: seq<Product>)
    requires Consistent(s)
    ensures forall p :: p in r ==> Stored(s, p)
    ensures forall k :: k in s.rows ==> s.rows[k] in r
    ensures forall i, j :: 0 <= i < j < |r| ==> r[i] != r[j]
    ensures |r| == |s.rows|
  {
    var keep := (p: Product) => true;
    RowsFromDistinct(s, 1, keep);
    RowsFromCount(s, 1, keep);
    assert Matching(s, 1, keep) == s.rows.Keys;
    RowsFrom(s, 1, keep)
  }

  /** `findByPriceLessThanEqual`: exactly the rows priced at or below `price`. */
  function FindByPriceLessThanEqual(s: Store, price: int): (r: seq<Product>)
    requires Consistent(s)
    ensures forall p :: p in r ==> Stored(s, p) && p.price <= price
    ensures forall k :: k in s.rows && s.rows[k].price <= price ==> s.rows[k] in r
    ensures forall i, j :: 0 <= i < j < |r| ==> r[i] != r[j]
    ensures |r| == |set k | k in s.rows && s.rows[k].price <= price|
  {
    var keep := (p: Product) => p.price <= price;
    RowsFromDistinct(s, 1, keep);
    RowsFromCount(s, 1, keep);
    assert Matching(s, 1, keep) == set k | k in s.rows && s.rows[k].price <= price;
    RowsFrom(s, 1, keep)
  }

  /** `findLowStockProducts`: exactly the rows whose stock is at most `threshold`. */
  function FindLowStockProducts(s: Store, threshold: int): (r: seq<Product>)
    requires Consistent(s)
    ensures forall p :: p in r ==> Stored(s, p) && p.stockQuantity <= threshold
    ensures forall k :: k in s.rows && s.rows[k].stockQuantity <= threshold ==> s.rows[k] in r
    ensures forall i, j :: 0 <= i < j < |r| ==> r[i] != r[j]
    ensures |r| == |set k | k in s.rows && s.rows[k].stockQuantity <= threshold|
  {
    var keep := (p: Product) => p.stockQuantity <= threshold;
    RowsFromDistinct(s, 1, keep);
    RowsFromCount(s, 1, keep);
    assert Matching(s, 1, keep) == set k | k in s.rows && s.rows[k].stockQuantity <= threshold;
    RowsFrom(s, 1, keep)
  }

  /** Two distinct rows carry the name `name`. */
  ghost predicate NameShared(s: Store, name: string) {
    exists j, k :: j in s.rows && k in s.rows && j != k && s.rows[j].name == name && s.rows[k].name == name
  }

  /**
   * `findByName`, a single-result query: empty when no row has the name, the
   * row when exactly one has it, and an error when several have it.
   */
  function FindByName(s: Store, name: string): (r: Result<Option<Product>, Error>)
    requires Consistent(s)
    ensures r == Success(None) <==> !ExistsByName(s, name)
    ensures r.Success? && r.value.Some? ==> Stored(s, r.value.value) && r.value.value.name == name
    ensures r.Failure? <==> NameShared(s, name)
    ensures r.Failure? ==> r.error == NonUniqueResult(name)
  {
    var named := RowsFrom(s, 1, (p: Product) => p.name == name);
    NamedRows(s, name, named);
    if |named| == 0 then Success(None)
    else if |named| == 1 then Success(Some(named[0]))
    else Failure(NonUniqueResult(name))
  }

  /** How the number of rows named `name` decides the outcome of `FindByName`. */
  lemma NamedRows(s: Store, name: string, named: seq<Product>)
    requires Consistent(s)
    requires named == RowsFrom(s, 1, (p: Product) => p.name == name)
    ensures |named| == 0 <==> !ExistsByName(s, name)
    ensures |named| >= 2 <==> NameShared(s, name)
  {
    NamedRowsNone(s, name, named);
    NamedRowsTwo(s, name, named);
    NamedRowsShared(s, name, named);
  }

  /** No row carries the name exactly when the scan for it is empty. */
  lemma NamedRowsNone(s: Store, name: string, named: seq<Product>)
    requires Consistent(s)
    requires named == RowsFrom(s, 1, (p: Product) => p.name == name)
    ensures |named| == 0 <==> !ExistsByName(s, name)
  {
    if ExistsByName(s, name) {
      var k :| k in s.rows && s.rows[k].name == name;
      assert s.rows[k] in named;
    }
    if |named| > 0 {
      assert named[0].id.value in s.rows;
    }
  }

  /** Two rows in the scan are two distinct rows with the name. */
  lemma NamedRowsTwo(s: Store, name: string, named: seq<Product>)
    requires Consistent(s)
    requires named == RowsFrom(s, 1, (p: Product) => p.name == name)
    ensures |named| >= 2 ==> NameShared(s, name)
  {
    if |named| >= 2 {
      var j, k := named[0].id.value, named[1].id.value;
      assert j in s.rows && k in s.rows && j != k && s.rows[j].name == name && s.rows[k].name == name;
    }
  }

  /** Two distinct rows with the name both appear in the scan, which therefore has two elements. */
  lemma NamedRowsShared(s: Store, name: string, named: seq<Product>)
    requires Consistent(s)
    requires named == RowsFrom(s, 1, (p: Product) => p.name == name)
    ensures NameShared(s, name) ==> |named| >= 2
  {
    if NameShared(s, name) {
      var j, k :| j in s.rows && k in s.rows && j != k && s.rows[j].name == name && s.rows[k].name == name;
      assert s.rows[j] in named && s.rows[k] in named;
      assert s.rows[j] != s.rows[k];
    }
  }

  /** What `save` returns: the new table and the persisted record. */
  datatype Saved = Saved(store: Store, record: Product)

  /**
   * `save`: a record whose id the table holds overwrites that row in place;
   * any other record is inserted under the next id, which no row used before.
   */
  function Persist(s: Store, p: Product): (r: Saved)
    requires Consistent(s)
    ensures Consistent(r.store)
    ensures Stored(r.store, r.record)
    ensures r.record == p.(id := r.record.id)
    ensures r.store.rows.Keys == s.rows.Keys + {r.record.id.value}
    ensures forall k :: k in s.rows && Some(k) != r.record.id ==> k in r.store.rows && r.store.rows[k] == s.rows[k]
    ensures p.id.Some? && p.id.value in s.rows ==> r.record.id == p.id && r.store.nextId == s.nextId
    ensures !(p.id.Some? && p.id.value in s.rows) ==>
      r.record.id == Some(s.nextId) && s.nextId !in s.rows && r.store.nextId == s.nextId + 1
  {
    if p.id.Some? && p.id.value in s.rows then
      Saved(Store(s.rows[p.id.value := p], s.nextId), p)
    else
      var q := p.(id := Some(s.nextId));
      Saved(Store(s.rows[s.nextId := q], s.nextId + 1), q)
  }

  /** `deleteById`: the row under `id` is gone; the counter is kept, so the id is never handed out again. */
  function Remove(s: Store, id: int): (r: Store)
    requires Consistent(s)
    ensures Consistent(r)
    ensures !ExistsById(r, id)
    ensures r.rows.Keys == s.rows.Keys - {id}
    ensures forall k :: k in r.rows ==> r.rows[k] == s.rows[k]
    ensures r.nextId == s.nextId
  {
    Store(s.rows - {id}, s.nextId)
  }

  /** A record saved without an id is found under its new id, with the name and price it was saved with. */
  lemma SaveThenFindById(s: Store, p: Product)
    requires Consistent(s)
    requires p.id.None?
    ensures var r := Persist(s, p);
      r.record.id.Some? &&
      FindById(r.store, r.record.id.value) == Some(r.record) &&
      r.record.name == p.name && r.record.price == p.price
  {
  }

  /** A saved record that was read from the table overwrites it; later reads see the new price and stock. */
  lemma SaveOverwritesInPlace(s: Store, id: int, price: int, stock: int)
    requires Consistent(s)
    requires id in s.rows
    ensures var p := s.rows[id].(price := price, stockQuantity := stock);
      var r := Persist(s, p);
      r.store.rows == s.rows[id := p] &&
      FindById(r.store, id) == Some(p) &&
      |r.store.rows| == |s.rows|
  {
    var p := s.rows[id].(price := price, stockQuantity := stock);
    assert s.rows[id := p].Keys == s.rows.Keys;
  }

  /**
   * An id freed by `deleteById` is not reused by a later insert, whatever id
   * the inserted body carries (none, the freed one, or another unstored one).
   */
  lemma DeletedIdNotReused(s: Store, id: int, p: Product)
    requires Consistent(s)
    requires id in s.rows
    requires !(p.id.Some? && p.id.value in Remove(s, id).rows)
    ensures Persist(Remove(s, id), p).record.id != Some(id)
  {
  }

  /** The two single-row lookups agree: `existsByName` holds exactly when `findByName` does not come back empty. */
  lemma ExistsByNameAgreesWithFindByName(s: Store, name: string)
    requires Consistent(s)
    ensures ExistsByName(s, name) <==> FindByName(s, name) != Success(None)
  {
  }

  /** The empty table, as a fresh repository holds it. */
  function Empty(): (s: Store)
    ensures Consistent(s) && s.rows == map[] && s.nextId == 1
  {
    Store(map[], 1)
  }

  /** The product table as an object whose `rows` and `nextId` `save` and `deleteById` update in place. */
  class ProductTable {
    var rows: map<int, Product>
    var nextId: int

    /** The table's value. */
    function Snapshot(): Store
      reads this
    {
      Store(rows, nextId)
    }

    ghost predicate Valid()
      reads this
    {
      Consistent(Snapshot())
    }

    constructor ()
      ensures Valid() && Snapshot() == Empty()
    {
      rows := map[];
      nextId := 1;
    }

    /** `save`: insert under a fresh id, or overwrite the row with the record's id. */
    method Save(p: Product) returns (saved: Product)
      requires Valid()
      modifies this
      ensures Valid()
      ensures Saved(Snapshot(), saved) == Persist(old(Snapshot()), p)
    {
      if p.id.Some? && p.id.value in rows {
        rows := rows[p.id.value := p];
        saved := p;
      } else {
        saved := p.(id := Some(nextId));
        rows := rows[nextId := saved];
        nextId := nextId + 1;
      }
    }

    /** `deleteById`. */
    method DeleteById(id: int)
      requires Valid()
      modifies this
      ensures Valid()
      ensures Snapshot() == Remove(old(Snapshot()), id)
    {
      rows := rows - {id};
    }
  }
}
