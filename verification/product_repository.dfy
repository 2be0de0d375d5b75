/**
 * `ProductRepository` over the product table, a map from id to product.
 * Update and delete either change exactly the entry they name and report
 * `true`, or find no such entry and report `false` with the table unchanged.
 */
module ProductRepository {
  import opened Wrappers
  import opened Store

  type Table = map<int, Product>

  /** Every entry is stored under its own id. */
  predicate KeyedById(t: Table) {
    forall k :: k in t ==> t[k].id == k
  }

  /** `GetProductByIdAsync`. */
  function GetById(t: Table, id: int): (r: Option<Product>)
    ensures r.Some? <==> id in t
    ensures r.Some? ==> r.value == t[id]
  {
    if id in t then Some(t[id]) else None
  }

  /**
   * `CreateProductAsync`: the database gives the product the fresh id `newId`
   * and stores it; the product handed back carries that id.
   */
  function Create(t: Table, p: Product, newId: int): (r: (Table, Product))
    requires newId !in t
    ensures r.1 == p.(id := newId)
    ensures r.0.Keys == t.Keys + {newId} && r.0[newId] == r.1
    ensures forall k :: k in t ==> r.0[k] == t[k]
  {
    var stored := p.(id := newId);
    (t[newId := stored], stored)
  }

  /** The fields `UpdateProductAsync` copies onto the stored product; the id stays. */
  function Overwrite(stored: Product, p: Product): (q: Product)
    ensures q.id == stored.id
    ensures q.name == p.name && q.description == p.description && q.price == p.price && q.quantity == p.quantity
  {
    stored.(name := p.name, description := p.description, price := p.price, quantity := p.quantity)
  }

  /** `UpdateProductAsync`, located by `p.id`. */
  function Update(t: Table, p: Product): (r: (bool, Table))
    ensures !r.0 <==> p.id !in t
    ensures !r.0 ==> r.1 == t
    ensures r.0 ==> r.1.Keys == t.Keys && r.1[p.id] == Overwrite(t[p.id], p)
    ensures forall k :: k in t && k != p.id ==> k in r.1 && r.1[k] == t[k]
  {
    if p.id !in t then (false, t) else (true, t[p.id := Overwrite(t[p.id], p)])
  }

  /** `DeleteProductAsync`. */
  function Delete(t: Table, id: int): (r: (bool, Table))
    ensures !r.0 <==> id !in t
    ensures !r.0 ==> r.1 == t
    ensures r.0 ==> r.1.Keys == t.Keys - {id}
    ensures forall k :: k in r.1 ==> k in t && r.1[k] == t[k]
  {
    if id !in t then (false, t) else (true, t - {id})
  }

  /** The repository operations keep every product under its own id. */
  lemma OperationsKeepKeys(t: Table, p: Product, newId: int, id: int)
    requires KeyedById(t)
    ensures newId !in t ==> KeyedById(Create(t, p, newId).0)
    ensures KeyedById(Update(t, p).1)
    ensures KeyedById(Delete(t, id).1)
  {
  }

  /** Reading after a write sees the write. */
  lemma ReadYourWrites(t: Table, p: Product, newId: int, id: int)
    ensures newId !in t ==> GetById(Create(t, p, newId).0, newId) == Some(p.(id := newId))
    ensures Update(t, p).0 ==> GetById(Update(t, p).1, p.id) == Some(Overwrite(t[p.id], p))
    ensures GetById(Delete(t, id).1, id) == None
  {
  }

  /** Updating twice with the same values is the same as updating once. */
  lemma UpdateIdempotent(t: Table, p: Product)
    ensures Update(Update(t, p).1, p) == (p.id in t, Update(t, p).1)
  {
    if p.id in t {
      var t1 := Update(t, p).1;
      assert Overwrite(t1[p.id], p) == t1[p.id];
      assert t1[p.id := t1[p.id]] == t1;
    }
  }

  /** A second delete of the same id finds nothing and changes nothing. */
  lemma DeleteTwice(t: Table, id: int)
    ensures Delete(Delete(t, id).1, id) == (false, Delete(t, id).1)
  {
  }
}
