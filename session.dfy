/**
 * The running session of Webbshop.py: the product list and the global
 * `id_map`, held by one object, and the operations that change them:
 * load_data, add_product and remove_product.
 */
module Webbshop {
  import opened Wrappers
  import opened Decimal
  import opened Handles
  import opened Catalog

  class Session {
    /** The product list, in file order and then in order of addition. */
    var products: seq<Product>
    /** `id_map`: handle -> permanent id. */
    var idMap: Registry

    /** The state at start-up: the module-level `id_map = {}` and no products yet. */
    constructor ()
      ensures products == [] && idMap == map[]
    {
      products := [];
      idMap := map[];
    }

    /**
     * load_data on already-parsed rows; None stands for a missing file.
     * Each row i (from 1) registers handle str(i) for its id and is appended;
     * the loaded list becomes the session's product list.
     */
    method Load(records: Option<seq<Product>>)
      modifies this
      ensures records.None? ==> products == [] && idMap == old(idMap)
      ensures records.Some? ==>
        products == records.value && idMap == old(idMap) + LoadedHandles(IdsOf(records.value))
    {
      var loaded: seq<Product> := [];
      if records.Some? {
        var rows := records.value;
        for index := 0 to |rows|
          invariant loaded == rows[..index]
          invariant idMap == old(idMap) + LoadedHandles(IdsOf(rows[..index]))
        {
          ghost var ids := IdsOf(rows[..index + 1]);
          assert ids[..index] == IdsOf(rows[..index]);
          idMap := idMap[Handle(index + 1) := rows[index].id];
          loaded := loaded + [rows[index]];
        }
        assert rows[..|rows|] == rows;
      }
      products := loaded;
    }

    /** Appends a product and registers a handle for its id. */
    method Register(handle: string, p: Product)
      modifies this
      ensures products == old(products) + [p]
      ensures idMap == old(idMap)[handle := p.id]
    {
      idMap := idMap[handle := p.id];
      products := products + [p];
    }

    /**
     * add_product as written. The typed-in price and quantity arrive already
     * parsed (None for a ValueError); freshId is the uuid4 text. On a parse
     * failure nothing changes; otherwise the handle `str(len(id_map) + 1)` is
     * set to the new id and the product is appended.
     */
    method Add(name: string, desc: string, price: Option<real>, quantity: Option<int>, freshId: string)
      returns (msg: string)
      requires FreshId(products, idMap, freshId)
      modifies this
      ensures price.None? || quantity.None? ==>
        msg == AddInvalid && products == old(products) && idMap == old(idMap)
      ensures price.Some? && quantity.Some? ==>
        && msg == AddedMessage(name)
        && products == old(products) + [Product(freshId, name, desc, price.value, quantity.value)]
        && idMap == old(idMap)[NextHandle(old(idMap)) := freshId]
    {
      if price.None? || quantity.None? {
        return AddInvalid;
      }
      Register(NextHandle(idMap), Product(freshId, name, desc, price.value, quantity.value));
      msg := AddedMessage(name);
    }

    /**
     * add_product with the corrected handle choice: the new handle is never
     * one already registered, so a consistent state stays consistent.
     */
    method AddWithFreshHandle(name: string, desc: string, price: Option<real>, quantity: Option<int>, freshId: string)
      returns (msg: string)
      requires FreshId(products, idMap, freshId)
      modifies this
      ensures price.None? || quantity.None? ==>
        msg == AddInvalid && products == old(products) && idMap == old(idMap)
      ensures price.Some? && quantity.Some? ==>
        && msg == AddedMessage(name)
        && products == old(products) + [Product(freshId, name, desc, price.value, quantity.value)]
        && FreshHandle(old(idMap)) !in old(idMap)
        && idMap == old(idMap)[FreshHandle(old(idMap)) := freshId]
      ensures old(Consistent(products, idMap)) ==> Consistent(products, idMap)
    {
      if price.None? || quantity.None? {
        return AddInvalid;
      }
      var p := Product(freshId, name, desc, price.value, quantity.value);
      var handle := FreshHandle(idMap);
      if Consistent(products, idMap) {
        AddUnderFreeHandleKeepsConsistent(products, idMap, handle, p);
      }
      Register(handle, p);
      msg := AddedMessage(name);
    }

    /**
     * remove_product: resolve the handle, drop the first product with that id
     * and release the handle. An unresolved handle, or one whose id no
     * product carries, changes nothing (the orphaned entry stays).
     */
    method Remove(handle: string) returns (msg: string)
      modifies this
      ensures Resolve(old(idMap), handle).None? ==>
        msg == RemoveMissing && products == old(products) && idMap == old(idMap)
      ensures Resolve(old(idMap), handle).Some? && !HasId(old(products), old(idMap)[handle]) ==>
        msg == RemoveMissing && products == old(products) && idMap == old(idMap)
      ensures Resolve(old(idMap), handle).Some? ==>
        forall k :: FirstWithId(old(products), old(idMap)[handle], k) ==>
          && msg == RemovedMessage(old(products)[k].name)
          && products == old(products)[..k] + old(products)[k + 1..]
          && idMap == old(idMap) - {handle}
      ensures old(Consistent(products, idMap)) ==> Consistent(products, idMap)
    {
      var uuid := Resolve(idMap, handle);
      if uuid.None? {
        return RemoveMissing;
      }
      for i := 0 to |products|
        invariant products == old(products) && idMap == old(idMap)
        invariant forall j :: 0 <= j < i ==> products[j].id != uuid.value
      {
        if products[i].id == uuid.value {
          assert FirstWithId(products, idMap[handle], i);
          if Consistent(products, idMap) {
            RemoveKeepsConsistent(products, idMap, handle, i);
          }
          msg := RemovedMessage(products[i].name);
          products := products[..i] + products[i + 1..];
          idMap := idMap - {handle};
          return;
        }
      }
      return RemoveMissing;
    }
  }

  /**
   * The handle defect end to end: load rows with unique ids, remove the
   * product of handle j (any but the last), then add as written. Remove
   * finds row j, NextHandle is then the last loaded handle, still
   * registered, and the add overwrites it: the last loaded product can no
   * longer be reached by any handle.
   */
  lemma LoadRemoveAddStrandsLastProduct(rows: seq<Product>, j: nat, p: Product)
    requires DistinctIds(rows)
    requires forall i :: 0 <= i < |rows| ==> rows[i].id != ""
    requires 1 <= j < |rows|
    requires FreshId(rows[..j - 1] + rows[j..], LoadedHandles(IdsOf(rows)) - {Handle(j)}, p.id)
    ensures var m := LoadedHandles(IdsOf(rows));
      && Resolve(m, Handle(j)) == Some(rows[j - 1].id)
      && FirstWithId(rows, m[Handle(j)], j - 1)
    ensures var m := LoadedHandles(IdsOf(rows)) - {Handle(j)};
      && NextHandle(m) == Handle(|rows|)
      && NextHandle(m) in m
      && m[NextHandle(m)] == rows[|rows| - 1].id
      && rows[|rows| - 1].id !in m[NextHandle(m) := p.id].Values
  {
    var n := |rows|;
    var ids := IdsOf(rows);
    var m0 := LoadedHandles(ids);
    LoadedHandlesKeys(ids);
    LoadedHandlesAt(ids, j);
    LoadedHandlesAt(ids, n);
    RemovalMakesNextHandleCollide(m0, n, j);
    LoadedIsConsistent(rows);
    assert FirstWithId(rows, m0[Handle(j)], j - 1);
    RemoveKeepsConsistent(rows, m0, Handle(j), j - 1);
    var ps := rows[..j - 1] + rows[j..];
    var m := m0 - {Handle(j)};
    NatToDecimalInjective(j, n);
    OverwrittenHandleStrandsProduct(ps, m, p);
  }

  /** A one-product catalogue: list it, remove it by handle "1", list and view again. */
  method SingleProductScenario(currency: Currency)
  {
    var s := new Session();
    var cable := Product("a", "Cable", "", 9.99, 5);
    LoadOne(s, cable);
    var listing := ListCable(s, cable, currency);
    assert listing == "1) (#1) Cable – " + currency(9.99) + " (5 i lager)";
    var msg := RemoveOnlyProduct(s, cable);
    assert msg == "Produkten 'Cable' har tagits bort.";
    EmptyCatalogueViews(s, currency);
  }

  method EmptyCatalogueViews(s: Session, currency: Currency)
    requires s.products == [] && s.idMap == map[]
  {
    var listing := ViewProducts(s.products, currency);
    assert SummaryLines([], currency) == [];
    assert listing == "";
    var detail := ViewProduct(s.products, s.idMap, "1", currency);
    assert detail == ViewMissing;
  }

  method ListCable(s: Session, cable: Product, currency: Currency) returns (listing: string)
    requires cable == Product("a", "Cable", "", 9.99, 5)
    requires s.products == [cable]
    ensures listing == "1) (#1) Cable – " + currency(9.99) + " (5 i lager)"
  {
    listing := ViewProducts(s.products, currency);
    ListingOfOne(cable, currency);
    CableLine(cable, currency);
  }

  lemma CableLine(cable: Product, currency: Currency)
    requires cable == Product("a", "Cable", "", 9.99, 5)
    ensures SummaryLine(1, cable, currency) == "1) (#1) Cable – " + currency(9.99) + " (5 i lager)"
  {
    assert IntToDecimal(5) == "5" && NatToDecimal(1) == "1";
  }

  lemma ListingOfOne(p: Product, currency: Currency)
    ensures Join(SummaryLines([p], currency)) == SummaryLine(1, p, currency)
  {
    var lines := SummaryLines([p], currency);
    assert |lines| == 1 && lines[0] == SummaryLine(1, p, currency);
  }

  method LoadOne(s: Session, p: Product)
    requires s.idMap == map[]
    modifies s
    ensures s.products == [p] && s.idMap == map["1" := p.id]
  {
    s.Load(Some([p]));
    assert IdsOf([p]) == [p.id];
    assert Handle(1) == "1";
    assert [p.id][..0] == [];
    assert LoadedHandles([p.id]) == map["1" := p.id];
  }

  method RemoveOnlyProduct(s: Session, p: Product) returns (msg: string)
    requires s.products == [p] && s.idMap == map["1" := p.id] && p.id != ""
    modifies s
    ensures s.products == [] && s.idMap == map[]
    ensures msg == RemovedMessage(p.name)
  {
    msg := s.Remove("1");
    assert Resolve(map["1" := p.id], "1") == Some(p.id);
    assert FirstWithId([p], p.id, 0);
  }

  /** Three loaded products; removing handle "1" and adding one overwrites handle "3". */
  method HandleCollisionScenario()
  {
    var s := new Session();
    var a, b, c := Product("a", "A", "", 1.0, 1), Product("b", "B", "", 2.0, 2), Product("c", "C", "", 3.0, 3);
    LoadThree(s, a, b, c);
    RemoveFirstOfThree(s, a, b, c);
    assert !HasId(s.products, "d");
    var msg := s.Add("D", "", Some(4.0), Some(4), "d");
    assert NextHandle(map["2" := "b", "3" := "c"]) == "3";
    assert s.idMap == map["2" := "b", "3" := "d"];
    assert s.products == [b, c, Product("d", "D", "", 4.0, 4)];
    assert "c" !in s.idMap.Values;
  }

  method LoadThree(s: Session, a: Product, b: Product, c: Product)
    requires a.id == "a" && b.id == "b" && c.id == "c"
    requires s.idMap == map[]
    modifies s
    ensures s.products == [a, b, c] && s.idMap == map["1" := "a", "2" := "b", "3" := "c"]
  {
    s.Load(Some([a, b, c]));
    assert Handle(1) == "1" && Handle(2) == "2" && Handle(3) == "3";
    assert IdsOf([a, b, c]) == ["a", "b", "c"];
    assert ["a", "b", "c"][..2] == ["a", "b"];
    assert ["a", "b"][..1] == ["a"];
    assert ["a"][..0] == [];
    assert LoadedHandles(["a"]) == map["1" := "a"];
    assert LoadedHandles(["a", "b"]) == map["1" := "a", "2" := "b"];
    assert LoadedHandles(["a", "b", "c"]) == map["1" := "a", "2" := "b", "3" := "c"];
  }

  method RemoveFirstOfThree(s: Session, a: Product, b: Product, c: Product)
    requires a.id == "a" && b.id == "b" && c.id == "c"
    requires s.products == [a, b, c] && s.idMap == map["1" := "a", "2" := "b", "3" := "c"]
    modifies s
    ensures s.products == [b, c] && s.idMap == map["2" := "b", "3" := "c"]
  {
    var msg := s.Remove("1");
    assert Resolve(map["1" := "a", "2" := "b", "3" := "c"], "1") == Some("a");
    assert FirstWithId([a, b, c], "a", 0);
    assert [a, b, c][1..] == [b, c];
    assert map["1" := "a", "2" := "b", "3" := "c"] - {"1"} == map["2" := "b", "3" := "c"];
  }
}
