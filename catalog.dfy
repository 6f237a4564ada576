/**
 * The product collection of Webbshop.py and its read-only operations:
 * the listing (view_products), the detail view by handle (view_product),
 * and the consistency between collection and handle registry that the
 * mutators of module Webbshop keep or break.
 */
module Catalog {
  import opened Wrappers
  import opened Decimal
  import opened Handles

  /** One product record. Price is the parsed float, never computed with. */
  datatype Product = Product(id: string, name: string, desc: string, price: real, quantity: int)

  /** Formats a price for display (the locale's currency formatter). */
  type Currency = real -> string

  const ViewMissing: string := "Produkten hittas inte."
  const RemoveMissing: string := "Produkten hittades inte."
  const AddInvalid: string := "Felaktig inmatning. Försök igen."

  function AddedMessage(name: string): string {
    "Produkten '" + name + "' har lagts till."
  }

  function RemovedMessage(name: string): string {
    "Produkten '" + name + "' har tagits bort."
  }

  /**
   * `id_map.get(handle)` followed by `if not uuid_id`: an unregistered handle
   * and a handle mapped to the empty id both resolve to nothing.
   */
  function Resolve(m: Registry, handle: string): (r: Option<string>)
    ensures r.None? <==> handle !in m || m[handle] == ""
    ensures r.Some? ==> handle in m && r.value == m[handle] && r.value != ""
  {
    if handle in m && m[handle] != "" then Some(m[handle]) else None
  }

  function IdsOf(ps: seq<Product>): seq<string> {
    seq(|ps|, i requires 0 <= i < |ps| => ps[i].id)
  }

  predicate HasId(ps: seq<Product>, id: string) {
    exists k :: 0 <= k < |ps| && ps[k].id == id
  }

  /** k is the position of the first product with this id. */
  predicate FirstWithId(ps: seq<Product>, id: string, k: int) {
    0 <= k < |ps| && ps[k].id == id && forall j :: 0 <= j < k ==> ps[j].id != id
  }

  /** Any product with the id means there is a first one. */
  lemma {:induction false} FirstWithIdExists(ps: seq<Product>, id: string, k: int)
    requires 0 <= k < |ps| && ps[k].id == id
    ensures exists f :: FirstWithId(ps, id, f)
    decreases k
  {
    if j :| 0 <= j < k && ps[j].id == id {
      FirstWithIdExists(ps, id, j);
    } else {
      assert FirstWithId(ps, id, k);
    }
  }

  // ---------------------------------------------------------------- listing

  /**
   * The line view_products shows for the product at 1-based position index:
   * it starts "index) (#index) name", ends " i lager)", and is a single line
   * unless the name or the formatted price holds a newline.
   */
  function SummaryLine(index: nat, p: Product, currency: Currency): (line: string)
    ensures var head := NatToDecimal(index) + ") (#" + NatToDecimal(index) + ") " + p.name;
      |head| <= |line| && line[..|head|] == head
    ensures |line| >= 9 && line[|line| - 9..] == " i lager)"
    ensures '\n' in line ==> '\n' in p.name || '\n' in currency(p.price)
  {
    NatToDecimal(index) + ") (#" + NatToDecimal(index) + ") " + p.name
      + " – " + currency(p.price) + " (" + IntToDecimal(p.quantity) + " i lager)"
  }

  function SummaryLines(ps: seq<Product>, currency: Currency): seq<string> {
    seq(|ps|, i requires 0 <= i < |ps| => SummaryLine(i + 1, ps[i], currency))
  }

  /** `"\n".join(lines)`: empty for no lines, else from the first line to the last. */
  function Join(lines: seq<string>): (r: string)
    ensures |lines| == 0 ==> r == ""
    ensures |lines| >= 1 ==> |lines[0]| <= |r| && r[..|lines[0]|] == lines[0]
    ensures |lines| >= 1 ==> |lines[|lines| - 1]| <= |r| && r[|r| - |lines[|lines| - 1]|..] == lines[|lines| - 1]
    decreases |lines|
  {
    if |lines| == 0 then ""
    else if |lines| == 1 then lines[0]
    else lines[0] + "\n" + Join(lines[1..])
  }

  /** `s.split("\n")`: the pieces between newlines; the partner of Join. */
  function Split(s: string): (pieces: seq<string>)
    ensures |pieces| >= 1
    decreases |s|
  {
    if s == [] then [""]
    else
      var rest := Split(s[1..]);
      if s[0] == '\n' then [""] + rest
      else [[s[0]] + rest[0]] + rest[1..]
  }

  lemma {:induction false} SplitAfterLine(a: string, t: string)
    requires '\n' !in a
    ensures Split(a + t) == [a + Split(t)[0]] + Split(t)[1..]
    decreases |a|
  {
    if a == [] {
      assert a + t == t;
      assert a + Split(t)[0] == Split(t)[0];
      assert Split(t) == [Split(t)[0]] + Split(t)[1..];
    } else {
      assert (a + t)[0] == a[0];
      assert (a + t)[1..] == a[1..] + t;
      assert a[0] in a;
      assert forall c :: c in a[1..] ==> c in a;
      SplitAfterLine(a[1..], t);
      assert [a[0]] + (a[1..] + Split(t)[0]) == a + Split(t)[0];
    }
  }

  /** Splitting a joined listing at its newlines gives back the lines. */
  lemma {:induction false} SplitJoin(lines: seq<string>)
    requires |lines| >= 1
    requires forall i :: 0 <= i < |lines| ==> '\n' !in lines[i]
    ensures Split(Join(lines)) == lines
    decreases |lines|
  {
    if |lines| == 1 {
      SplitAfterLine(lines[0], "");
      assert lines[0] + "" == lines[0];
      assert Split("") == [""];
    } else {
      var rest := lines[1..];
      SplitJoin(rest);
      var tail := "\n" + Join(rest);
      assert Join(lines) == lines[0] + tail;
      SplitAfterLine(lines[0], tail);
      assert tail[0] == '\n' && tail[1..] == Join(rest);
      assert Split(tail) == [""] + rest;
      assert Split(Join(lines)) == [lines[0] + ""] + rest;
      assert lines[0] + "" == lines[0];
      assert lines == [lines[0]] + rest;
    }
  }

  /**
   * The listing has exactly one line per product, in collection order, the
   * i-th being the summary of the i-th product, provided no name and no
   * formatted price holds a newline itself.
   */
  lemma ListingHasOneLinePerProduct(ps: seq<Product>, currency: Currency)
    requires |ps| >= 1
    requires forall i :: 0 <= i < |ps| ==> '\n' !in ps[i].name && '\n' !in currency(ps[i].price)
    ensures |Split(Join(SummaryLines(ps, currency)))| == |ps|
    ensures forall i :: 0 <= i < |ps| ==>
      Split(Join(SummaryLines(ps, currency)))[i] == SummaryLine(i + 1, ps[i], currency)
  {
    var lines := SummaryLines(ps, currency);
    forall i | 0 <= i < |lines|
      ensures '\n' !in lines[i]
    {
      assert lines[i] == SummaryLine(i + 1, ps[i], currency);
    }
    SplitJoin(lines);
  }

  /** view_products: one summary line per product, joined by newlines. */
  method ViewProducts(products: seq<Product>, currency: Currency) returns (listing: string)
    ensures listing == Join(SummaryLines(products, currency))
  {
    var productList: seq<string> := [];
    for index := 0 to |products|
      invariant |productList| == index
      invariant forall j :: 0 <= j < index ==> productList[j] == SummaryLine(j + 1, products[j], currency)
    {
      productList := productList + [SummaryLine(index + 1, products[index], currency)];
    }
    ghost var lines := SummaryLines(products, currency);
    assert |lines| == |products|;
    assert forall j :: 0 <= j < |products| ==> lines[j] == SummaryLine(j + 1, products[j], currency);
    assert productList == lines;
    listing := Join(productList);
  }

  // ------------------------------------------------------------ detail view

  /**
   * The detail text view_product shows for one product: four lines giving
   * name, description, formatted price and stock, provided the first three
   * hold no newline themselves.
   */
  function Details(p: Product, currency: Currency): (r: string)
    ensures '\n' !in p.name && '\n' !in p.desc && '\n' !in currency(p.price) ==>
      Split(r) == ["Produkt: " + p.name, "Beskrivning: " + p.desc,
                   "Pris: " + currency(p.price), "Lager: " + IntToDecimal(p.quantity)]
  {
    var lines := ["Produkt: " + p.name, "Beskrivning: " + p.desc,
                  "Pris: " + currency(p.price), "Lager: " + IntToDecimal(p.quantity)];
    if '\n' !in p.name && '\n' !in p.desc && '\n' !in currency(p.price) then
      SplitJoin(lines);
      Join(lines)
    else
      Join(lines)
  }

  /**
   * view_product: resolve the handle, then scan for the first product with the
   * resolved id. Both an unresolved handle and an id no product carries give
   * the "not found" text.
   */
  method ViewProduct(products: seq<Product>, idMap: Registry, handle: string, currency: Currency)
    returns (r: string)
    ensures Resolve(idMap, handle).None? ==> r == ViewMissing
    ensures Resolve(idMap, handle).Some? && !HasId(products, idMap[handle]) ==> r == ViewMissing
    ensures Resolve(idMap, handle).Some? ==>
      forall k :: FirstWithId(products, idMap[handle], k) ==> r == Details(products[k], currency)
  {
    var uuid := Resolve(idMap, handle);
    if uuid.None? {
      return ViewMissing;
    }
    for i := 0 to |products|
      invariant forall j :: 0 <= j < i ==> products[j].id != uuid.value
    {
      if products[i].id == uuid.value {
        return Details(products[i], currency);
      }
    }
    return ViewMissing;
  }

  // ------------------------------------------------------------ consistency

  predicate DistinctIds(ps: seq<Product>) {
    forall i, j :: 0 <= i < j < |ps| ==> ps[i].id != ps[j].id
  }

  /** What uuid4 guarantees of a new id: non-empty and used nowhere yet. */
  predicate FreshId(ps: seq<Product>, m: Registry, id: string) {
    id != "" && !HasId(ps, id) && id !in m.Values
  }

  /**
   * Collection and registry agree: ids are unique and non-empty, every
   * handle leads to a product, every product has exactly one handle.
   */
  predicate Consistent(ps: seq<Product>, m: Registry) {
    && DistinctIds(ps)
    && (forall i :: 0 <= i < |ps| ==> ps[i].id != "")
    && (forall h :: h in m ==> HasId(ps, m[h]))
    && (forall i :: 0 <= i < |ps| ==> ps[i].id in m.Values)
    && (forall h1, h2 :: h1 in m && h2 in m && m[h1] == m[h2] ==> h1 == h2)
  }

  /** In a consistent state a registered handle always finds its product. */
  lemma ConsistentHandleFindsProduct(ps: seq<Product>, m: Registry, h: string)
    requires Consistent(ps, m)
    requires h in m
    ensures Resolve(m, h) == Some(m[h])
    ensures exists k :: FirstWithId(ps, m[h], k)
  {
    var k :| 0 <= k < |ps| && ps[k].id == m[h];
    FirstWithIdExists(ps, m[h], k);
  }

  /** Every entry load_data registers is the handle of some row, mapped to that row's id. */
  lemma LoadedEntry(rows: seq<Product>, h: string) returns (i: nat)
    requires h in LoadedHandles(IdsOf(rows))
    ensures 1 <= i <= |rows| && h == Handle(i)
    ensures LoadedHandles(IdsOf(rows))[h] == rows[i - 1].id
  {
    LoadedHandlesKeys(IdsOf(rows));
    i :| 1 <= i < |rows| + 1 && Handle(i) == h;
    LoadedHandlesAt(IdsOf(rows), i);
  }

  /** Loading rows with unique non-empty ids into an empty registry gives a consistent state. */
  lemma LoadedIsConsistent(rows: seq<Product>)
    requires DistinctIds(rows)
    requires forall i :: 0 <= i < |rows| ==> rows[i].id != ""
    ensures Consistent(rows, LoadedHandles(IdsOf(rows)))
  {
    var m := LoadedHandles(IdsOf(rows));
    forall h | h in m
      ensures HasId(rows, m[h])
    {
      var i := LoadedEntry(rows, h);
      assert rows[i - 1].id == m[h];
    }
    forall i | 0 <= i < |rows|
      ensures rows[i].id in m.Values
    {
      LoadedHandlesAt(IdsOf(rows), i + 1);
    }
    forall h1, h2 | h1 in m && h2 in m && m[h1] == m[h2]
      ensures h1 == h2
    {
      var i1 := LoadedEntry(rows, h1);
      var i2 := LoadedEntry(rows, h2);
      assert rows[i1 - 1].id == rows[i2 - 1].id;
    }
  }

  /** Appending a product under an unregistered handle keeps the state consistent. */
  lemma AddUnderFreeHandleKeepsConsistent(ps: seq<Product>, m: Registry, h: string, p: Product)
    requires Consistent(ps, m)
    requires h !in m
    requires FreshId(ps, m, p.id)
    ensures Consistent(ps + [p], m[h := p.id])
  {
    var ps', m' := ps + [p], m[h := p.id];
    forall h' | h' in m'
      ensures HasId(ps', m'[h'])
    {
      if h' == h {
        assert ps'[|ps|].id == p.id;
      } else {
        var k :| 0 <= k < |ps| && ps[k].id == m[h'];
        assert ps'[k] == ps[k];
      }
    }
    forall i | 0 <= i < |ps'|
      ensures ps'[i].id in m'.Values
    {
      if i < |ps| {
        assert ps'[i] == ps[i];
        var h' :| h' in m && m[h'] == ps[i].id;
        assert m'[h'] == ps[i].id;
      } else {
        assert m'[h] == p.id;
      }
    }
    forall i, j | 0 <= i < j < |ps'|
      ensures ps'[i].id != ps'[j].id
    {
      if j == |ps| {
        assert ps'[i] == ps[i];
      }
    }
  }

  /**
   * Removing the first product with a registered handle's id, together with
   * that handle, keeps the state consistent.
   */
  lemma RemoveKeepsConsistent(ps: seq<Product>, m: Registry, h: string, k: int)
    requires Consistent(ps, m)
    requires h in m
    requires FirstWithId(ps, m[h], k)
    ensures Consistent(ps[..k] + ps[k + 1..], m - {h})
  {
    var ps' := ps[..k] + ps[k + 1..];
    forall i, j | 0 <= i < j < |ps'|
      ensures ps'[i].id != ps'[j].id
    {
      RemovedAt(ps, k, i);
      RemovedAt(ps, k, j);
    }
    forall i | 0 <= i < |ps'|
      ensures ps'[i].id != ""
    {
      RemovedAt(ps, k, i);
    }
    RemoveKeepsHandlesLeading(ps, m, h, k);
    RemoveKeepsProductsHandled(ps, m, h, k, ps');
  }

  /** Position i after removing position k holds what position i or i + 1 held before. */
  lemma RemovedAt(ps: seq<Product>, k: int, i: int)
    requires 0 <= k < |ps| && 0 <= i < |ps| - 1
    ensures |ps[..k] + ps[k + 1..]| == |ps| - 1
    ensures (ps[..k] + ps[k + 1..])[i] == ps[if i < k then i else i + 1]
  {
  }

  lemma RemoveKeepsHandlesLeading(ps: seq<Product>, m: Registry, h: string, k: int)
    requires Consistent(ps, m)
    requires h in m
    requires FirstWithId(ps, m[h], k)
    ensures forall h' :: h' in m - {h} ==> HasId(ps[..k] + ps[k + 1..], (m - {h})[h'])
  {
    var ps', m' := ps[..k] + ps[k + 1..], m - {h};
    forall h' | h' in m'
      ensures HasId(ps', m'[h'])
    {
      var j :| 0 <= j < |ps| && ps[j].id == m[h'];
      assert j != k;
      var i := if j < k then j else j - 1;
      RemovedAt(ps, k, i);
    }
  }

  lemma RemoveKeepsProductsHandled(ps: seq<Product>, m: Registry, h: string, k: int, ps': seq<Product>)
    requires Consistent(ps, m)
    requires h in m
    requires FirstWithId(ps, m[h], k)
    requires ps' == ps[..k] + ps[k + 1..]
    ensures forall i :: 0 <= i < |ps'| ==> ps'[i].id in (m - {h}).Values
  {
    var m' := m - {h};
    forall i | 0 <= i < |ps'|
      ensures ps'[i].id in m'.Values
    {
      var src := if i < k then i else i + 1;
      RemovedAt(ps, k, i);
      var h' :| h' in m && m[h'] == ps[src].id;
      assert h' != h;
      assert m'[h'] == ps'[i].id;
    }
  }

  /**
   * The as-written add when NextHandle is already registered: the product the
   * overwritten handle led to is left with no handle at all.
   */
  lemma OverwrittenHandleStrandsProduct(ps: seq<Product>, m: Registry, p: Product)
    requires Consistent(ps, m)
    requires NextHandle(m) in m
    requires FreshId(ps, m, p.id)
    ensures exists k :: 0 <= k < |ps| && ps[k].id == m[NextHandle(m)]
    ensures m[NextHandle(m)] !in m[NextHandle(m) := p.id].Values
    ensures !Consistent(ps + [p], m[NextHandle(m) := p.id])
  {
    var h := NextHandle(m);
    var u := m[h];
    var m' := m[h := p.id];
    var k :| 0 <= k < |ps| && ps[k].id == u;
    assert forall h' :: h' in m' && h' != h ==> m[h'] != u;
    assert (ps + [p])[k].id == u;
  }
}
