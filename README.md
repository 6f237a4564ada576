# Webbshop catalogue model

A Dafny model of the in-memory product catalogue of `Webbshop.py`, a
terminal stock manager. The session holds two structures: the ordered list
of product records, and `id_map`, which maps the short numeric handles the
user types (`"1"`, `"2"`, ...) to each product's permanent id (a uuid).
Five operations work on them: `load_data` fills both from the file's rows,
`view_products` lists the products by position, `view_product` shows one
product by handle, `add_product` appends a product and registers a handle,
and `remove_product` deletes a product by handle and releases the handle.

Modules:

- `Wrappers` (`wrappers.dfy`): `Option`, for a failed lookup or a failed parse.
- `Decimal` (`decimal.dfy`): Python's `str()` of integers, which makes the
  handles and the printed quantities, with its inverse and both round trips.
  So handle texts of distinct numbers are distinct.
- `Handles` (`handles.dfy`): the registry type, the handles `load_data`
  registers, the handle `add_product` picks (`NextHandle`, as written) and a
  corrected choice (`FreshHandle`).
- `Catalog` (`catalog.dfy`): the `Product` record, handle resolution, the
  listing and detail view as methods with loops, and the consistency
  predicate between collection and registry, with lemmas on which
  operations keep it.
- `Webbshop` (`session.dfy`): the `Session` class. Its fields `products` and
  `idMap` replace the module-level list and the global `id_map`. Its
  methods `Load`, `Add` and `Remove` change them in place. It also holds the
  end-to-end lemma for the handle defect and two client scenarios.

Points where the model follows the code closely:

- `if not uuid_id` treats a handle mapped to the empty id like an
  unregistered handle (`Catalog.Resolve`).
- `products.remove(product)` removes the first list element equal to the
  found record. No earlier element carries that id, so this is the element at
  the position the scan stopped at, and the model removes that position.
- A missing file leaves `id_map` as it was and gives an empty product list;
  entries registered earlier in the session stay.
- Prices and quantities are not range-checked: any parsed float and any
  integer, negative ones too, are accepted.

## Model

| member | source | states |
|---|---|---|
| `Decimal.NatToDecimal` | Webbshop.py:25 | `str(n)` of a non-negative integer is canonical decimal text: digits only, no leading zero except for 0 |
| `Decimal.IntToDecimal` | Webbshop.py:53 | `str(q)` of the quantity is non-empty text; negative values get a minus sign |
| `Decimal.DecimalValueOfNatToDecimal` | Webbshop.py:25 | reading `str(n)` back gives n |
| `Decimal.NatToDecimalOfDecimalValue` | Webbshop.py:25 | every canonical digit string is `str` of the number it denotes |
| `Decimal.IntValueOfIntToDecimal` | Webbshop.py:53 | the printed quantity reads back as the stored quantity |
| `Decimal.NatToDecimalInjective` | Webbshop.py:24-25 | distinct numbers have distinct handle texts |
| `Handles.HandleRangeSize` | Webbshop.py:24-25 | the handles of lo..hi-1 are hi-lo distinct strings |
| `Handles.LoadedHandlesKeys` | Webbshop.py:24-25 | loading N rows registers exactly the handles "1".."N", N entries |
| `Handles.LoadedHandlesAt` | Webbshop.py:24-25 | after loading, handle `str(i)` maps to the id of the i-th row |
| `Handles.NextHandleFreshWhenDense` | Webbshop.py:81-82 | while the handles are exactly "1".."n", the handle add picks is unregistered |
| `Handles.RemovalMakesNextHandleCollide` | Webbshop.py:81-82 | after releasing a handle other than the last of "1".."n", the handle add picks is "n", which is still registered |
| `Handles.NextHandle` | Webbshop.py:81 | the handle add picks is canonical decimal text whose value is `len(id_map) + 1` |
| `Handles.FreeFrom` | Webbshop.py:81 | the search from k upwards returns the first unregistered handle at k or above |
| `Handles.FreshHandle` | Webbshop.py:81 | the corrected handle is the first unregistered one from `len(id_map) + 1` upwards, so never registered, and equals `str(len(id_map) + 1)` whenever that one is free |
| `Catalog.Resolve` | Webbshop.py:60-61 | a handle resolves exactly when it is registered and mapped to a non-empty id, and then to that id |
| `Catalog.FirstWithIdExists` | Webbshop.py:63-64 | if any product has the id, there is a first position holding a product with that id |
| `Catalog.SummaryLine` | Webbshop.py:50-54 | the summary line starts `"i) (#i) <name>"`, ends `" i lager)"`, and holds a newline only if the name or the formatted price does |
| `Catalog.Join` | Webbshop.py:56 | `"\n".join` of no lines is empty; otherwise the result starts with the first line and ends with the last |
| `Catalog.SplitJoin` | Webbshop.py:56 | splitting the newline-joined lines at newlines gives back the lines, when no line contains a newline |
| `Catalog.ListingHasOneLinePerProduct` | Webbshop.py:47-56 | for a non-empty catalogue, the listing splits into exactly one line per product, in list order, line i being `"i) (#i) <name> – <price> (<qty> i lager)"` |
| `Catalog.ViewProducts` | Webbshop.py:47-56 | the loop builds the i-th summary line for the i-th product and returns them joined by newlines; it changes nothing |
| `Catalog.Details` | Webbshop.py:65-70 | the detail text splits into exactly four lines: name, description, formatted price and stock, provided the first three hold no newline |
| `Catalog.ViewProduct` | Webbshop.py:59-71 | "not found" when the handle is unregistered or maps to the empty id, and when no product has the mapped id; otherwise the details of the first product with that id; it changes nothing |
| `Catalog.ConsistentHandleFindsProduct` | Webbshop.py:96-104 | in a consistent state, a registered handle always resolves and finds a product, so "not found" happens only for unregistered handles |
| `Catalog.LoadedEntry` | Webbshop.py:24-25 | every entry the load registers is the handle of some row, mapped to that row's id |
| `Catalog.LoadedIsConsistent` | Webbshop.py:19-35 | loading rows with unique non-empty ids into an empty registry gives a consistent state |
| `Catalog.AddUnderFreeHandleKeepsConsistent` | Webbshop.py:80-89 | appending a product with a fresh id under an unregistered handle keeps the state consistent |
| `Catalog.RemoveKeepsConsistent` | Webbshop.py:99-103 | removing the first product with the handle's id, together with the handle, keeps the state consistent |
| `Catalog.OverwrittenHandleStrandsProduct` | Webbshop.py:81-82 | when the handle add picks is already registered, the product it led to is left with no handle, and the state is no longer consistent |
| `Webbshop.Session.constructor` | Webbshop.py:16 | the session starts with no products and an empty `id_map` |
| `Webbshop.Session.Load` | Webbshop.py:19-35 | a missing file gives an empty product list and leaves `id_map` unchanged; otherwise the products are the rows in file order and `id_map` gains handle `str(i)` for the i-th row's id |
| `Webbshop.Session.Register` | Webbshop.py:82-89 | sets the handle to the product's id and appends the product, nothing else |
| `Webbshop.Session.Add` | Webbshop.py:74-92 | a parse failure changes nothing; otherwise exactly one product with the fresh id and the given fields is appended, all earlier ones unchanged, and `id_map[str(len(old id_map) + 1)]` is set to the new id |
| `Webbshop.Session.AddWithFreshHandle` | Webbshop.py:74-92 | the corrected add: same as `Add` but registers an unregistered handle, and keeps a consistent state consistent |
| `Webbshop.Session.Remove` | Webbshop.py:95-104 | an unresolved handle, or one whose id no product has, changes nothing and the orphaned entry stays; otherwise exactly the first product with the id is removed, the others keep their order, only that handle is deleted, and the message names the removed product; a consistent state stays consistent |
| `Webbshop.LoadRemoveAddStrandsLastProduct` | Webbshop.py:81-82 | after loading N >= 2 rows and removing the product of handle j < N, the as-written add overwrites handle "N", and the N-th product can no longer be reached by any handle |

## Left out

- The interactive menu (`main`), its prompts, screen clearing and pauses: terminal I/O.
- `save_data` and the CSV reading in `load_data`: file I/O and the `csv` module. `Session.Load` takes already-parsed rows, with `None` for a missing file. A malformed number in a row raises an uncaught error in the source; that path is not modelled.
- `float()` and `int()` parsing of typed-in values: `Session.Add` receives their results as `Option` values, with `None` for a `ValueError`. The source asks for the quantity only after the price parsed; that prompt order is not modelled.
- `.strip()` of typed-in text: input handling outside the catalogue.
- `locale.currency` and `locale.setlocale`: global locale state and a foreign formatter. The formatter is a function parameter, and prices are reals that are never computed with.
- `uuid.uuid4()`: randomness. The new id is a parameter, and `FreshId` requires what uuid4 provides: it is non-empty and used by no product and no handle.
- `Webbshop.Session.Load`: `load_data` only returns the list and `main` assigns it; the model does both in one method.
- `Catalog.ListingHasOneLinePerProduct`: it is stated for a non-empty catalogue only, because an empty listing is "" and splitting "" gives one empty piece, not none; and it holds only when no product name and no formatted price contains a newline, which names read from the file could.
- `Catalog.Details`: its four-line statement likewise needs name, description and formatted price without newlines.

## Findings

| source | as written | input that shows it | evidently intended | confidence | as-written member | corrected member |
|---|---|---|---|---|---|---|
| Webbshop.py:81 | the new handle is `str(len(id_map) + 1)` | load three products (handles "1", "2", "3"), remove handle "1", add a product: the new handle is "3", it overwrites the third product's entry, and the third product can no longer be reached by handle | a handle that is not already registered | high, proved; not executed | `Webbshop.LoadRemoveAddStrandsLastProduct` | `Webbshop.Session.AddWithFreshHandle` |
