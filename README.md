# YGO inventory manager: batch, ledger and price reconciliation

A Dafny model of the inventory logic inside the YGO Inventory Manager window
(`inventory/app.py`). A collector searches a read-only card catalog, selects a
result, and adds it with a quantity and notes to a pending batch. The batch is
then flushed into a spreadsheet ledger (`ygo_inventory.xlsx`). A separate
action walks the ledger and refreshes every row's price from the catalog.

The catalog is a `seq<Product>` in storage order. The ledger is
`Option<seq<Item>>`: absent, or a table of rows with nine columns (Item ID,
Market ID, Quantity, Title, Set Name, Release, Rarity, Price, Notes). A failing
file operation is a `bool` input. The cancel button of the progress dialog is a
`seq<bool>` of poll answers; polls past the end of the sequence read false.

- `wrappers.dfy`: `Option`.
- `py_str.dfy` (module `PyStr`): the Python string operations the code relies
  on. `split(sep, 1)` and the `[:stop]` slice state their Python meaning as a
  contract, including the rule that `s[:-0]` is empty. `split` and `join` get
  theirs from the two round-trip lemmas `JoinSplit` and `SplitJoin`. `find`
  is not called by the code; `Find` is the helper the others are built on.
- `catalog.dfy` (module `Catalog`): catalog rows, the title search as an
  order-preserving filter, and `get_card` as a first-match lookup.
- `codec.dfy` (module `Codec`): the result label
  `title (card_id)(rarity words from set on release)[market id]` and
  `parse_id`, with the exact round trip.
- `inventory.dfy` (module `Inventory`): the window's state as a class with the
  pending batch and the ledger as fields. Its methods are `update_inventory`,
  `delete_selected_record`, `save_to_spreadsheet` and
  `update_spreadsheet_prices`. The file ends with an end-to-end session.

Five behaviours of the code are easy to misread; the model follows the code:
- `parse_id` splits at the first `[`, not the last.
- For join id `LOB-EN001 P` and rarity `EN001 Ultra Rare` the card id is
  `LOB-EN`: the code drops five characters, as many as the code `EN001` has.
- Notes made only of whitespace are accepted. The code tests only for emptiness.
- A failed append to an existing ledger still clears the batch. Only a failed
  create leaves the batch in place, because that exception is not caught.
- Deleting with no row selected removes the last pending record. Qt's
  `currentRow()` returns -1 then, so the `selected_row is None` guard
  (inventory/app.py:272) never fires and the call is `DeleteRecord(-1)`: with
  two records pending, only the first remains.

## Model

| member | source | states |
|---|---|---|
| PyStr.Find | inventory/app.py:177 | the result is absent exactly when the character does not occur; otherwise it is the index of the first occurrence |
| PyStr.FindAfter | inventory/app.py:177 | a prefix without the character shifts the first occurrence in what follows by the prefix's length |
| PyStr.Split | inventory/app.py:167-168 | `split(' ')` gives one more piece than there are separators, and no piece holds a separator |
| PyStr.Join | inventory/app.py:168 | joining no pieces gives the empty string; otherwise the result starts with the first piece |
| PyStr.JoinSplit | inventory/app.py:168 | joining the pieces of a split with the same separator gives the original string back |
| PyStr.SplitJoin | inventory/app.py:168 | splitting a join of pieces that hold no separator gives the pieces back |
| PyStr.SplitFirst | inventory/app.py:167-168 | the first piece of a split is the text before the first separator, and joining the other pieces gives the text after it |
| PyStr.SplitOnce | inventory/app.py:177 | `split('[', 1)` has two parts exactly when `[` occurs; the first part holds no `[`; joining the parts gives the text back |
| PyStr.Prefix | inventory/app.py:167 | `s[:stop]` is a prefix of `s`, and for a non-negative stop its length is the stop cut to `len(s)` |
| PyStr.DropTail | inventory/app.py:167 | `s[:-n]` is a prefix of `s`, of length `len(s) - n` when `0 < n < len(s)`; it is empty when n is 0 or at least `len(s)` |
| Catalog.Search | inventory/app.py:160-161 | the results are exactly the catalog rows whose title matches, and there are no more of them than rows |
| Catalog.SearchConcat | inventory/app.py:160-161 | searching keeps storage order: a search over two runs of rows is the search of the first followed by the search of the second |
| Catalog.SearchEverything | inventory/app.py:160 | a pattern that accepts every title, as the empty query does, returns the whole catalog in order |
| Catalog.FirstMatch | inventory/app.py:172-173 | the result is absent exactly when no row has the market id; otherwise it indexes a row with that id, and no earlier row has it |
| Catalog.GetCard | inventory/app.py:170-174 | `get_card` fails exactly when no catalog row has the market id; otherwise it returns the first row in storage order with that id |
| Catalog.GetCardOwnRow | inventory/app.py:170-174 | when market ids are unique, looking up a row's own market id returns that row |
| Codec.RarityCode | inventory/app.py:167 | `rarity.split(' ')[0]` is the longest space-free prefix of the rarity |
| Codec.RarityWords | inventory/app.py:168 | `' '.join(rarity.split(' ')[1:])` is the text after the first space; it is empty when the rarity has no space |
| Codec.CardId | inventory/app.py:167 | the card id is a prefix of the join id, shorter by the length k of the rarity code; it is empty when k is 0 or k is at least the join id's length |
| Codec.Label | inventory/app.py:168 | every listed label contains `[`, so `parse_id` does not raise on it |
| Codec.SearchLabels | inventory/app.py:164-168 | the results list has one label per search result, and each label contains `[` |
| Codec.ParseId | inventory/app.py:176-180 | `parse_id` raises exactly when the text contains no `[` |
| Codec.ParseAfterFirstTag | inventory/app.py:177-178 | when a prefix holds no `[`, `parse_id` of prefix + `[` + t returns t less its last character |
| Codec.LabelParse | inventory/app.py:168-178 | `parse_id` of a row's label returns exactly the row's market id iff the text of the label before the tag holds no `[` |
| Codec.LabelRoundTrip | inventory/app.py:167-178 | if the title, join id, rarity, set name and release hold no `[`, `parse_id` recovers the market id from the label |
| Codec.SearchLabelsParse | inventory/app.py:164-178 | over a catalog with no `[` in the shown fields, every listed label parses back to the market id of its own result row |
| Codec.HeadingNoBracket | inventory/app.py:167-168 | when the title, join id, rarity, set name and release hold no `[`, neither does the text of the label before the tag |
| Codec.RarityParts | inventory/app.py:167-168 | a rarity made of a space-free code, a space and words has exactly that code and those words |
| Codec.BlueEyesCardId | inventory/app.py:167-168 | the rarity `EN001 Ultra Rare` has the code `EN001` and the words `Ultra Rare`, and with join id `LOB-EN001 P` it gives the card id `LOB-EN` |
| Codec.BlueEyesNoBracket | inventory/app.py:168 | the row with join id `LOB-EN001 P`, rarity `EN001 Ultra Rare` and market id `12345` has no `[` in its shown fields |
| Codec.BlueEyesParse | inventory/app.py:168-178 | `parse_id` of that row's label returns `12345` |
| Inventory.InventoryApp.constructor | inventory/app.py:26 | the window starts with an empty batch over the given catalog and ledger |
| Inventory.InventoryApp.AddSelected | inventory/app.py:187-208 | no selection, a label without `[` or an unknown market id leave the batch unchanged, and so do empty notes, checked after the lookup. Otherwise exactly one record is appended. Its fields are copied from the first catalog row: Item ID from join id, Market ID, Title, Set Name, Release from set release, Rarity, Price, then the quantity and notes. Earlier records and the ledger are unchanged, and every pending record keeps its quantity in 1..100 and its notes non-empty |
| Inventory.InventoryApp.DeleteRecord | inventory/app.py:270-276 | for a row in range (negative rows count from the end), the batch loses that record and keeps the others in order; a row out of range raises and changes nothing; the ledger is untouched |
| Inventory.InventoryApp.Save | inventory/app.py:219-236 | an empty batch changes nothing. An existing ledger becomes its old rows followed by the batch, and on failure stays as it was, with the batch cleared either way. A missing ledger becomes exactly the batch, and on failure stays missing with the batch kept. Existing rows are never removed or reordered |
| Inventory.InventoryApp.UpdatePrices | inventory/app.py:238-268 | a missing or unreadable ledger, a cancel polled before some row, a failed lookup or a failed write each leave the ledger unchanged, and the outcome names the first row that stopped the loop. A completed run keeps the row count and order and sets each row's Price to the first catalog row's price for its key; every other field is unchanged. The batch is untouched |
| Inventory.ItemIdLookupMisses | inventory/app.py:239-241 | as written, a row this program recorded is not found by its Item ID when no catalog join id is also a market id, although its Market ID is found |
| Inventory.MarketIdLookupFinds | inventory/app.py:239-241 | keyed by Market ID, every row this program recorded is found, so a price update that is not cancelled passes every row |
| Inventory.SelectedRecord | inventory/app.py:188-208 | selecting a row's label parses to its market id, `get_card` finds a row for it (the selected row when market ids are unique), and the record built from that row is found by a price update keyed by Market ID |
| Inventory.FirstFlush | inventory/app.py:187-236 | selecting a row's label, adding it and saving against a missing ledger gives a one-row ledger with that market id, quantity and notes; with unique market ids the row is exactly the record of the selected catalog row; a price update keyed by Market ID then completes |

## Left out

- The Qt window is not modelled: widget construction, layouts, shortcuts, `keyPressEvent`, `closeEvent`, signal handling and the `update_inventory_table` rendering (inventory/app.py:22-156, 211-217, 306-327). It is presentation only.
- Image loading, `on_item_clicked`, `on_selection_changed` and the recursive fallback to product `23009` (inventory/app.py:182-185, 278-297, 299-304) are not modelled. They are network I/O with no effect on the inventory state.
- Catalog.Search: SQLite's `LIKE '%query%'` is replaced by an abstract `matches` predicate on titles. Case folding and the unescaped `%`/`_` wildcards are not modelled.
- The xlsx reading and writing by pandas/openpyxl are not modelled. The ledger is the abstract table `Option<seq<Item>>`, and cells are assumed to read back as they were written. A failed write is modelled as leaving the ledger as it was, so a partly written file is not modelled.
- Inventory.InventoryApp.Save: one `ioFails` flag stands for any failure of the read, concatenation or write in the existing-ledger branch, or of the write in the create branch.
- The progress percentage `int((index + 1) / total_rows * 100)` (inventory/app.py:260) is not modelled. It is floating-point display only.
- Dialog texts and `print` output are not modelled.
- Inventory.InventoryApp.DeleteRecord: the row is a parameter rather than read from the table's selection, which is Qt widget state.
- Inventory.InventoryApp.AddSelected: the quantity is required to be in 1..100, the spin box's range (inventory/app.py:84). The notes are taken as one value, although the source reads `toPlainText()` twice.
- Codec.ParseId: only the default `tag_char` of `[` is modelled, because that is the only form the code calls.
- Market ids are strings. SQLite's type affinity, which lets a text id match an integer column in `get_card`, is not modelled. Prices are `real` and are only copied, never computed.
- Exceptions that escape a Qt slot are modelled as outcomes that leave the state unchanged. These are the `parse_id` and `get_card` errors in `update_inventory`, the failed create in `save_to_spreadsheet`, and a `del` out of range. PySide reports such exceptions and the window keeps running.

## Findings

| source | as written | input that shows it | evidently intended | confidence | as-written member | corrected member |
|---|---|---|---|---|---|---|
| inventory/app.py:239-241 | `get_price` passes the row's Item ID, which holds the catalog's join id, to `get_card`. `get_card` matches it against the `index_market` column | a catalog whose only row has join id `LOB-EN001` and market id `12345`. After this row is added and saved, the ledger row's Item ID `LOB-EN001` matches no market id, so the price update stops with NotFound at row 0 | look the row up by its Market ID column | medium, not executed | Inventory.ItemIdLookupMisses | Inventory.MarketIdLookupFinds |

`Inventory.InventoryApp.UpdatePrices` takes the lookup column as a parameter. The source's behaviour is `ItemIdColumn`, and the corrected one is `MarketIdColumn`, which `Inventory.FirstFlush` uses.
