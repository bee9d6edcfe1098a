/**
  The inventory window's state: the pending batch (`self.inventory`) and the
  spreadsheet ledger (`ygo_inventory.xlsx`), which is either absent or a
  table of rows with the batch's nine columns. The catalog is fixed.
  I/O failures and the progress dialog's cancel button are oracle inputs.
 */
module Inventory {
  import opened Wrappers
  import opened Catalog
  import opened Codec

  /**
    One pending record and one ledger row, with the columns in the order the
    record's keys are written: Item ID, Market ID, Quantity, Title, Set Name,
    Release, Rarity, Price, Notes.
   */
  datatype Item = Item(
    itemId: string,
    marketId: string,
    quantity: int,
    title: string,
    setName: string,
    release: string,
    rarity: string,
    price: real,
    notes: string)

  /** The quantity spin box's range. */
  const MIN_QUANTITY: int := 1
  const MAX_QUANTITY: int := 100

  /** What a record must satisfy to have been accepted into the batch. */
  predicate Accepted(item: Item) {
    MIN_QUANTITY <= item.quantity <= MAX_QUANTITY && item.notes != ""
  }

  /** The record `update_inventory` builds from a `get_card` row. */
  function Record(card: Product, quantity: int, notes: string): Item {
    Item(card.joinId, card.marketId, quantity, card.title, card.setName,
         card.setRelease, card.rarity, card.price, notes)
  }

  /** The cancel button as polled before row `i`; polls past the end of `cancels` read false. */
  predicate Polled(cancels: seq<bool>, i: nat) {
    i < |cancels| && cancels[i]
  }

  /**
    The ledger column whose value the price update looks up in the catalog's
    market-id column. `update_spreadsheet_prices` uses Item ID (the join id);
    Market ID is the column that holds market ids.
   */
  datatype PriceKey = ItemIdColumn | MarketIdColumn

  function LookupKey(row: Item, key: PriceKey): string {
    match key
    case ItemIdColumn => row.itemId
    case MarketIdColumn => row.marketId
  }

  /** Row `j` gets through the price loop: no cancel is seen before it and its key is found. */
  predicate Passes(catalog: seq<Product>, rows: seq<Item>, cancels: seq<bool>, key: PriceKey, j: nat)
    requires j < |rows|
  {
    !Polled(cancels, j) && GetCard(catalog, LookupKey(rows[j], key)).Some?
  }

  /** Row `row` with its price refreshed from the first catalog row for its key. */
  function Repriced(catalog: seq<Product>, row: Item, key: PriceKey): Item
    requires GetCard(catalog, LookupKey(row, key)).Some?
  {
    row.(price := GetCard(catalog, LookupKey(row, key)).value.price)
  }

  /** A ledger row written by `update_inventory` from one of the catalog's rows. */
  predicate Recorded(catalog: seq<Product>, row: Item) {
    exists i :: 0 <= i < |catalog| && row == Record(catalog[i], row.quantity, row.notes)
  }

  /**
    As written, the price update misses every row this program wrote when no
    join id of the catalog is also a market id (set codes against numeric
    market ids): each such row stops the update with NotFound.
   */
  lemma ItemIdLookupMisses(catalog: seq<Product>, rows: seq<Item>, cancels: seq<bool>, j: nat)
    requires forall p, q :: p in catalog && q in catalog ==> p.marketId != q.joinId
    requires j < |rows| && Recorded(catalog, rows[j])
    ensures !Passes(catalog, rows, cancels, ItemIdColumn, j)
    ensures GetCard(catalog, LookupKey(rows[j], MarketIdColumn)).Some?
  {}

  /**
    Keyed by Market ID, every row this program wrote is found, so an
    update that is not cancelled reaches the last row.
   */
  lemma MarketIdLookupFinds(catalog: seq<Product>, rows: seq<Item>, cancels: seq<bool>)
    requires forall j :: 0 <= j < |rows| ==> Recorded(catalog, rows[j]) && !Polled(cancels, j)
    ensures forall j :: 0 <= j < |rows| ==> Passes(catalog, rows, cancels, MarketIdColumn, j)
  {}

  datatype AddOutcome =
    | NoSelection    // no result is selected
    | Unparsable     // `parse_id` raised: the label has no `[`
    | UnknownCard    // `get_card` raised: no catalog row has that market id
    | MissingNotes   // the notes box is empty
    | Added

  datatype SaveOutcome =
    | NothingToSave  // the batch is empty
    | Appended       // rows appended to the existing ledger
    | AppendFailed   // reading or rewriting the existing ledger failed; the error is shown
    | Created        // the ledger was created from the batch
    | CreateFailed   // creating the ledger raised, out of the method

  datatype PriceOutcome =
    | Unreadable           // the ledger is absent or could not be read
    | Cancelled(row: nat)  // the cancel button was seen before this row
    | NotFound(row: nat)   // `get_card` raised for this row's Item ID
    | WriteFailed          // writing the updated table failed
    | Updated

  class InventoryApp {
    const catalog: seq<Product>
    var inventory: seq<Item>
    var ledger: Option<seq<Item>>

    /** Every pending record was accepted by `update_inventory`. */
    predicate Valid()
      reads this
    {
      forall item :: item in inventory ==> Accepted(item)
    }

    /** The window starts with an empty batch, over the catalog and whatever ledger is on disk. */
    constructor (catalog: seq<Product>, ledger: Option<seq<Item>>)
      ensures Valid()
      ensures this.catalog == catalog && this.ledger == ledger && inventory == []
    {
      this.catalog := catalog;
      this.ledger := ledger;
      inventory := [];
    }

    /**
      `update_inventory`: resolve the selected label to a catalog row, then
      append a record built from it if the notes are not empty. The lookup
      comes first, so its errors are raised even when the notes are empty.
     */
    method AddSelected(selected: Option<string>, quantity: int, notes: string) returns (outcome: AddOutcome)
      requires Valid()
      requires MIN_QUANTITY <= quantity <= MAX_QUANTITY
      modifies this
      ensures Valid()
      ensures ledger == old(ledger)
      ensures selected.None? ==> outcome == NoSelection
      ensures selected.Some? && ParseId(selected.value).None? ==> outcome == Unparsable
      ensures selected.Some? && ParseId(selected.value).Some? ==>
                var card := GetCard(catalog, ParseId(selected.value).value);
                if card.None? then outcome == UnknownCard
                else if notes == "" then outcome == MissingNotes
                else outcome == Added && inventory == old(inventory) + [Record(card.value, quantity, notes)]
      ensures outcome != Added ==> inventory == old(inventory)
    {
      if selected.None? {
        return NoSelection;
      }
      var id := ParseId(selected.value);
      if id.None? {
        return Unparsable;
      }
      var card := GetCard(catalog, id.value);
      if card.None? {
        return UnknownCard;
      }
      if notes == "" {
        return MissingNotes;
      }
      inventory := inventory + [Record(card.value, quantity, notes)];
      outcome := Added;
    }

    /**
      `delete_selected_record`: `del self.inventory[row]`, where a negative
      row counts from the end and a row out of range raises IndexError.
     */
    method DeleteRecord(row: int) returns (ok: bool)
      requires Valid()
      modifies this
      ensures Valid()
      ensures ledger == old(ledger)
      ensures ok <==> -|old(inventory)| <= row < |old(inventory)|
      ensures ok ==> var j := if row < 0 then |old(inventory)| + row else row;
                     inventory == old(inventory)[..j] + old(inventory)[j + 1..]
      ensures !ok ==> inventory == old(inventory)
    {
      ok := -|inventory| <= row < |inventory|;
      if ok {
        var j := if row < 0 then |inventory| + row else row;
        inventory := inventory[..j] + inventory[j + 1..];
      }
    }

    /**
      `save_to_spreadsheet`: nothing happens for an empty batch. An existing
      ledger is read, extended by the batch and rewritten; a failure there is
      caught and the batch is cleared all the same. A missing ledger is
      created from the batch; a failure there is not caught, so the batch
      stays. `ioFails` says whether the file operation fails.
     */
    method Save(ioFails: bool) returns (outcome: SaveOutcome)
      requires Valid()
      modifies this
      ensures Valid()
      ensures outcome == NothingToSave <==> old(inventory) == []
      ensures outcome == NothingToSave ==> inventory == old(inventory) && ledger == old(ledger)
      ensures old(inventory) != [] && old(ledger).Some? ==>
                outcome == (if ioFails then AppendFailed else Appended) && inventory == []
      ensures outcome == Appended ==> old(ledger).Some? && ledger == Some(old(ledger).value + old(inventory))
      ensures outcome == AppendFailed ==> ledger == old(ledger)
      ensures old(inventory) != [] && old(ledger).None? ==>
                outcome == (if ioFails then CreateFailed else Created)
      ensures outcome == Created ==> ledger == Some(old(inventory)) && inventory == []
      ensures outcome == CreateFailed ==> ledger == None && inventory == old(inventory)
      ensures old(ledger).Some? ==> ledger.Some? && old(ledger).value <= ledger.value
    {
      if |inventory| < 1 {
        return NothingToSave;
      }
      if ledger.Some? {
        if ioFails {
          outcome := AppendFailed;
        } else {
          ledger := Some(ledger.value + inventory);
          outcome := Appended;
        }
      } else {
        if ioFails {
          return CreateFailed;
        }
        ledger := Some(inventory);
        outcome := Created;
      }
      inventory := [];
    }

    /**
      `update_spreadsheet_prices`: read the ledger, and for each row in order
      poll the cancel button, then overwrite the row's Price with the catalog
      price found by `get_card` for its key column (Item ID in the source,
      `key == ItemIdColumn`). The table is written back
      only after the last row; a cancel, a failed lookup or a failed read or
      write leaves the ledger as it was.
     */
    method UpdatePrices(key: PriceKey, cancels: seq<bool>, readFails: bool, writeFails: bool) returns (outcome: PriceOutcome)
      requires Valid()
      modifies this
      ensures Valid() && inventory == old(inventory)
      ensures outcome == Unreadable <==> old(ledger).None? || readFails
      ensures outcome != Updated ==> ledger == old(ledger)
      ensures outcome.Cancelled? ==>
                var rows := old(ledger).value;
                outcome.row < |rows| && Polled(cancels, outcome.row)
                && forall j :: 0 <= j < outcome.row ==> Passes(catalog, rows, cancels, key, j)
      ensures outcome.NotFound? ==>
                var rows := old(ledger).value;
                outcome.row < |rows| && !Polled(cancels, outcome.row)
                && GetCard(catalog, LookupKey(rows[outcome.row], key)).None?
                && forall j :: 0 <= j < outcome.row ==> Passes(catalog, rows, cancels, key, j)
      ensures outcome == WriteFailed || outcome == Updated ==>
                (outcome == Updated <==> !writeFails)
                && forall j :: 0 <= j < |old(ledger).value| ==> Passes(catalog, old(ledger).value, cancels, key, j)
      ensures outcome == Updated ==>
                var rows := old(ledger).value;
                ledger.Some? && |ledger.value| == |rows|
                && forall j :: 0 <= j < |rows| ==>
                     Passes(catalog, rows, cancels, key, j) && ledger.value[j] == Repriced(catalog, rows[j], key)
    {
      if ledger.None? || readFails {
        return Unreadable;
      }
      var rows := ledger.value;
      var table := rows;
      var i := 0;
      while i < |table|
        invariant 0 <= i <= |table| == |rows|
        invariant forall j :: 0 <= j < i ==>
                    Passes(catalog, rows, cancels, key, j) && table[j] == Repriced(catalog, rows[j], key)
        invariant forall j :: i <= j < |rows| ==> table[j] == rows[j]
      {
        if Polled(cancels, i) {
          return Cancelled(i);
        }
        var card := GetCard(catalog, LookupKey(table[i], key));
        if card.None? {
          return NotFound(i);
        }
        table := table[i := table[i].(price := card.value.price)];
        i := i + 1;
      }
      if writeFails {
        return WriteFailed;
      }
      ledger := Some(table);
      outcome := Updated;
    }
  }

  /**
    Selecting the label of row `p` finds a catalog row for `p`'s market id,
    which is `p` when market ids are unique, and a price update keyed by
    Market ID passes the record built from it.
   */
  lemma SelectedRecord(catalog: seq<Product>, p: Product, quantity: int, notes: string)
    requires p in catalog && NoBracket(p)
    ensures ParseId(Label(p)) == Some(p.marketId)
    ensures GetCard(catalog, p.marketId).Some?
    ensures UniqueMarketIds(catalog) ==> GetCard(catalog, p.marketId).value == p
    ensures Passes(catalog, [Record(GetCard(catalog, p.marketId).value, quantity, notes)], [], MarketIdColumn, 0)
  {
    LabelRoundTrip(p);
    assert GetCard(catalog, p.marketId).Some?;
    var card := GetCard(catalog, p.marketId).value;
    var row := Record(card, quantity, notes);
    if UniqueMarketIds(catalog) {
      var i :| 0 <= i < |catalog| && catalog[i] == p;
      GetCardOwnRow(catalog, i);
    }
    assert Recorded(catalog, row) by {
      var k :| 0 <= k < |catalog| && catalog[k] == card;
    }
    MarketIdLookupFinds(catalog, [row], []);
  }

  /**
    A first session on a machine without a ledger: the user selects the
    label a search lists for row `p`, adds it and saves. The ledger then
    holds exactly one row, the record of the catalog row found for `p`'s
    market id, which is `p` itself when market ids are unique. A price
    update keyed by Market ID then runs to completion.
   */
  method FirstFlush(catalog: seq<Product>, p: Product, quantity: int, notes: string)
    returns (ledger: Option<seq<Item>>, priced: PriceOutcome)
    requires p in catalog && NoBracket(p)
    requires MIN_QUANTITY <= quantity <= MAX_QUANTITY && notes != ""
    ensures ledger.Some? && |ledger.value| == 1
    ensures var row := ledger.value[0];
            row.marketId == p.marketId && row.quantity == quantity && row.notes == notes
    ensures UniqueMarketIds(catalog) ==> ledger == Some([Record(p, quantity, notes)])
    ensures priced == Updated
  {
    SelectedRecord(catalog, p, quantity, notes);
    var row := Record(GetCard(catalog, p.marketId).value, quantity, notes);
    var app := new InventoryApp(catalog, None);
    var added := app.AddSelected(Some(Label(p)), quantity, notes);
    assert app.inventory == [row];
    var saved := app.Save(false);
    ledger := app.ledger;
    assert ledger == Some([row]);
    priced := app.UpdatePrices(MarketIdColumn, [], false, false);
  }
}
