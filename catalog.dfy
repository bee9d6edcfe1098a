/**
  The read-only product catalog (the `products` table of the SQLite file),
  abstracted as a sequence of rows in storage order.
 */
module Catalog {
  import opened Wrappers

  /**
    One `products` row, with the columns the inventory code selects.
    `get_card` returns them as the tuple
    (join_id, name, set_name, rarity, set_release, price, index_market),
    so its indices 0..6 are joinId, title, setName, rarity, setRelease,
    price and marketId.
   */
  datatype Product = Product(
    joinId: string,
    title: string,
    setName: string,
    setRelease: string,
    rarity: string,
    price: real,
    marketId: string)

  /**
    The search query: the rows whose title the `LIKE` pattern accepts, in
    storage order. What the pattern accepts is left abstract as `matches`.
   */
  function Search(catalog: seq<Product>, matches: string -> bool): (r: seq<Product>)
    ensures forall p :: p in r <==> p in catalog && matches(p.title)
    ensures |r| <= |catalog|
  {
    if |catalog| == 0 then []
    else
      var rest := Search(catalog[1..], matches);
      assert forall p :: p in catalog <==> p == catalog[0] || p in catalog[1..];
      if matches(catalog[0].title) then [catalog[0]] + rest else rest
  }

  /** Searching keeps storage order: the search of two runs of rows is their searches, in order. */
  lemma {:induction false} SearchConcat(a: seq<Product>, b: seq<Product>, matches: string -> bool)
    ensures Search(a + b, matches) == Search(a, matches) + Search(b, matches)
  {
    if |a| == 0 {
      assert a + b == b;
    } else {
      assert (a + b)[0] == a[0];
      assert (a + b)[1..] == a[1..] + b;
      SearchConcat(a[1..], b, matches);
    }
  }

  /** A pattern that accepts every title (the empty query) returns the whole catalog. */
  lemma {:induction false} SearchEverything(catalog: seq<Product>, matches: string -> bool)
    requires forall t :: matches(t)
    ensures Search(catalog, matches) == catalog
  {
    if |catalog| > 0 {
      SearchEverything(catalog[1..], matches);
      assert [catalog[0]] + catalog[1..] == catalog;
    }
  }

  /** The index of the first row, in storage order, whose market id is `marketId`. */
  function FirstMatch(catalog: seq<Product>, marketId: string): (r: Option<nat>)
    ensures r.None? <==> forall i :: 0 <= i < |catalog| ==> catalog[i].marketId != marketId
    ensures r.Some? ==> r.value < |catalog| && catalog[r.value].marketId == marketId
    ensures r.Some? ==> forall i :: 0 <= i < r.value ==> catalog[i].marketId != marketId
  {
    if |catalog| == 0 then None
    else if catalog[0].marketId == marketId then Some(0)
    else match FirstMatch(catalog[1..], marketId)
      case None => None
      case Some(i) => Some(i + 1)
  }

  /**
    `get_card(id)`: the query `WHERE index_market == id` and `fetchall()[0]`,
    which raises (`None` here) when no row matches.
   */
  function GetCard(catalog: seq<Product>, marketId: string): (r: Option<Product>)
    ensures r.None? <==> forall p :: p in catalog ==> p.marketId != marketId
    ensures r.Some? ==> r.value in catalog && r.value.marketId == marketId
    ensures r.Some? ==> exists i :: 0 <= i < |catalog| && catalog[i] == r.value &&
                          forall j :: 0 <= j < i ==> catalog[j].marketId != marketId
  {
    match FirstMatch(catalog, marketId)
    case None => None
    case Some(i) => Some(catalog[i])
  }

  /** Every market id names at most one row. */
  predicate UniqueMarketIds(catalog: seq<Product>) {
    forall i, j :: 0 <= i < j < |catalog| ==> catalog[i].marketId != catalog[j].marketId
  }

  /** With unique market ids, looking up a row's own market id finds that row. */
  lemma GetCardOwnRow(catalog: seq<Product>, i: nat)
    requires UniqueMarketIds(catalog)
    requires i < |catalog|
    ensures GetCard(catalog, catalog[i].marketId) == Some(catalog[i])
  {}
}
