/**
  The result label of `search_database` and its inverse `parse_id`: a
  catalog row is shown as
    `title (card_id)(rarity words from set name on release)[market id]`
  and the market id is read back from the selected label.
 */
module Codec {
  import opened Wrappers
  import opened PyStr
  import opened Catalog

  /** The character that opens the market-id tag (`tag_char`, whose length is 1). */
  const TAG_CHAR: char := '['

  /** `rarity.split(' ')[0]`: the rarity code, the longest space-free prefix of the rarity. */
  function RarityCode(rarity: string): (r: string)
    ensures r <= rarity
    ensures ' ' !in r
    ensures |r| < |rarity| ==> rarity[|r|] == ' '
  {
    Split(rarity, ' ')[0]
  }

  /** `' '.join(rarity.split(' ')[1:])`: what follows the first space of the rarity, if any. */
  function RarityWords(rarity: string): (r: string)
    ensures ' ' in rarity ==> rarity == RarityCode(rarity) + " " + r
    ensures ' ' !in rarity ==> r == ""
  {
    SplitFirst(rarity, ' ');
    Join(Split(rarity, ' ')[1..], ' ')
  }

  /**
    `item_id[:-len(rarity.split(' ')[0])]`: the join id less as many trailing
    characters as the rarity code has; Python's slice makes it empty when the
    code is empty or at least as long as the join id.
   */
  function CardId(joinId: string, rarity: string): (r: string)
    ensures r <= joinId
    ensures var k := |RarityCode(rarity)|;
            |r| == if 0 < k < |joinId| then |joinId| - k else 0
  {
    DropTail(joinId, |RarityCode(rarity)|)
  }

  /** The part of a row's label in front of the market-id tag. */
  function Heading(p: Product): string {
    p.title + " (" + CardId(p.joinId, p.rarity) + ")(" + RarityWords(p.rarity)
      + " from " + p.setName + " on " + p.setRelease + ")"
  }

  /** The label `search_database` lists for a catalog row. */
  function Label(p: Product): (r: string)
    ensures TAG_CHAR in r
  {
    var r := Heading(p) + [TAG_CHAR] + p.marketId + "]";
    assert r[|Heading(p)|] == TAG_CHAR;
    r
  }

  /** The labels of a search, one per result row, in the same order. */
  function SearchLabels(catalog: seq<Product>, matches: string -> bool): (r: seq<string>)
    ensures |r| == |Search(catalog, matches)|
    ensures forall i :: 0 <= i < |r| ==> TAG_CHAR in r[i]
  {
    var rows := Search(catalog, matches);
    seq(|rows|, i requires 0 <= i < |rows| => Label(rows[i]))
  }

  /**
    `parse_id`: `text.split('[', 1)[1]` less its last character. `None`
    stands for the IndexError raised when the text holds no `[`.
   */
  function ParseId(text: string): (r: Option<string>)
    ensures r.None? <==> TAG_CHAR !in text
  {
    var parts := SplitOnce(text, TAG_CHAR);
    if |parts| < 2 then None else Some(DropTail(parts[1], 1))
  }

  /** The result of `parse_id` on a text whose first `[` ends the prefix `a`. */
  lemma ParseAfterFirstTag(a: string, t: string)
    requires TAG_CHAR !in a
    ensures ParseId(a + [TAG_CHAR] + t) == Some(DropTail(t, 1))
  {
    var s := a + [TAG_CHAR] + t;
    assert s == a + ([TAG_CHAR] + t);
    FindAfter(a, [TAG_CHAR] + t, TAG_CHAR);
    assert s[|a| + 1..] == t;
  }

  /** `parse_id` returns exactly the market id iff the heading holds no `[`. */
  lemma LabelParse(p: Product)
    ensures ParseId(Label(p)) == Some(p.marketId) <==> TAG_CHAR !in Heading(p)
  {
    var h, m := Heading(p), p.marketId;
    var s := Label(p);
    assert s == h + [TAG_CHAR] + (m + "]");
    if TAG_CHAR !in h {
      ParseAfterFirstTag(h, m + "]");
      assert (m + "]")[..|m|] == m;
    } else {
      var w :| 0 <= w < |h| && h[w] == TAG_CHAR;
      var k := Find(s, TAG_CHAR).value;
      assert s[w] == TAG_CHAR;
      assert k <= w;
      assert SplitOnce(s, TAG_CHAR)[1] == s[k + 1..];
      assert |DropTail(s[k + 1..], 1)| == |h| + |m| - k;
    }
  }

  /** A row none of whose shown fields holds `[`. */
  predicate NoBracket(p: Product) {
    TAG_CHAR !in p.title && TAG_CHAR !in p.joinId && TAG_CHAR !in p.rarity
    && TAG_CHAR !in p.setName && TAG_CHAR !in p.setRelease
  }

  /** With no `[` in the shown fields, the heading of the label holds none either. */
  lemma HeadingNoBracket(p: Product)
    requires NoBracket(p)
    ensures TAG_CHAR !in Heading(p)
  {
    var c := CardId(p.joinId, p.rarity);
    assert TAG_CHAR !in c by {
      assert c == p.joinId[..|c|];
    }
    var w := RarityWords(p.rarity);
    assert TAG_CHAR !in w by {
      if ' ' in p.rarity {
        assert p.rarity == RarityCode(p.rarity) + " " + w;
      }
    }
    var h1 := p.title + " (" + c;
    assert TAG_CHAR !in h1;
    var h2 := h1 + ")(" + w;
    assert TAG_CHAR !in h2;
    var h3 := h2 + " from " + p.setName;
    assert TAG_CHAR !in h3;
    var h4 := h3 + " on " + p.setRelease + ")";
    assert TAG_CHAR !in h4;
    assert Heading(p) == h4;
  }

  /** The round trip the selection relies on: `parse_id` recovers the market id from a row's label. */
  lemma LabelRoundTrip(p: Product)
    requires NoBracket(p)
    ensures ParseId(Label(p)) == Some(p.marketId)
  {
    HeadingNoBracket(p);
    LabelParse(p);
  }

  /** Every label a search lists parses back to the market id of its row. */
  lemma SearchLabelsParse(catalog: seq<Product>, matches: string -> bool, i: nat)
    requires forall p :: p in catalog ==> NoBracket(p)
    requires i < |SearchLabels(catalog, matches)|
    ensures ParseId(SearchLabels(catalog, matches)[i]) == Some(Search(catalog, matches)[i].marketId)
  {
    LabelRoundTrip(Search(catalog, matches)[i]);
  }

  /** A rarity made of a space-free code, a space and words splits back into that code and those words. */
  lemma RarityParts(code: string, words: string)
    requires ' ' !in code
    ensures RarityCode(code + " " + words) == code
    ensures RarityWords(code + " " + words) == words
  {
    var rarity := code + " " + words;
    assert rarity == code + ([' '] + words);
    FindAfter(code, [' '] + words, ' ');
    SplitFirst(rarity, ' ');
    assert rarity[..|code|] == code;
    assert rarity[|code| + 1..] == words;
  }

  /**
    The join id `LOB-EN001 P` with the rarity `EN001 Ultra Rare` gives the
    card id `LOB-EN`: five characters, as many as the code `EN001` has, are
    dropped. The rarity words shown are `Ultra Rare`.
   */
  lemma BlueEyesCardId()
    ensures RarityCode("EN001" + " " + "Ultra Rare") == "EN001"
    ensures CardId("LOB-EN001 P", "EN001" + " " + "Ultra Rare") == "LOB-EN"
    ensures RarityWords("EN001" + " " + "Ultra Rare") == "Ultra Rare"
  {
    RarityParts("EN001", "Ultra Rare");
    var joinId := "LOB-EN001 P";
    assert DropTail(joinId, 5) == joinId[..6];
  }

  /** A catalog row with join id `LOB-EN001 P`, rarity `EN001 Ultra Rare` and market id `12345`. */
  function BlueEyes(): Product {
    Product("LOB-EN001 P", "Blue-Eyes White Dragon", "Legend of Blue Eyes",
            "2002-03-08", "EN001 Ultra Rare", 9.99, "12345")
  }

  /** No shown field of that row holds `[`. */
  lemma BlueEyesNoBracket()
    ensures NoBracket(BlueEyes())
  {
    var p := BlueEyes();
    assert forall i | 0 <= i < |p.title| :: p.title[i] != TAG_CHAR;
    assert forall i | 0 <= i < |p.joinId| :: p.joinId[i] != TAG_CHAR;
    assert forall i | 0 <= i < |p.rarity| :: p.rarity[i] != TAG_CHAR;
    assert forall i | 0 <= i < |p.setName| :: p.setName[i] != TAG_CHAR;
    assert forall i | 0 <= i < |p.setRelease| :: p.setRelease[i] != TAG_CHAR;
  }

  /** The label of that row parses back to `12345`. */
  lemma BlueEyesParse()
    ensures ParseId(Label(BlueEyes())) == Some("12345")
  {
    BlueEyesNoBracket();
    LabelRoundTrip(BlueEyes());
  }
}
