/**
  The little of Python's `str` that the inventory code relies on.
  `s.split(sep, 1)` and `s[:stop]` have their Python meaning stated as a
  contract; `s.split(sep)` and `sep.join(parts)` have theirs fixed by the
  round trips `JoinSplit` and `SplitJoin`. `s.find(c)` is a helper the others
  are built on. Separators are single characters, as in every use the
  inventory code makes.
 */
module PyStr {
  import opened Wrappers

  /** `s.find(c)`: the index of the first `c` in `s`, `None` standing for -1. */
  function Find(s: string, c: char): (r: Option<nat>)
    ensures r.None? <==> c !in s
    ensures r.Some? ==> r.value < |s| && s[r.value] == c && c !in s[..r.value]
  {
    if |s| == 0 then None
    else if s[0] == c then Some(0)
    else match Find(s[1..], c)
      case None => None
      case Some(i) =>
        assert s[..i + 1] == [s[0]] + s[1..][..i];
        Some(i + 1)
  }

  /** A prefix free of `c` does not move the first `c` of what follows it. */
  lemma FindAfter(a: string, b: string, c: char)
    requires c !in a
    ensures Find(a + b, c) == match Find(b, c)
                              case None => None
                              case Some(j) => Some(|a| + j)
  {
    var s := a + b;
    match Find(b, c)
    case None =>
      assert c !in s;
    case Some(j) =>
      assert s[..|a| + j] == a + b[..j];
      assert s[|a| + j] == c;
  }

  /** `s.split(sep)`: the pieces of `s` between occurrences of `sep`, empty ones included. */
  function Split(s: string, sep: char): (r: seq<string>)
    ensures |r| == multiset(s)[sep] + 1
    ensures forall i :: 0 <= i < |r| ==> sep !in r[i]
    decreases |s|
  {
    match Find(s, sep)
    case None => [s]
    case Some(i) =>
      assert s == s[..i] + [sep] + s[i + 1..];
      assert multiset(s) == multiset(s[..i]) + multiset{sep} + multiset(s[i + 1..]);
      [s[..i]] + Split(s[i + 1..], sep)
  }

  /** `sep.join(parts)`: the parts in order with one `sep` between neighbours. */
  function Join(parts: seq<string>, sep: char): (r: string)
    ensures |parts| == 0 ==> r == ""
    ensures |parts| > 0 ==> parts[0] <= r
  {
    if |parts| == 0 then ""
    else if |parts| == 1 then parts[0]
    else parts[0] + [sep] + Join(parts[1..], sep)
  }

  /** Splitting and joining with the same separator gives the string back. */
  lemma {:induction false} JoinSplit(s: string, sep: char)
    ensures Join(Split(s, sep), sep) == s
    decreases |s|
  {
    match Find(s, sep)
    case None =>
    case Some(i) =>
      var rest := Split(s[i + 1..], sep);
      assert Split(s, sep) == [s[..i]] + rest;
      assert ([s[..i]] + rest)[1..] == rest;
      JoinSplit(s[i + 1..], sep);
      assert s == s[..i] + [sep] + s[i + 1..];
  }

  /** The first piece of a split is the text before the first separator; joining the others gives the text after it. */
  lemma SplitFirst(s: string, sep: char)
    ensures Find(s, sep).None? ==> Split(s, sep) == [s]
    ensures Find(s, sep).Some? ==>
              var i := Find(s, sep).value;
              Split(s, sep)[0] == s[..i] && Join(Split(s, sep)[1..], sep) == s[i + 1..]
  {
    if Find(s, sep).Some? {
      var i := Find(s, sep).value;
      assert Split(s, sep)[1..] == Split(s[i + 1..], sep);
      JoinSplit(s[i + 1..], sep);
    }
  }

  /** Joining pieces that hold no separator and splitting again gives the pieces back. */
  lemma {:induction false} SplitJoin(parts: seq<string>, sep: char)
    requires |parts| > 0
    requires forall i :: 0 <= i < |parts| ==> sep !in parts[i]
    ensures Split(Join(parts, sep), sep) == parts
  {
    if |parts| == 1 {
    } else {
      var tail := Join(parts[1..], sep);
      FindAfter(parts[0], [sep] + tail, sep);
      assert parts[0] + [sep] + tail == parts[0] + ([sep] + tail);
      var s := Join(parts, sep);
      assert Find(s, sep) == Some(|parts[0]|);
      assert s[..|parts[0]|] == parts[0];
      assert s[|parts[0]| + 1..] == tail;
      SplitJoin(parts[1..], sep);
    }
  }

  /** `s.split(sep, 1)`: the text before the first `sep` and, if there is one, the text after it. */
  function SplitOnce(s: string, sep: char): (r: seq<string>)
    ensures |r| == if sep in s then 2 else 1
    ensures sep !in r[0]
    ensures Join(r, sep) == s
  {
    match Find(s, sep)
    case None => [s]
    case Some(i) =>
      assert s == s[..i] + [sep] + s[i + 1..];
      [s[..i], s[i + 1..]]
  }

  /** `s[:stop]`, where a negative `stop` counts from the end and an oversized one is cut to `len(s)`. */
  function Prefix(s: string, stop: int): (r: string)
    ensures r <= s
    ensures 0 <= stop ==> |r| == if stop < |s| then stop else |s|
  {
    var n := |s|;
    var end := if stop < 0 then (if n + stop < 0 then 0 else n + stop)
               else if stop > n then n else stop;
    s[..end]
  }

  /** `s[:-n]`: since `-0` is `0`, dropping zero characters yields the empty string, as does dropping all of them. */
  function DropTail(s: string, n: nat): (r: string)
    ensures r <= s
    ensures |r| == if 0 < n < |s| then |s| - n else 0
  {
    Prefix(s, -(n as int))
  }
}
