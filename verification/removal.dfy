/**
 * The pattern `remove_peer` builds for one name, and `subn` with an empty
 * replacement, read over the lines of the document.
 *
 * The pattern is `\n?# =+\n# ClientName: <name, escaped>\n# AddedAt: .+?\n# =+\n\[Peer\]\n.*?`
 * followed by the same look-ahead as the block pattern. It is not anchored: its
 * opening `# =+` may be the tail of a longer line. When that banner is a whole line
 * that has a line before it, the optional `\n` takes the preceding line break too.
 */
module Removal {
  import opened Wrappers
  import opened Text
  import opened PeerBlock

  /** The first index of `line`, from `k` on, where a tail `# =+` that ends the line starts. */
  function BannerTail(line: string, k: nat): (r: Option<nat>)
    requires k <= |line|
    ensures r.Some? ==> k <= r.value < |line| && IsBanner(line[r.value..])
    ensures r.None? ==> forall t | k <= t <= |line| :: !IsBanner(line[t..])
    ensures r.Some? ==> forall t | k <= t < r.value :: !IsBanner(line[t..])
    decreases |line| - k
  {
    if k == |line| then None
    else if IsBanner(line[k..]) then Some(k)
    else BannerTail(line, k + 1)
  }

  /**
   * The pattern for the name whose lines are `nameLines` (`# ClientName: <name>`
   * split at line breaks), tried on line `i`: where the match starts inside the line
   * and the line where the matched text stops (it ends just before that line's
   * preceding line break), or None.
   */
  function RemoveAt(L: seq<string>, i: nat, nameLines: seq<string>): (r: Option<(nat, nat)>)
    requires i < |L|
    ensures r.Some? ==> i + |nameLines| + 5 <= r.value.1 <= |L|
    ensures r.Some? ==> r.value.0 < |L[i]| && IsBanner(L[i][r.value.0..])
    ensures r.Some? ==> L[i + 1..i + 1 + |nameLines|] == nameLines
  {
    match BannerTail(L[i], 0)
    case None => None
    case Some(s) =>
      var a := i + 1 + |nameLines|;
      if a < |L| && L[i + 1..a] == nameLines && StartsWith(L[a], DATE_TAG) then
        match DateEnd(L, a, a)
        case None => None
        case Some(q) => Some((s, BodyEnd(L, q + 4)))
      else None
  }

  /**
   * The lines left after `subn` removes every match from line `c` on. A match whose
   * banner is a whole line after the first takes the line break before it, so
   * nothing is left of its first line; otherwise the text before the banner stays.
   */
  function Kept(L: seq<string>, c: nat, nameLines: seq<string>): seq<string>
    requires c <= |L|
    decreases |L| - c
  {
    if c == |L| then []
    else
      match RemoveAt(L, c, nameLines)
      case None => [L[c]] + Kept(L, c + 1, nameLines)
      case Some((s, j)) => (if s == 0 && c > 0 then [] else [L[c][..s]]) + Kept(L, j, nameLines)
  }

  /** The number of matches `subn` reports from line `c` on. */
  function Count(L: seq<string>, c: nat, nameLines: seq<string>): nat
    requires c <= |L|
    decreases |L| - c
  {
    if c == |L| then 0
    else
      match RemoveAt(L, c, nameLines)
      case None => Count(L, c + 1, nameLines)
      case Some((_, j)) => 1 + Count(L, j, nameLines)
  }

  /** With no match, `subn` leaves every line as it is. */
  lemma {:induction false} KeptNoMatch(L: seq<string>, c: nat, nameLines: seq<string>)
    requires c <= |L|
    requires Count(L, c, nameLines) == 0
    ensures Kept(L, c, nameLines) == L[c..]
    decreases |L| - c
  {
    if c < |L| {
      KeptNoMatch(L, c + 1, nameLines);
      assert L[c..] == [L[c]] + L[c + 1..];
    }
  }

  /** Lines where no match starts are kept as they are. */
  lemma {:induction false} KeptSkip(L: seq<string>, c: nat, d: nat, nameLines: seq<string>)
    requires c <= d <= |L|
    requires forall k | c <= k < d :: RemoveAt(L, k, nameLines).None?
    ensures Kept(L, c, nameLines) == L[c..d] + Kept(L, d, nameLines)
    decreases d - c
  {
    if c < d {
      assert L[c..d] == [L[c]] + L[c + 1..d];
      KeptLine(L, c, nameLines);
      KeptSkip(L, c + 1, d, nameLines);
      ConsAppend(L[c], L[c + 1..d], Kept(L, d, nameLines));
    }
  }

  /** A line where no match starts is kept whole. */
  lemma KeptLine(L: seq<string>, c: nat, nameLines: seq<string>)
    requires c < |L| && RemoveAt(L, c, nameLines).None?
    ensures Kept(L, c, nameLines) == [L[c]] + Kept(L, c + 1, nameLines)
  {
  }

  /** Lines where no match starts count for nothing. */
  lemma {:induction false} CountSkip(L: seq<string>, c: nat, d: nat, nameLines: seq<string>)
    requires c <= d <= |L|
    requires forall k | c <= k < d :: RemoveAt(L, k, nameLines).None?
    ensures Count(L, c, nameLines) == Count(L, d, nameLines)
    decreases d - c
  {
    if c < d {
      CountLine(L, c, nameLines);
      CountSkip(L, c + 1, d, nameLines);
    }
  }

  /** A line where no match starts adds nothing to the count. */
  lemma CountLine(L: seq<string>, c: nat, nameLines: seq<string>)
    requires c < |L| && RemoveAt(L, c, nameLines).None?
    ensures Count(L, c, nameLines) == Count(L, c + 1, nameLines)
  {
  }

  /** The name's pattern, cut at line breaks, is the single line `# ClientName: <name>`. */
  lemma NameLines(name: string)
    requires '\n' !in name
    ensures Split(NAME_TAG + name, '\n') == [NAME_TAG + name]
  {
    assert '\n' !in NAME_TAG + name;
    assert IndexOf(NAME_TAG + name, '\n') == |NAME_TAG + name|;
  }

  /** No match starts on a line that is not followed by the name's own line. */
  lemma NoMatchWithoutName(L: seq<string>, i: nat, nameLine: string)
    requires i < |L|
    requires i + 1 == |L| || L[i + 1] != nameLine
    ensures RemoveAt(L, i, [nameLine]).None?
  {
    if i + 1 < |L| {
      assert L[i + 1..i + 2] == [L[i + 1]];
    }
  }

  /** `remove_peer`'s rewrite of the whole document: the new text and the match count. */
  function RemoveText(content: string, name: string): (string, nat)
  {
    var L := Split(content, '\n');
    var nl := Split(NAME_TAG + name, '\n');
    (Join(Kept(L, 0, nl), '\n'), Count(L, 0, nl))
  }

  /** When nothing matches, the rewrite gives back the document unchanged. */
  lemma RemoveNothing(content: string, name: string)
    requires RemoveText(content, name).1 == 0
    ensures RemoveText(content, name).0 == content
  {
    var L := Split(content, '\n');
    KeptNoMatch(L, 0, Split(NAME_TAG + name, '\n'));
    assert L[0..] == L;
  }
}
