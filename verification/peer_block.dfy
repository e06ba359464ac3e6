/**
 * The comment-delimited peer block of wg0.conf: its grammar (the multi-line
 * `PEER_PATTERN` of the parser, read over the lines of the document), the field
 * search inside a block body, the decoder and the encoder `generate_peer_block`.
 *
 * A block is: a banner line `# ====…`, `# ClientName: <name>`, `# AddedAt: <date>`,
 * another banner, `[Peer]`, then a body that runs up to the next line starting
 * `# =` or to the end of the document.
 */
module PeerBlock {
  import opened Wrappers
  import opened Text

  /** The banner line the encoder writes: "# " and 42 '=' signs. */
  const BANNER: string := "# =========================================="
  const NAME_TAG: string := "# ClientName: "
  const DATE_TAG: string := "# AddedAt: "
  const PEER_LINE: string := "[Peer]"
  /** Where a block body stops: the lookahead `\n# =+`. */
  const STOP: string := "# ="

  /** A peer as the parser returns it; the last three fields are runtime statistics. */
  datatype Peer = Peer(
    name: string,
    publicKey: string,
    allowedIps: string,
    addedAt: string,
    endpoint: Option<string>,
    presharedKey: Option<string>,
    latestHandshake: Option<int>,
    transferRx: Option<int>,
    transferTx: Option<int>)

  /** One match of the block pattern: its three groups (name, date, body), before decoding. */
  datatype RawBlock = RawBlock(name: string, addedAt: string, body: string)

  /** A whole line matching `# =+`. */
  predicate IsBanner(line: string) {
    |line| >= 3 && line[..2] == "# " && forall i | 2 <= i < |line| :: line[i] == '='
  }

  /**
   * The lazy date group: the first line `q` (at or after the `# AddedAt:` line `a`)
   * after which come a banner, `[Peer]` and at least one more line; the date must
   * not be empty.
   */
  function DateEnd(L: seq<string>, a: nat, q: nat): (r: Option<nat>)
    requires a < |L| && a <= q
    ensures r.Some? ==> q <= r.value && r.value + 3 < |L|
    ensures r.Some? ==> IsBanner(L[r.value + 1]) && L[r.value + 2] == PEER_LINE
    ensures r.Some? ==> r.value > a || |L[a]| > |DATE_TAG|
    decreases |L| - q
  {
    if q + 3 >= |L| then None
    else if IsBanner(L[q + 1]) && L[q + 2] == PEER_LINE && (q > a || |L[a]| > |DATE_TAG|) then Some(q)
    else DateEnd(L, a, q + 1)
  }

  /**
   * The lazy name group of a header whose banner is line `i`: the first line `m`
   * followed by a `# AddedAt:` line for which a date end exists; the name must not
   * be empty.
   */
  function NameEnd(L: seq<string>, i: nat, m: nat): (r: Option<nat>)
    requires i + 1 <= m
    ensures r.Some? ==> m <= r.value && r.value + 1 < |L|
    ensures r.Some? ==> StartsWith(L[r.value + 1], DATE_TAG)
    ensures r.Some? ==> r.value > i + 1 || (i + 1 < |L| && |L[i + 1]| > |NAME_TAG|)
    ensures r.Some? ==> DateEnd(L, r.value + 1, r.value + 1).Some?
    decreases |L| - m
  {
    if m + 1 >= |L| then None
    else if StartsWith(L[m + 1], DATE_TAG) && (m > i + 1 || |L[i + 1]| > |NAME_TAG|)
            && DateEnd(L, m + 1, m + 1).Some?
    then Some(m)
    else NameEnd(L, i, m + 1)
  }

  /** Line `q` may end the date group that starts on line `a`. */
  predicate DateStop(L: seq<string>, a: nat, q: nat)
    requires a < |L| && a <= q
  {
    q + 3 < |L| && IsBanner(L[q + 1]) && L[q + 2] == PEER_LINE && (q > a || |L[a]| > |DATE_TAG|)
  }

  /** The date group is lazy: `DateEnd` is the first stopping line at or after `q`, and None when there is none. */
  lemma {:induction false} DateEndFirst(L: seq<string>, a: nat, q: nat)
    requires a < |L| && a <= q
    ensures DateEnd(L, a, q).Some? ==> DateStop(L, a, DateEnd(L, a, q).value)
    ensures DateEnd(L, a, q).Some? ==>
      forall q' | q <= q' < DateEnd(L, a, q).value :: !DateStop(L, a, q')
    ensures DateEnd(L, a, q).None? ==> forall q' | q <= q' :: !DateStop(L, a, q')
    decreases |L| - q
  {
    if q + 3 < |L| && !DateStop(L, a, q) {
      DateEndFirst(L, a, q + 1);
    }
  }

  /** Line `m` may end the name group of the header whose banner is line `i`. */
  predicate NameStop(L: seq<string>, i: nat, m: nat)
    requires i + 1 <= m
  {
    m + 1 < |L| && StartsWith(L[m + 1], DATE_TAG) && (m > i + 1 || |L[i + 1]| > |NAME_TAG|)
    && DateEnd(L, m + 1, m + 1).Some?
  }

  /** The name group is lazy: `NameEnd` is the first stopping line at or after `m`, and None when there is none. */
  lemma {:induction false} NameEndFirst(L: seq<string>, i: nat, m: nat)
    requires i + 1 <= m
    ensures NameEnd(L, i, m).Some? ==> NameStop(L, i, NameEnd(L, i, m).value)
    ensures NameEnd(L, i, m).Some? ==>
      forall m' | m <= m' < NameEnd(L, i, m).value :: !NameStop(L, i, m')
    ensures NameEnd(L, i, m).None? ==> forall m' | m <= m' :: !NameStop(L, i, m')
    decreases |L| - m
  {
    if m + 1 < |L| && !NameStop(L, i, m) {
      NameEndFirst(L, i, m + 1);
    }
  }

  /** The first line at or after `j` that starts `# =`, or the end of the document. */
  function BodyEnd(L: seq<string>, j: nat): (r: nat)
    requires j <= |L|
    ensures j <= r <= |L|
    ensures r < |L| ==> StartsWith(L[r], STOP)
    ensures forall k | j <= k < r :: !StartsWith(L[k], STOP)
    decreases |L| - j
  {
    if j == |L| then j
    else if StartsWith(L[j], STOP) then j
    else BodyEnd(L, j + 1)
  }

  /**
   * The block pattern tried at the start of line `i`: the groups and the line where
   * the match ends (the body stops before it), or None when no match starts there.
   */
  function BlockAt(L: seq<string>, i: nat): (r: Option<(RawBlock, nat)>)
    requires i < |L|
    ensures r.Some? ==> i + 6 <= r.value.1 <= |L|
    ensures r.Some? ==> IsBanner(L[i]) && i + 1 < |L| && StartsWith(L[i + 1], NAME_TAG)
  {
    if IsBanner(L[i]) && i + 1 < |L| && StartsWith(L[i + 1], NAME_TAG) then
      match NameEnd(L, i, i + 1)
      case None => None
      case Some(m) =>
        var q := DateEnd(L, m + 1, m + 1).value;
        var b := q + 3;
        var j := BodyEnd(L, b + 1);
        var name := Join([L[i + 1][|NAME_TAG|..]] + L[i + 2..m + 1], '\n');
        var date := Join([L[m + 1][|DATE_TAG|..]] + L[m + 2..q + 1], '\n');
        Some((RawBlock(name, date, Join(L[b..j], '\n')), j))
    else None
  }

  /** A block whose name and date take one line each: its parts read straight off those lines. */
  lemma BlockAtSingle(L: seq<string>, i: nat, j: nat)
    requires i + 6 <= |L| && IsBanner(L[i]) && StartsWith(L[i + 1], NAME_TAG)
    requires NameEnd(L, i, i + 1) == Some(i + 1) && DateEnd(L, i + 2, i + 2) == Some(i + 2)
    requires BodyEnd(L, i + 6) == j
    ensures BlockAt(L, i)
         == Some((RawBlock(L[i + 1][|NAME_TAG|..], L[i + 2][|DATE_TAG|..], Join(L[i + 5..j], '\n')), j))
  {
    assert [L[i + 1][|NAME_TAG|..]] + L[i + 2..i + 2] == [L[i + 1][|NAME_TAG|..]];
    assert [L[i + 2][|DATE_TAG|..]] + L[i + 3..i + 3] == [L[i + 2][|DATE_TAG|..]];
  }

  /** `finditer`: the successive non-overlapping matches from line `c` on. */
  function Blocks(L: seq<string>, c: nat): seq<RawBlock>
    requires c <= |L|
    decreases |L| - c
  {
    if c == |L| then []
    else
      match BlockAt(L, c)
      case Some((b, j)) => [b] + Blocks(L, j)
      case None => Blocks(L, c + 1)
  }

  /** Lines where no match can start contribute no blocks. */
  lemma {:induction false} BlocksSkip(L: seq<string>, c: nat, d: nat)
    requires c <= d <= |L|
    requires forall k | c <= k < d :: BlockAt(L, k).None?
    ensures Blocks(L, c) == Blocks(L, d)
    decreases d - c
  {
    if c < d {
      assert BlockAt(L, c).None?;
      BlocksNone(L, c);
      BlocksSkip(L, c + 1, d);
    }
  }

  /** `finditer` moves on by one line where no match starts. */
  lemma BlocksNone(L: seq<string>, c: nat)
    requires c < |L| && BlockAt(L, c).None?
    ensures Blocks(L, c) == Blocks(L, c + 1)
  {
  }

  // ---------------------------------------------------------------------------
  // Fields inside a block body: `re.search(r"<Key>\s*=\s*(.+)", body)`, stripped.
  // ---------------------------------------------------------------------------

  const PUBKEY_KEY: string := "PublicKey"
  const ALLOWED_IPS_KEY: string := "AllowedIPs"
  const ENDPOINT_KEY: string := "Endpoint"
  const PRESHARED_KEY_KEY: string := "PresharedKey"

  /** The index after the whitespace run starting at `p` (a greedy `\s*`). */
  function SkipSpace(s: string, p: nat): (r: nat)
    requires p <= |s|
    ensures p <= r <= |s|
    ensures forall k | p <= k < r :: IsSpace(s[k])
    ensures r < |s| ==> !IsSpace(s[r])
    decreases |s| - p
  {
    if p < |s| && IsSpace(s[p]) then SkipSpace(s, p + 1) else p
  }

  /** The end of the line holding index `p`: a `.+` stops before a line break. */
  function LineEnd(s: string, p: nat): (r: nat)
    requires p <= |s|
    ensures p <= r <= |s|
    ensures r < |s| ==> s[r] == '\n'
    ensures forall k | p <= k < r :: s[k] != '\n'
    decreases |s| - p
  {
    if p == |s| || s[p] == '\n' then p else LineEnd(s, p + 1)
  }

  /**
   * The field pattern tried at index `x`: the stripped group, or None. When only
   * whitespace follows the `=` up to the end of the body, the engine backs off into
   * that whitespace: the group is then whitespace, "" once stripped, unless every
   * one of those characters is a line break.
   */
  function FieldAt(s: string, key: string, x: nat): (r: Option<string>)
    requires x <= |s|
    ensures r.Some? ==> OccursAt(s, key, x) && Stripped(r.value) && '\n' !in r.value
  {
    if !OccursAt(s, key, x) then None
    else
      var p1 := SkipSpace(s, x + |key|);
      if p1 == |s| || s[p1] != '=' then None
      else
        var p2 := SkipSpace(s, p1 + 1);
        if p2 < |s| then
          var line := s[p2..LineEnd(s, p2)];
          assert '\n' !in line;
          StripKeepsOut(line, '\n');
          Some(Strip(line))
        else if exists t | p1 + 1 <= t < |s| :: s[t] != '\n' then Some("")
        else None
  }

  /** `re.search` from index `x`: the first index where the field pattern matches. */
  function Search(s: string, key: string, x: nat): (r: Option<string>)
    requires x <= |s| + 1
    ensures r.Some? ==> Stripped(r.value) && '\n' !in r.value
    decreases |s| + 1 - x
  {
    if x > |s| then None
    else
      match FieldAt(s, key, x)
      case Some(v) => Some(v)
      case None => Search(s, key, x + 1)
  }

  /** The trimming the parser applies: every text field of a decoded peer is stripped. */
  predicate Trimmed(p: Peer) {
    && Stripped(p.name) && Stripped(p.publicKey) && Stripped(p.allowedIps) && Stripped(p.addedAt)
    && (p.endpoint.Some? ==> Stripped(p.endpoint.value))
    && (p.presharedKey.Some? ==> Stripped(p.presharedKey.value))
  }

  /**
   * One match turned into a peer: kept only when both `PublicKey` and `AllowedIPs`
   * are found; the optional fields are None exactly when their pattern does not
   * match anywhere in the body. No runtime statistics yet.
   */
  function DecodeBlock(b: RawBlock): (r: Option<Peer>)
    ensures r.Some? ==> Trimmed(r.value)
    ensures r.Some? ==> r.value.latestHandshake.None? && r.value.transferRx.None? && r.value.transferTx.None?
  {
    match (Search(b.body, PUBKEY_KEY, 0), Search(b.body, ALLOWED_IPS_KEY, 0))
    case (Some(pk), Some(ips)) =>
      Some(Peer(Strip(b.name), pk, ips, Strip(b.addedAt),
                Search(b.body, ENDPOINT_KEY, 0), Search(b.body, PRESHARED_KEY_KEY, 0),
                None, None, None))
    case _ => None
  }

  /**
   * A match is dropped exactly when `PublicKey` or `AllowedIPs` is missing from its
   * body; otherwise every field of the peer is the body's first value for its key,
   * and the name and date are the stripped groups.
   */
  lemma DecodeBlockFields(b: RawBlock)
    ensures DecodeBlock(b).None? <==>
      Search(b.body, PUBKEY_KEY, 0).None? || Search(b.body, ALLOWED_IPS_KEY, 0).None?
    ensures DecodeBlock(b).Some? ==>
      var p := DecodeBlock(b).value;
      && Some(p.publicKey) == Search(b.body, PUBKEY_KEY, 0)
      && Some(p.allowedIps) == Search(b.body, ALLOWED_IPS_KEY, 0)
      && p.endpoint == Search(b.body, ENDPOINT_KEY, 0)
      && p.presharedKey == Search(b.body, PRESHARED_KEY_KEY, 0)
      && p.name == Strip(b.name) && p.addedAt == Strip(b.addedAt)
  {
  }

  /** The peers of a list of matches, in order, skipping the matches that do not decode. */
  function DecodeAll(bs: seq<RawBlock>): (r: seq<Peer>)
    ensures |r| <= |bs|
    ensures forall i | 0 <= i < |r| :: Trimmed(r[i])
  {
    if |bs| == 0 then []
    else
      var d := DecodeBlock(bs[0]);
      var rest := DecodeAll(bs[1..]);
      if d.Some? then
        var r := [d.value] + rest;
        assert forall i | 1 <= i < |r| :: r[i] == rest[i - 1];
        r
      else rest
  }

  /** Decoding is block by block: a block that is skipped does not disturb the others. */
  lemma {:induction false} DecodeAllAppend(a: seq<RawBlock>, b: seq<RawBlock>)
    ensures DecodeAll(a + b) == DecodeAll(a) + DecodeAll(b)
    decreases |a|
  {
    if |a| > 0 {
      assert (a + b)[0] == a[0];
      assert (a + b)[1..] == a[1..] + b;
      DecodeAllAppend(a[1..], b);
    } else {
      assert a + b == b;
    }
  }

  /** Decoding one more block adds that block's peer, if it decodes, at the end. */
  lemma DecodeAllNext(bs: seq<RawBlock>, i: nat)
    requires i < |bs|
    ensures DecodeAll(bs[..i + 1])
         == DecodeAll(bs[..i]) + (if DecodeBlock(bs[i]).Some? then [DecodeBlock(bs[i]).value] else [])
  {
    assert bs[..i + 1] == bs[..i] + [bs[i]];
    DecodeAllAppend(bs[..i], [bs[i]]);
    assert [bs[i]][1..] == [];
  }

  /** What `parse_peers(content)` returns: every match of the block pattern, decoded, in document order. */
  function ParsedPeers(content: string): (r: seq<Peer>)
    ensures forall i | 0 <= i < |r| :: Trimmed(r[i])
  {
    DecodeAll(Blocks(Split(content, '\n'), 0))
  }

  /** `parse_peers` on a text is decoding the blocks found in its lines. */
  lemma ParsedOf(content: string, L: seq<string>)
    requires Split(content, '\n') == L
    ensures ParsedPeers(content) == DecodeAll(Blocks(L, 0))
  {
  }

  // ---------------------------------------------------------------------------
  // The field search, pinned down on the lines the encoder writes.
  // ---------------------------------------------------------------------------

  /** `SkipSpace` is determined by where the whitespace run ends. */
  lemma {:induction false} SkipSpaceAt(s: string, p: nat, r: nat)
    requires p <= r <= |s|
    requires forall k | p <= k < r :: IsSpace(s[k])
    requires r < |s| ==> !IsSpace(s[r])
    ensures SkipSpace(s, p) == r
    decreases r - p
  {
    if p < r {
      SkipSpaceAt(s, p + 1, r);
    }
  }

  /** `LineEnd` is determined by where the next line break is. */
  lemma {:induction false} LineEndAt(s: string, p: nat, r: nat)
    requires p <= r <= |s|
    requires forall k | p <= k < r :: s[k] != '\n'
    requires r < |s| ==> s[r] == '\n'
    ensures LineEnd(s, p) == r
    decreases r - p
  {
    if p < r {
      LineEndAt(s, p + 1, r);
    }
  }

  /** A value the encoder can write so that the decoder reads it back unchanged. */
  ghost predicate CleanValue(v: string) {
    |v| > 0 && Stripped(v) && '\n' !in v
  }

  /**
   * A value that, besides, holds none of the keys searched after `PublicKey`: the
   * first match of each pattern is then on the line written for it.
   */
  ghost predicate CleanField(v: string) {
    CleanValue(v) && Free(v, ALLOWED_IPS_KEY) && Free(v, PRESHARED_KEY_KEY) && Free(v, ENDPOINT_KEY)
  }

  /** The field pattern where the text reads `<key> = <value>` and a line break. */
  lemma FieldAtIndex(s: string, key: string, x: nat, v: string)
    requires x + |key| + 3 + |v| < |s|
    requires s[x..x + |key|] == key
    requires s[x + |key|] == ' ' && s[x + |key| + 1] == '=' && s[x + |key| + 2] == ' '
    requires s[x + |key| + 3..x + |key| + 3 + |v|] == v && s[x + |key| + 3 + |v|] == '\n'
    requires CleanValue(v)
    ensures FieldAt(s, key, x) == Some(v)
  {
    var p1 := x + |key| + 1;
    var p2 := p1 + 2;
    var e := p2 + |v|;
    assert OccursAt(s, key, x);
    assert SkipSpace(s, x + |key|) == p1 by {
      SkipSpaceAt(s, x + |key|, p1);
    }
    assert SkipSpace(s, p1 + 1) == p2 by {
      assert s[p2] == v[0];
      SkipSpaceAt(s, p1 + 1, p2);
    }
    assert LineEnd(s, p2) == e by {
      forall k | p2 <= k < e ensures s[k] != '\n' {
        assert s[k] == v[k - p2];
      }
      LineEndAt(s, p2, e);
    }
    assert Strip(s[p2..e]) == v by {
      assert s[p2..e] == v;
      StripOfStripped(v);
    }
  }

  /** The same, with the line given as text. */
  lemma FieldAtLine(s: string, key: string, x: nat, v: string)
    requires x + |key| + 4 + |v| <= |s|
    requires s[x..x + |key| + 4 + |v|] == key + " = " + v + "\n"
    requires CleanValue(v)
    ensures FieldAt(s, key, x) == Some(v)
  {
    var w := key + " = " + v + "\n";
    var n := |key|;
    assert s[x..x + n] == key by {
      forall k | 0 <= k < n ensures s[x..x + n][k] == key[k] {
        assert s[x + k] == w[k];
      }
    }
    assert s[x + n] == w[n] == ' ';
    assert s[x + n + 1] == w[n + 1] == '=';
    assert s[x + n + 2] == w[n + 2] == ' ';
    assert s[x + n + 3..x + n + 3 + |v|] == v by {
      forall k | 0 <= k < |v| ensures s[x + n + 3..x + n + 3 + |v|][k] == v[k] {
        assert s[x + n + 3 + k] == w[n + 3 + k];
      }
    }
    assert s[x + n + 3 + |v|] == w[n + 3 + |v|] == '\n';
    FieldAtIndex(s, key, x, v);
  }

  /** `re.search` skips the indices where the key does not occur. */
  lemma {:induction false} SearchSkip(s: string, key: string, x: nat, y: nat)
    requires x <= y <= |s| + 1
    requires forall z | x <= z < y :: !OccursAt(s, key, z)
    ensures Search(s, key, x) == Search(s, key, y)
    decreases y - x
  {
    if x < y {
      SearchSkip(s, key, x + 1, y);
    }
  }

  /** A body free of the key has no such field. */
  lemma {:induction false} SearchAbsent(s: string, key: string, x: nat)
    requires x <= |s| + 1
    requires Free(s, key)
    ensures Search(s, key, x).None?
    decreases |s| + 1 - x
  {
    if x <= |s| {
      assert !OccursAt(s, key, x);
      SearchAbsent(s, key, x + 1);
    }
  }

  /**
   * The first field line for `key` in a body is the one that is found, when the
   * text before it is free of the key and ends a line.
   */
  lemma FindField(a: string, key: string, v: string, rest: string)
    requires Free(a, key) && (a == [] || a[|a| - 1] !in key)
    requires CleanValue(v)
    ensures Search(a + Terminated([FieldLine(key, v)]) + rest, key, 0) == Some(v)
  {
    var w := key + " = " + v + "\n";
    assert Terminated([FieldLine(key, v)]) == w by {
      assert Terminated([FieldLine(key, v)]) == FieldLine(key, v) + "\n" + Terminated([]);
    }
    var s := a + w + rest;
    assert s == a + (w + rest);
    NoKeyInFront(a, w + rest, key);
    SearchSkip(s, key, 0, |a|);
    assert s[|a|..|a| + |w|] == w;
    FieldAtLine(s, key, |a|, v);
  }

  /** No occurrence of `key` starts inside a key-free prefix whose last character `key` lacks. */
  lemma NoKeyInFront(a: string, b: string, key: string)
    requires Free(a, key) && (a == [] || a[|a| - 1] !in key)
    ensures forall z | 0 <= z < |a| :: !OccursAt(a + b, key, z)
  {
    var s := a + b;
    forall z | 0 <= z < |a| ensures !OccursAt(s, key, z) {
      if z + |key| <= |a| {
        assert s[z..z + |key|] == a[z..z + |key|];
        assert !OccursAt(a, key, z);
      } else if z + |key| <= |s| {
        assert s[z..z + |key|][|a| - 1 - z] == a[|a| - 1];
      }
    }
  }

  // ---------------------------------------------------------------------------
  // The encoder `generate_peer_block` and the round trip through the decoder.
  // ---------------------------------------------------------------------------

  /** The arguments of `generate_peer_block` (and of `add_peer`). */
  datatype PeerSpec = PeerSpec(
    name: string,
    publicKey: string,
    ip: string,
    addedAt: string,
    endpoint: Option<string>,
    presharedKey: Option<string>)

  /** Python truthiness of an optional string: present and not empty. */
  predicate Given(o: Option<string>) {
    o.Some? && o.value != ""
  }

  /** `<key> = <value>`, the shape of every field line the encoder writes. */
  function FieldLine(key: string, v: string): string {
    key + " = " + v
  }

  /** A field line when its value is given, otherwise nothing. */
  function OptionalLine(key: string, o: Option<string>): seq<string> {
    if Given(o) then [FieldLine(key, o.value)] else []
  }

  /** The comment header and the `[Peer]` line. */
  function HeaderLines(s: PeerSpec): seq<string> {
    [BANNER, NAME_TAG + s.name, DATE_TAG + s.addedAt, BANNER, PEER_LINE]
  }

  /** The field lines: the key, the address as a /32, then the optional PSK and endpoint. */
  function ValueLines(s: PeerSpec): (r: seq<string>)
    ensures 2 <= |r| <= 4
  {
    [FieldLine(PUBKEY_KEY, s.publicKey), FieldLine(ALLOWED_IPS_KEY, s.ip + "/32")]
      + OptionalLine(PRESHARED_KEY_KEY, s.presharedKey)
      + OptionalLine(ENDPOINT_KEY, s.endpoint)
  }

  /** `generate_peer_block`: the lines joined with line breaks, the first one empty. */
  function GeneratePeerBlock(s: PeerSpec): string {
    Join([""] + HeaderLines(s) + ValueLines(s), '\n')
  }

  /** Every line followed by a line break. */
  function Terminated(lines: seq<string>): (r: string)
    ensures EndsLine(r)
  {
    if |lines| == 0 then "" else lines[0] + "\n" + Terminated(lines[1..])
  }

  /** Joining with one more empty line is terminating every line. */
  lemma {:induction false} JoinTerminated(lines: seq<string>)
    ensures Join(lines + [""], '\n') == Terminated(lines)
    decreases |lines|
  {
    if |lines| > 0 {
      assert (lines + [""])[1..] == lines[1..] + [""];
      JoinTerminated(lines[1..]);
    }
  }

  /** Terminating two lists of lines is terminating each. */
  lemma {:induction false} TerminatedAppend(a: seq<string>, b: seq<string>)
    ensures Terminated(a + b) == Terminated(a) + Terminated(b)
    decreases |a|
  {
    if |a| > 0 {
      assert (a + b)[1..] == a[1..] + b;
      TerminatedAppend(a[1..], b);
    } else {
      assert a + b == b;
    }
  }

  /** The peer the parser should return for a block written from `s`. */
  function Expected(s: PeerSpec): (r: Peer)
    ensures r.name == s.name && r.publicKey == s.publicKey && r.addedAt == s.addedAt
  {
    Peer(s.name, s.publicKey, s.ip + "/32", s.addedAt,
         if Given(s.endpoint) then Some(s.endpoint.value) else None,
         if Given(s.presharedKey) then Some(s.presharedKey.value) else None,
         None, None, None)
  }

  /** Arguments the encoder writes so that the decoder reads them back. */
  ghost predicate Clean(s: PeerSpec) {
    && CleanValue(s.name) && CleanValue(s.addedAt)
    && CleanField(s.publicKey) && CleanField(s.ip)
    && (Given(s.presharedKey) ==> CleanField(s.presharedKey.value))
    && (Given(s.endpoint) ==> CleanField(s.endpoint.value))
  }

  /** The third group of the block pattern over a written block: its field lines, terminated. */
  function BodyText(s: PeerSpec): string {
    Terminated(ValueLines(s))
  }

  /** A terminated field line is free of a key one of whose characters it lacks. */
  lemma FreeFieldLine(key: string, v: string, k: string, t: nat)
    requires t < |k| && k[t] !in key + " = "
    requires Free(v, k) && ' ' !in k && '\n' !in k
    ensures Free(Terminated([FieldLine(key, v)]), k)
  {
    var tag := key + " = ";
    assert tag[|tag| - 1] == ' ';
    FreeByMissingChar(tag, k, t);
    FreeSep(tag, v, k);
    FreeByMissingChar("\n", k, t);
    FreeSep(tag + v, "\n", k);
    assert Terminated([FieldLine(key, v)]) == tag + v + "\n";
  }

  /** The address line's value, `<ip>/32`, keeps the cleanliness of the address. */
  lemma SlashedClean(ip: string)
    requires CleanField(ip)
    ensures CleanField(ip + "/32")
  {
    var v := ip + "/32";
    assert v[0] == ip[0] && v[|v| - 1] == '2';
    assert '\n' !in v by {
      assert forall k | |ip| <= k < |v| :: v[k] in "/32";
    }
    FreeByMissingChar("/32", ALLOWED_IPS_KEY, 0);
    FreeSep(ip, "/32", ALLOWED_IPS_KEY);
    FreeByMissingChar("/32", PRESHARED_KEY_KEY, 0);
    FreeSep(ip, "/32", PRESHARED_KEY_KEY);
    FreeByMissingChar("/32", ENDPOINT_KEY, 0);
    FreeSep(ip, "/32", ENDPOINT_KEY);
  }

  /** Empty, or ending with a line break. */
  predicate EndsLine(a: string) {
    a == [] || a[|a| - 1] == '\n'
  }

  /** Two pieces of whole lines free of `k` make a text free of `k`. */
  lemma FreeLines(a: string, b: string, k: string)
    requires Free(a, k) && Free(b, k) && EndsLine(a) && EndsLine(b) && '\n' !in k
    ensures Free(a + b, k) && EndsLine(a + b)
  {
    if a == [] {
      assert a + b == b;
    } else {
      FreeSep(a, b, k);
      if b == [] {
        assert a + b == a;
      }
    }
  }

  /** An optional field line is free of a key one of whose characters its tag lacks. */
  lemma FreeOptionalLine(key: string, o: Option<string>, k: string, t: nat)
    requires t < |k| && k[t] !in key + " = "
    requires Given(o) ==> Free(o.value, k)
    requires ' ' !in k && '\n' !in k
    ensures Free(Terminated(OptionalLine(key, o)), k)
  {
    if Given(o) {
      FreeFieldLine(key, o.value, k, t);
    }
  }

  /** The groupings of four texts the field searches need. */
  lemma Regroup(a: string, b: string, c: string, d: string)
    ensures a + b + c + d == [] + a + (b + c + d)
    ensures a + b + c + d == a + b + (c + d)
    ensures a + b + c + d == a + b + c + d + []
  {
  }

  /** The body of a written block, cut at its lines. */
  lemma BodyParts(s: PeerSpec)
    ensures BodyText(s)
      == Terminated([FieldLine(PUBKEY_KEY, s.publicKey)])
       + Terminated([FieldLine(ALLOWED_IPS_KEY, s.ip + "/32")])
       + Terminated(OptionalLine(PRESHARED_KEY_KEY, s.presharedKey))
       + Terminated(OptionalLine(ENDPOINT_KEY, s.endpoint))
  {
    var l1 := [FieldLine(PUBKEY_KEY, s.publicKey)];
    var l2 := [FieldLine(ALLOWED_IPS_KEY, s.ip + "/32")];
    var l3 := OptionalLine(PRESHARED_KEY_KEY, s.presharedKey);
    var l4 := OptionalLine(ENDPOINT_KEY, s.endpoint);
    assert ValueLines(s) == l1 + (l2 + (l3 + l4));
    TerminatedAppend(l1, l2 + (l3 + l4));
    TerminatedAppend(l2, l3 + l4);
    TerminatedAppend(l3, l4);
  }

  /** `PublicKey` is found on the first line of a written body. */
  lemma FindPublicKey(s: PeerSpec)
    requires Clean(s)
    ensures Search(BodyText(s), PUBKEY_KEY, 0) == Some(s.publicKey)
  {
    BodyParts(s);
    var t1 := Terminated([FieldLine(PUBKEY_KEY, s.publicKey)]);
    var t2 := Terminated([FieldLine(ALLOWED_IPS_KEY, s.ip + "/32")]);
    var t3 := Terminated(OptionalLine(PRESHARED_KEY_KEY, s.presharedKey));
    var t4 := Terminated(OptionalLine(ENDPOINT_KEY, s.endpoint));
    Regroup(t1, t2, t3, t4);
    FindField([], PUBKEY_KEY, s.publicKey, t2 + t3 + t4);
  }

  /** `AllowedIPs` is found on the second line, as `<ip>/32`. */
  lemma FindAllowedIps(s: PeerSpec)
    requires Clean(s)
    ensures Search(BodyText(s), ALLOWED_IPS_KEY, 0) == Some(s.ip + "/32")
  {
    BodyParts(s);
    SlashedClean(s.ip);
    var t1 := Terminated([FieldLine(PUBKEY_KEY, s.publicKey)]);
    var t2 := Terminated([FieldLine(ALLOWED_IPS_KEY, s.ip + "/32")]);
    var t3 := Terminated(OptionalLine(PRESHARED_KEY_KEY, s.presharedKey));
    var t4 := Terminated(OptionalLine(ENDPOINT_KEY, s.endpoint));
    FreeFieldLine(PUBKEY_KEY, s.publicKey, ALLOWED_IPS_KEY, 0);
    Regroup(t1, t2, t3, t4);
    FindField(t1, ALLOWED_IPS_KEY, s.ip + "/32", t3 + t4);
  }

  /** `PresharedKey` is found exactly when it was written. */
  lemma FindPresharedKey(s: PeerSpec)
    requires Clean(s)
    ensures Search(BodyText(s), PRESHARED_KEY_KEY, 0)
         == if Given(s.presharedKey) then Some(s.presharedKey.value) else None
  {
    BodyParts(s);
    SlashedClean(s.ip);
    var k := PRESHARED_KEY_KEY;
    var t1 := Terminated([FieldLine(PUBKEY_KEY, s.publicKey)]);
    var t2 := Terminated([FieldLine(ALLOWED_IPS_KEY, s.ip + "/32")]);
    var t3 := Terminated(OptionalLine(PRESHARED_KEY_KEY, s.presharedKey));
    var t4 := Terminated(OptionalLine(ENDPOINT_KEY, s.endpoint));
    FreeFieldLine(PUBKEY_KEY, s.publicKey, k, 1);
    FreeFieldLine(ALLOWED_IPS_KEY, s.ip + "/32", k, 1);
    FreeLines(t1, t2, k);
    FreeOptionalLine(ENDPOINT_KEY, s.endpoint, k, 1);
    if Given(s.presharedKey) {
      assert t3 == Terminated([FieldLine(k, s.presharedKey.value)]);
      FindField(t1 + t2, k, s.presharedKey.value, t4);
    } else {
      assert t3 == [];
      assert BodyText(s) == (t1 + t2) + t4;
      FreeLines(t1 + t2, t4, k);
      SearchAbsent(BodyText(s), k, 0);
    }
  }

  /** `Endpoint` is found exactly when it was written. */
  lemma FindEndpoint(s: PeerSpec)
    requires Clean(s)
    ensures Search(BodyText(s), ENDPOINT_KEY, 0)
         == if Given(s.endpoint) then Some(s.endpoint.value) else None
  {
    BodyParts(s);
    SlashedClean(s.ip);
    var k := ENDPOINT_KEY;
    var t1 := Terminated([FieldLine(PUBKEY_KEY, s.publicKey)]);
    var t2 := Terminated([FieldLine(ALLOWED_IPS_KEY, s.ip + "/32")]);
    var t3 := Terminated(OptionalLine(PRESHARED_KEY_KEY, s.presharedKey));
    FreeFieldLine(PUBKEY_KEY, s.publicKey, k, 0);
    FreeFieldLine(ALLOWED_IPS_KEY, s.ip + "/32", k, 0);
    FreeOptionalLine(PRESHARED_KEY_KEY, s.presharedKey, k, 0);
    FreeLines(t1, t2, k);
    FreeLines(t1 + t2, t3, k);
    var a := t1 + t2 + t3;
    if Given(s.endpoint) {
      var t4 := Terminated(OptionalLine(ENDPOINT_KEY, s.endpoint));
      assert t4 == Terminated([FieldLine(k, s.endpoint.value)]);
      Regroup(t1, t2, t3, t4);
      FindField(a, k, s.endpoint.value, []);
    } else {
      assert BodyText(s) == a;
      SearchAbsent(BodyText(s), k, 0);
    }
  }

  /** Round trip: a block written from clean arguments decodes to the expected peer. */
  lemma DecodeWritten(s: PeerSpec)
    requires Clean(s)
    ensures DecodeBlock(RawBlock(s.name, s.addedAt, BodyText(s))) == Some(Expected(s))
  {
    FindPublicKey(s);
    FindAllowedIps(s);
    FindPresharedKey(s);
    FindEndpoint(s);
    StripOfStripped(s.name);
    StripOfStripped(s.addedAt);
  }
}
