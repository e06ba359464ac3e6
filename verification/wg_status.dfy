/**
 * The runtime statistics: the tab-separated output of `wg show wg0 dump`, read
 * into a map keyed by public key (`get_runtime_status`), and merged into the
 * parsed peers (`get_peers_with_status`). The dump text is a parameter: None
 * stands for a command that could not be run.
 */
module WgStatus {
  import opened Wrappers
  import opened Text
  import opened PeerBlock
  import opened WgParser

  /** The record `get_runtime_status` keeps for one peer. */
  datatype PeerStatus = PeerStatus(
    presharedKey: Option<string>,
    endpoint: Option<string>,
    allowedIps: string,
    latestHandshake: Option<int>,
    transferRx: int,
    transferTx: int,
    persistentKeepalive: Option<string>)

  // ---------------------------------------------------------------------------
  // Python's `int(text)` on ASCII text.
  // ---------------------------------------------------------------------------

  /** Digits, with single underscores allowed between two digits. */
  predicate Grouped(s: string) {
    && |s| > 0 && IsDigit(s[0]) && IsDigit(s[|s| - 1])
    && (forall i | 0 <= i < |s| :: IsDigit(s[i]) || s[i] == '_')
    && (forall i | 0 <= i < |s| - 1 :: s[i] == '_' ==> s[i + 1] != '_')
  }

  /** The text with its underscores removed. */
  function DropUnderscores(s: string): (r: string)
    ensures forall i | 0 <= i < |r| :: r[i] in s && r[i] != '_'
  {
    if |s| == 0 then ""
    else
      var rest := DropUnderscores(s[1..]);
      if s[0] == '_' then rest else [s[0]] + rest
  }

  /** A text without underscores is left as it is. */
  lemma {:induction false} DropNoUnderscores(s: string)
    requires '_' !in s
    ensures DropUnderscores(s) == s
  {
    if |s| > 0 {
      DropNoUnderscores(s[1..]);
      assert s == [s[0]] + s[1..];
    }
  }

  /** A digit group read as a number. */
  function ParseGrouped(body: string): (r: Option<nat>)
  {
    if Grouped(body) then
      var digits := DropUnderscores(body);
      assert forall i | 0 <= i < |digits| :: IsDigit(digits[i]);
      Some(DigitsValue(digits))
    else None
  }

  /** An optional sign, then a digit group. */
  function ParseSigned(t: string): (r: Option<int>)
  {
    if |t| > 0 && t[0] == '-' then
      match ParseGrouped(t[1..])
      case None => None
      case Some(v) => Some(-(v as int))
    else if |t| > 0 && t[0] == '+' then
      match ParseGrouped(t[1..])
      case None => None
      case Some(v) => Some(v)
    else
      match ParseGrouped(t)
      case None => None
      case Some(v) => Some(v)
  }

  /** `int(text)`: surrounding whitespace, an optional sign, then grouped digits; None for ValueError. */
  function ParseInt(text: string): Option<int> {
    ParseSigned(Strip(text))
  }

  /** `str(v)`. */
  function IntText(v: int): string {
    if v < 0 then "-" + DecimalText(-v) else DecimalText(v)
  }

  /** The decimal text of a number is a valid digit group with no underscore. */
  lemma GroupedDecimal(n: nat)
    ensures Grouped(DecimalText(n)) && DropUnderscores(DecimalText(n)) == DecimalText(n)
  {
    var d := DecimalText(n);
    assert '_' !in d by {
      forall i | 0 <= i < |d| ensures d[i] != '_' {
        assert IsDigit(d[i]);
      }
    }
    DropNoUnderscores(d);
  }

  /** `str(v)` has no surrounding whitespace. */
  lemma IntTextStripped(v: int)
    ensures Stripped(IntText(v))
  {
    var n: nat := if v < 0 then -v else v;
    var d := DecimalText(n);
    var t := IntText(v);
    assert IsDigit(d[|d| - 1]) && IsDigit(d[0]);
    assert t[|t| - 1] == d[|d| - 1];
    assert t[0] == '-' || t[0] == d[0];
  }

  /** The digits of `str(n)` read back as `n`. */
  lemma ParseGroupedDecimal(n: nat)
    ensures ParseGrouped(DecimalText(n)) == Some(n)
  {
    GroupedDecimal(n);
  }

  /** The sign and digits of `str(v)` read back as `v`. */
  lemma ParseSignedText(v: int)
    ensures ParseSigned(IntText(v)) == Some(v)
  {
    if v < 0 {
      ParseSignedMinus(-v);
    } else {
      ParseSignedDecimal(v);
    }
  }

  /** The digits of `str(n)`, with no sign in front, read back as `n`. */
  lemma ParseSignedDecimal(n: nat)
    ensures ParseSigned(DecimalText(n)) == Some(n)
  {
    var d := DecimalText(n);
    ParseGroupedDecimal(n);
    assert IsDigit(d[0]);
  }

  /** A minus sign before the digits of `str(n)` reads back as `-n`. */
  lemma ParseSignedMinus(n: nat)
    ensures ParseSigned("-" + DecimalText(n)) == Some(-(n as int))
  {
    var d := DecimalText(n);
    ParseGroupedDecimal(n);
    assert ("-" + d)[1..] == d;
  }

  /** `int(str(v)) == v`. */
  lemma ParseIntText(v: int)
    ensures ParseInt(IntText(v)) == Some(v)
  {
    IntTextStripped(v);
    StripOfStripped(IntText(v));
    ParseSignedText(v);
  }

  // ---------------------------------------------------------------------------
  // The dump.
  // ---------------------------------------------------------------------------

  /** A dump field, or None when it holds the tool's placeholder for "nothing". */
  function Unless(field: string, placeholder: string): (r: Option<string>)
    ensures r.None? <==> field == placeholder
    ensures r.Some? ==> r.value == field
  {
    if field == placeholder then None else Some(field)
  }

  /**
   * The record for the fields of one peer line: an absent handshake is written "0",
   * and every `int()` must succeed or the whole call fails.
   */
  function EntryOf(parts: seq<string>): (r: Result<PeerStatus, Error>)
    requires |parts| >= 8
    ensures r.Err? <==>
      (parts[4] != "0" && ParseInt(parts[4]).None?) || ParseInt(parts[5]).None? || ParseInt(parts[6]).None?
    ensures r.Ok? ==> (r.value.latestHandshake.None? <==> parts[4] == "0")
    ensures r.Ok? ==> parts[4] != "0" ==> r.value.latestHandshake == ParseInt(parts[4])
    ensures r.Ok? ==> Some(r.value.transferRx) == ParseInt(parts[5]) && Some(r.value.transferTx) == ParseInt(parts[6])
    ensures r.Ok? ==> r.value.presharedKey == Unless(parts[1], "(none)") && r.value.endpoint == Unless(parts[2], "(none)")
    ensures r.Ok? ==> r.value.allowedIps == parts[3] && r.value.persistentKeepalive == Unless(parts[7], "off")
    ensures r.Err? ==> r.error == InvalidNumber
  {
    var handshake := if parts[4] != "0" then ParseInt(parts[4]) else Some(0);
    match (handshake, ParseInt(parts[5]), ParseInt(parts[6]))
    case (Some(h), Some(rx), Some(tx)) =>
      Ok(PeerStatus(Unless(parts[1], "(none)"), Unless(parts[2], "(none)"), parts[3],
                    if parts[4] != "0" then Some(h) else None, rx, tx, Unless(parts[7], "off")))
    case _ => Err(InvalidNumber)
  }

  /** What one dump line contributes: nothing, a record under its key, or the failure. */
  datatype LineOutcome = Skip | Record(key: string, status: PeerStatus) | Fail(error: Error)

  /** A line with fewer than eight tab-separated fields is skipped. */
  function LineOf(line: string): (r: LineOutcome)
    ensures r.Skip? <==> |Split(line, '\t')| < 8
    ensures r.Record? ==> r.key == Split(line, '\t')[0] && EntryOf(Split(line, '\t')) == Ok(r.status)
    ensures r.Fail? ==> EntryOf(Split(line, '\t')) == Err(r.error)
  {
    var parts := Split(line, '\t');
    if |parts| < 8 then Skip
    else
      match EntryOf(parts)
      case Err(e) => Fail(e)
      case Ok(st) => Record(parts[0], st)
  }

  /** The map filled outcome by outcome, a later record overwriting an earlier one; the first failure is final. */
  function Fill(outs: seq<LineOutcome>): Result<map<string, PeerStatus>, Error>
    decreases |outs|
  {
    if |outs| == 0 then Ok(map[])
    else
      var n := |outs| - 1;
      match Fill(outs[..n])
      case Err(e) => Err(e)
      case Ok(m) =>
        match outs[n]
        case Skip => Ok(m)
        case Fail(e) => Err(e)
        case Record(k, st) => Ok(m[k := st])
  }

  /** The outcomes of the peer lines, in order. */
  function Outcomes(lines: seq<string>): (r: seq<LineOutcome>)
    ensures |r| == |lines| && forall i | 0 <= i < |lines| :: r[i] == LineOf(lines[i])
  {
    seq(|lines|, i requires 0 <= i < |lines| => LineOf(lines[i]))
  }

  /** `get_runtime_status`: the output stripped, split into lines, the interface line skipped. */
  function RuntimeStatus(dump: Option<string>): Result<map<string, PeerStatus>, Error> {
    match dump
    case None => Ok(map[])
    case Some(out) => Fill(Outcomes(Split(Strip(out), '\n')[1..]))
  }

  /** When every line reads, the keys are those of the recorded lines. */
  lemma {:induction false} FillKeys(outs: seq<LineOutcome>, k: string)
    requires Fill(outs).Ok?
    ensures k in Fill(outs).value <==> exists i | 0 <= i < |outs| :: outs[i].Record? && outs[i].key == k
    decreases |outs|
  {
    if |outs| > 0 {
      var n := |outs| - 1;
      var init := outs[..n];
      assert Fill(init).Ok?;
      FillKeys(init, k);
      var last := outs[n].Record? && outs[n].key == k;
      if exists i | 0 <= i < |outs| :: outs[i].Record? && outs[i].key == k {
        var i :| 0 <= i < |outs| && outs[i].Record? && outs[i].key == k;
        if i < n {
          assert init[i] == outs[i];
        }
      }
      if k in Fill(outs).value && !last {
        var i :| 0 <= i < n && init[i].Record? && init[i].key == k;
        assert outs[i] == init[i];
      }
    }
  }

  /** Each key holds the record of the last line about it. */
  lemma {:induction false} FillLatest(outs: seq<LineOutcome>, k: string, i: nat)
    requires Fill(outs).Ok? && i < |outs| && outs[i].Record? && outs[i].key == k
    requires forall j | i < j < |outs| :: !(outs[j].Record? && outs[j].key == k)
    ensures k in Fill(outs).value && Fill(outs).value[k] == outs[i].status
    decreases |outs|
  {
    var n := |outs| - 1;
    var init := outs[..n];
    assert Fill(init).Ok?;
    if i < n {
      assert init[i] == outs[i];
      assert forall j | i < j < n :: init[j] == outs[j];
      FillLatest(init, k, i);
    }
  }

  /** Filling fails exactly when some line fails. */
  lemma {:induction false} FillFails(outs: seq<LineOutcome>)
    ensures Fill(outs).Err? <==> exists i | 0 <= i < |outs| :: outs[i].Fail?
    decreases |outs|
  {
    if |outs| > 0 {
      var n := |outs| - 1;
      var init := outs[..n];
      FillFails(init);
      assert forall i | 0 <= i < n :: init[i] == outs[i];
    }
  }

  /** One more outcome: skipped, recorded over any earlier record of its key, or the failure. */
  lemma FillNext(outs: seq<LineOutcome>, i: nat)
    requires i < |outs| && Fill(outs[..i]).Ok?
    ensures Fill(outs[..i + 1]) ==
      match outs[i]
      case Skip => Fill(outs[..i])
      case Fail(e) => Err(e)
      case Record(k, st) => Ok(Fill(outs[..i]).value[k := st])
  {
    assert outs[..i + 1][..i] == outs[..i];
  }

  /** A failure is final: more lines keep the first error. */
  lemma {:induction false} FillStopsAtError(outs: seq<LineOutcome>, k: nat)
    requires k <= |outs| && Fill(outs[..k]).Err?
    ensures Fill(outs) == Fill(outs[..k])
    decreases |outs| - k
  {
    if k < |outs| {
      assert outs[..k + 1][..k] == outs[..k];
      FillStopsAtError(outs, k + 1);
    } else {
      assert outs[..k] == outs;
    }
  }

  /** `get_runtime_status` given the command's output: the map filled line by line. */
  method GetRuntimeStatus(dump: Option<string>) returns (r: Result<map<string, PeerStatus>, Error>)
    ensures r == RuntimeStatus(dump)
  {
    if dump.None? {
      return Ok(map[]);
    }
    var lines := Split(Strip(dump.value), '\n')[1..];
    ghost var outs := Outcomes(lines);
    var status: map<string, PeerStatus> := map[];
    for i := 0 to |lines|
      invariant Fill(outs[..i]) == Ok(status)
    {
      FillNext(outs, i);
      var parts := Split(lines[i], '\t');
      if |parts| >= 8 {
        var entry := EntryOf(parts);
        if entry.Err? {
          FillStopsAtError(outs, i + 1);
          return Err(entry.error);
        }
        status := status[parts[0] := entry.value];
      }
    }
    assert outs[..|lines|] == outs;
    return Ok(status);
  }

  /**
   * A peer with the statistics of its key, when the status map has it: the handshake
   * and both transfer counters are copied, nothing else changes.
   */
  function WithStatus(p: Peer, runtime: map<string, PeerStatus>): (r: Peer)
    ensures r.name == p.name && r.publicKey == p.publicKey && r.allowedIps == p.allowedIps
    ensures r.addedAt == p.addedAt && r.endpoint == p.endpoint && r.presharedKey == p.presharedKey
    ensures p.publicKey in runtime ==>
      var st := runtime[p.publicKey];
      r.latestHandshake == st.latestHandshake && r.transferRx == Some(st.transferRx)
      && r.transferTx == Some(st.transferTx)
    ensures p.publicKey !in runtime ==> r == p
  {
    if p.publicKey in runtime then
      var st := runtime[p.publicKey];
      p.(latestHandshake := st.latestHandshake, transferRx := Some(st.transferRx),
         transferTx := Some(st.transferTx))
    else p
  }

  /** The loop of `get_peers_with_status`: each peer whose key has statistics gets them. */
  method ApplyStatus(peers: seq<Peer>, m: map<string, PeerStatus>) returns (r: seq<Peer>)
    ensures |r| == |peers|
    ensures forall j | 0 <= j < |r| :: r[j] == WithStatus(peers[j], m)
  {
    r := peers;
    for i := 0 to |r|
      invariant |r| == |peers|
      invariant forall j | 0 <= j < i :: r[j] == WithStatus(peers[j], m)
      invariant forall j | i <= j < |r| :: r[j] == peers[j]
    {
      if r[i].publicKey in m {
        r := r[i := WithStatus(r[i], m)];
      }
    }
  }

  /**
   * `get_peers_with_status`: the peers of the file, each updated in place with its
   * statistics. A missing file or an unreadable dump number fails the whole call.
   */
  method PeersWithStatus(content: Option<string>, dump: Option<string>) returns (r: Result<seq<Peer>, Error>)
    ensures content.None? ==> r == Err(FileNotFound)
    ensures content.Some? && RuntimeStatus(dump).Err? ==> r == Err(RuntimeStatus(dump).error)
    ensures content.Some? && RuntimeStatus(dump).Ok? ==>
      r.Ok? && |r.value| == |ParsedPeers(content.value)|
      && forall i | 0 <= i < |r.value| ::
           r.value[i] == WithStatus(ParsedPeers(content.value)[i], RuntimeStatus(dump).value)
  {
    if content.None? {
      return Err(FileNotFound);
    }
    var peers := ParsePeers(content.value);
    var runtime := GetRuntimeStatus(dump);
    if runtime.Err? {
      return Err(runtime.error);
    }
    var updated := ApplyStatus(peers, runtime.value);
    return Ok(updated);
  }
}
