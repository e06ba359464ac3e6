/**
 * The registry operations of `WgParser` over the text of wg0.conf: parsing the
 * peers, the addresses in use, the next free address in 10.8.0.0/24, the two
 * conflict checks, the P2P candidates, and the file itself with `add_peer` and
 * `remove_peer`.
 */
module WgParser {
  import opened Wrappers
  import opened Text
  import opened Ipv4
  import opened PeerBlock
  import opened Removal

  /** The exceptions the registry raises, one constructor per cause. */
  datatype Error =
    | FileNotFound    // the configuration file does not exist
    | NameTaken       // `add_peer`: a peer already has this name
    | IpTaken         // `add_peer`: the address is in use
    | InvalidAddress  // `check_ip_conflict`: the address does not read as IPv4
    | PoolExhausted   // `get_next_available_ip`: .2 to .254 are all in use
    | InvalidNumber   // `get_runtime_status`: `int()` rejects a field of the status dump

  /** `parse_peers(content)`: the matches in document order, decoded one by one. */
  method ParsePeers(content: string) returns (peers: seq<Peer>)
    ensures peers == ParsedPeers(content)
  {
    var blocks := Blocks(Split(content, '\n'), 0);
    peers := DecodeEach(blocks);
  }

  /** The loop of `parse_peers` over the matches: each one that decodes is appended. */
  method DecodeEach(blocks: seq<RawBlock>) returns (peers: seq<Peer>)
    ensures peers == DecodeAll(blocks)
  {
    peers := [];
    for i := 0 to |blocks|
      invariant peers == DecodeAll(blocks[..i])
    {
      var d := DecodeBlock(blocks[i]);
      DecodeAllNext(blocks, i);
      if d.Some? {
        peers := peers + [d.value];
      }
    }
    assert blocks[..|blocks|] == blocks;
  }

  /** The address of a peer: the text before the slash of `AllowedIPs`, when it reads as IPv4. */
  function AddressOf(p: Peer): Option<Addr> {
    ParseIpv4(BeforeSlash(p.allowedIps))
  }

  /** The set `get_used_ips` builds: the server's address, then each peer's in turn. */
  function UsedIps(peers: seq<Peer>): set<Addr>
    decreases |peers|
  {
    if |peers| == 0 then {SERVER_IP}
    else
      var last := peers[|peers| - 1];
      UsedIps(peers[..|peers| - 1]) + (if AddressOf(last).Some? then {AddressOf(last).value} else {})
  }

  /** Every address in use is the server's or some peer's. */
  lemma {:induction false} UsedIpsSound(peers: seq<Peer>, a: Addr)
    requires a in UsedIps(peers)
    ensures a == SERVER_IP || exists i | 0 <= i < |peers| :: AddressOf(peers[i]) == Some(a)
    decreases |peers|
  {
    if |peers| > 0 {
      var n := |peers| - 1;
      var init := peers[..n];
      var last := AddressOf(peers[n]);
      if a in UsedIps(init) {
        UsedIpsSound(init, a);
        if a != SERVER_IP {
          var i :| 0 <= i < |init| && AddressOf(init[i]) == Some(a);
          assert init[i] == peers[i];
        }
      } else {
        assert last == Some(a);
      }
    }
  }

  /** The server's address and every peer's that reads as IPv4 are in use. */
  lemma {:induction false} UsedIpsComplete(peers: seq<Peer>, i: nat)
    requires i < |peers| && AddressOf(peers[i]).Some?
    ensures SERVER_IP in UsedIps(peers) && AddressOf(peers[i]).value in UsedIps(peers)
    decreases |peers|
  {
    var n := |peers| - 1;
    var init := peers[..n];
    if i < n {
      assert init[i] == peers[i];
      UsedIpsComplete(init, i);
    } else if n > 0 {
      UsedIpsHasServer(init);
    }
  }

  /** The server's address is always in use. */
  lemma {:induction false} UsedIpsHasServer(peers: seq<Peer>)
    ensures SERVER_IP in UsedIps(peers)
    decreases |peers|
  {
    if |peers| > 0 {
      UsedIpsHasServer(peers[..|peers| - 1]);
    }
  }

  /** `get_used_ips(content)`: a set filled peer by peer, skipping addresses that do not parse. */
  method GetUsedIps(content: string) returns (used: set<Addr>)
    ensures used == UsedIps(ParsedPeers(content))
  {
    var peers := ParsePeers(content);
    used := CollectIps(peers);
  }

  /** The loop of `get_used_ips`: the server's address, then each peer's that reads as IPv4. */
  method CollectIps(peers: seq<Peer>) returns (used: set<Addr>)
    ensures used == UsedIps(peers)
  {
    used := {SERVER_IP};
    for i := 0 to |peers|
      invariant used == UsedIps(peers[..i])
    {
      assert peers[..i + 1][..i] == peers[..i];
      var a := AddressOf(peers[i]);
      if a.Some? {
        used := used + {a.value};
      }
    }
    assert peers[..|peers|] == peers;
  }

  /**
   * The first host `10.8.0.i`, for `i` from `lo` up to 254, that is not in use:
   * the address `get_next_available_ip` returns.
   */
  function FirstFree(used: set<Addr>, lo: nat): (r: Option<Addr>)
    requires 2 <= lo <= 255
    ensures r.Some? ==> r.value / 256 == 0x0A0800 && lo <= r.value % 256 < 255
    ensures r.Some? ==> r.value !in used && forall j | lo <= j < r.value % 256 :: Host(j) in used
    ensures r.None? <==> forall j | lo <= j < 255 :: Host(j) in used
    decreases 255 - lo
  {
    if lo == 255 then None
    else if Host(lo) !in used then Some(Host(lo))
    else FirstFree(used, lo + 1)
  }

  /** `get_next_available_ip(content)`: scans .2 to .254 and stops at the first free host. */
  method NextAvailableIp(content: string) returns (r: Result<Addr, Error>)
    ensures FirstFree(UsedIps(ParsedPeers(content)), 2).Some? ==> r == Ok(FirstFree(UsedIps(ParsedPeers(content)), 2).value)
    ensures FirstFree(UsedIps(ParsedPeers(content)), 2).None? ==> r == Err(PoolExhausted)
  {
    var used := GetUsedIps(content);
    for i := 2 to 255
      invariant FirstFree(used, 2) == FirstFree(used, i)
    {
      var candidate := Host(i);
      if candidate !in used {
        return Ok(candidate);
      }
    }
    return Err(PoolExhausted);
  }

  /** With .1, .5, .6 and .7 in use, the next address handed out is 10.8.0.2. */
  lemma NextFreeExample()
    ensures FirstFree({Host(1), Host(5), Host(6), Host(7)}, 2) == Some(Host(2))
  {
  }

  /** `check_ip_conflict` against a list of peers: the address must read as IPv4 first. */
  function IpConflict(ip: string, peers: seq<Peer>): (r: Result<bool, Error>)
    ensures r.Err? <==> ParseIpv4(BeforeSlash(ip)).None?
    ensures r.Err? ==> r.error == InvalidAddress
    ensures r.Ok? ==> r.value == (ParseIpv4(BeforeSlash(ip)).value in UsedIps(peers))
  {
    match ParseIpv4(BeforeSlash(ip))
    case None => Err(InvalidAddress)
    case Some(a) => Ok(a in UsedIps(peers))
  }

  /** `check_ip_conflict(ip, content)`. */
  method CheckIpConflict(ip: string, content: string) returns (r: Result<bool, Error>)
    ensures r == IpConflict(ip, ParsedPeers(content))
  {
    var target := ParseIpv4(BeforeSlash(ip));
    if target.None? {
      return Err(InvalidAddress);
    }
    var used := GetUsedIps(content);
    return Ok(target.value in used);
  }

  /** `any(p.name == name for p in peers)`. */
  function AnyNamed(peers: seq<Peer>, name: string): (r: bool)
    ensures r <==> exists i | 0 <= i < |peers| :: peers[i].name == name
  {
    if |peers| == 0 then false
    else if peers[0].name == name then true
    else
      var r := AnyNamed(peers[1..], name);
      assert forall i | 1 <= i < |peers| :: peers[i] == peers[1..][i - 1];
      r
  }

  /** `check_name_conflict(name, content)`: exact comparison with the stripped names parsed. */
  function CheckNameConflict(name: string, content: string): (r: bool)
    ensures r <==> exists i | 0 <= i < |ParsedPeers(content)| :: ParsedPeers(content)[i].name == name
  {
    AnyNamed(ParsedPeers(content), name)
  }

  /** The peers with an endpoint, in order: `get_p2p_candidates`. */
  function P2pCandidates(peers: seq<Peer>): (r: seq<Peer>)
    ensures |r| <= |peers|
    ensures forall i | 0 <= i < |r| :: r[i].endpoint.Some? && r[i] in peers
    ensures forall i | 0 <= i < |peers| :: peers[i].endpoint.Some? ==> peers[i] in r
  {
    if |peers| == 0 then []
    else
      var rest := P2pCandidates(peers[1..]);
      assert forall i | 1 <= i < |peers| :: peers[i] == peers[1..][i - 1];
      if peers[0].endpoint.Some? then [peers[0]] + rest else rest
  }

  /** The candidates of two lists one after the other are the candidates of each, in order. */
  lemma {:induction false} P2pAppend(a: seq<Peer>, b: seq<Peer>)
    ensures P2pCandidates(a + b) == P2pCandidates(a) + P2pCandidates(b)
    decreases |a|
  {
    if |a| == 0 {
      assert a + b == b;
    } else {
      assert (a + b)[1..] == a[1..] + b;
      P2pAppend(a[1..], b);
    }
  }

  /** One peer is a candidate, once, exactly when it has an endpoint. */
  lemma P2pSingle(p: Peer)
    ensures P2pCandidates([p]) == if p.endpoint.Some? then [p] else []
  {
    assert [p][1..] == [];
  }

  /**
   * What `add_peer` does to the text of the file: the name check, then the address
   * check (an unreadable address raises), then the block appended after the text
   * stripped at its end, with a final line break.
   */
  function Appended(content: string, s: PeerSpec): Result<string, Error> {
    if CheckNameConflict(s.name, content) then Err(NameTaken)
    else
      match IpConflict(s.ip, ParsedPeers(content))
      case Err(e) => Err(e)
      case Ok(taken) =>
        if taken then Err(IpTaken)
        else Ok(RStrip(content) + "\n" + GeneratePeerBlock(s) + "\n")
  }

  /** The configuration file; `content` is None while the file does not exist. */
  class WgConfigFile {
    var content: Option<string>

    constructor(initial: Option<string>)
      ensures content == initial
    {
      content := initial;
    }

    /** `add_peer`: checks, then rewrites the file; on any error the file is left alone. */
    method AddPeer(s: PeerSpec) returns (r: Result<(), Error>)
      modifies this
      ensures old(content).None? ==> r == Err(FileNotFound) && content == old(content)
      ensures old(content).Some? && Appended(old(content).value, s).Ok? ==>
        r == Ok(()) && content == Some(Appended(old(content).value, s).value)
      ensures old(content).Some? && Appended(old(content).value, s).Err? ==>
        r == Err(Appended(old(content).value, s).error) && content == old(content)
    {
      if content.None? {
        return Err(FileNotFound);
      }
      var text := content.value;
      if CheckNameConflict(s.name, text) {
        return Err(NameTaken);
      }
      var conflict := CheckIpConflict(s.ip, text);
      if conflict.Err? {
        return Err(conflict.error);
      }
      if conflict.value {
        return Err(IpTaken);
      }
      content := Some(RStrip(text) + "\n" + GeneratePeerBlock(s) + "\n");
      return Ok(());
    }

    /**
     * `remove_peer`: removes every block of that name; says whether there was one.
     * The file is written only when something matched.
     */
    method RemovePeer(name: string) returns (r: Result<bool, Error>)
      modifies this
      ensures old(content).None? ==> r == Err(FileNotFound) && content == old(content)
      ensures old(content).Some? ==>
        r == Ok(RemoveText(old(content).value, name).1 > 0)
        && content == Some(RemoveText(old(content).value, name).0)
    {
      if content.None? {
        return Err(FileNotFound);
      }
      var text := content.value;
      var (newText, count) := RemoveText(text, name);
      if count == 0 {
        RemoveNothing(text, name);
        return Ok(false);
      }
      content := Some(newText);
      return Ok(true);
    }
  }
}
