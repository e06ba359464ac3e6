/**
 * The internal name resolver: a map from lower-cased peer name to address, built
 * from the registry, and the reply to an A query under the configured domain
 * suffix. The DNS wire format is abstracted: a decoded question, or None for a
 * datagram that does not decode, and a reply datatype.
 */
module DnsServer {
  import opened Wrappers
  import opened Text
  import opened PeerBlock
  import opened WgParser

  /** The server's own address, under the names "server" and "gateway". */
  const SERVER_ADDRESS: string := "10.8.0.1"
  /** TYPE A (section 3.2.2 of RFC 1035). */
  const QTYPE_A: int := 1
  /** The time to live of every answer, in seconds. */
  const ANSWER_TTL: nat := 60
  /** RCODE 3, Name Error (section 4.1.1 of RFC 1035). */
  const RCODE_NAME_ERROR: nat := 3

  /** The map the peers alone give: each peer in turn, a later name overwriting an earlier one. */
  function PeerNames(peers: seq<Peer>): map<string, string>
    decreases |peers|
  {
    if |peers| == 0 then map[]
    else
      var n := |peers| - 1;
      PeerNames(peers[..n])[Lower(peers[n].name) := BeforeSlash(peers[n].allowedIps)]
  }

  /**
   * What `get_name_to_ip_mapping` returns for the text of the configuration file
   * (None: the file does not exist): the peers' names, then the two fixed aliases.
   */
  function Mapping(content: Option<string>): map<string, string> {
    var peers := if content.Some? then PeerNames(ParsedPeers(content.value)) else map[];
    peers["server" := SERVER_ADDRESS]["gateway" := SERVER_ADDRESS]
  }

  /** A name maps exactly when some peer has it, lower-cased. */
  lemma {:induction false} PeerNamesKeys(peers: seq<Peer>, k: string)
    ensures k in PeerNames(peers) <==> exists i | 0 <= i < |peers| :: Lower(peers[i].name) == k
    decreases |peers|
  {
    if |peers| > 0 {
      var n := |peers| - 1;
      var init := peers[..n];
      PeerNamesKeys(init, k);
      if exists i | 0 <= i < |peers| :: Lower(peers[i].name) == k {
        var i :| 0 <= i < |peers| && Lower(peers[i].name) == k;
        if i < n {
          assert init[i] == peers[i];
        }
      }
      if k in PeerNames(peers) && Lower(peers[n].name) != k {
        var i :| 0 <= i < n && Lower(init[i].name) == k;
        assert peers[i] == init[i];
      }
    }
  }

  /** The last peer with a name decides its address. */
  lemma {:induction false} PeerNamesLastWins(peers: seq<Peer>, k: string, i: nat)
    requires i < |peers| && Lower(peers[i].name) == k
    requires forall j | i < j < |peers| :: Lower(peers[j].name) != k
    ensures k in PeerNames(peers) && PeerNames(peers)[k] == BeforeSlash(peers[i].allowedIps)
    decreases |peers|
  {
    var n := |peers| - 1;
    var init := peers[..n];
    if i < n {
      assert init[i] == peers[i];
      assert forall j | i < j < n :: init[j] == peers[j];
      PeerNamesLastWins(init, k, i);
    }
  }

  /** The two aliases always map to the server, whatever the peers are called. */
  lemma AliasesFixed(content: Option<string>)
    ensures Mapping(content)["server"] == SERVER_ADDRESS
    ensures Mapping(content)["gateway"] == SERVER_ADDRESS
    ensures forall k | k in Mapping(content) && k != "server" && k != "gateway" ::
      content.Some? && k in PeerNames(ParsedPeers(content.value))
      && Mapping(content)[k] == PeerNames(ParsedPeers(content.value))[k]
    ensures content.Some? ==>
      forall k | k in PeerNames(ParsedPeers(content.value)) && k != "server" && k != "gateway" ::
        k in Mapping(content) && Mapping(content)[k] == PeerNames(ParsedPeers(content.value))[k]
  {
  }

  /** `get_name_to_ip_mapping`: the map filled peer by peer; a missing file leaves only the aliases. */
  method NameToIpMapping(content: Option<string>) returns (mapping: map<string, string>)
    ensures mapping == Mapping(content)
  {
    mapping := map[];
    if content.Some? {
      var peers := ParsePeers(content.value);
      for i := 0 to |peers|
        invariant mapping == PeerNames(peers[..i])
      {
        assert peers[..i + 1][..i] == peers[..i];
        mapping := mapping[Lower(peers[i].name) := BeforeSlash(peers[i].allowedIps)];
      }
      assert peers[..|peers|] == peers;
    }
    mapping := mapping["server" := SERVER_ADDRESS];
    mapping := mapping["gateway" := SERVER_ADDRESS];
  }

  /** The query name as it is matched: lower-cased, trailing dots removed. */
  function Normalize(qname: string): string {
    RStripChar(Lower(qname), '.')
  }

  /**
   * The device part of a normalized name under the suffix: `qname[:-len(suffix)]`.
   * With an empty suffix Python's `s[:-0]` is the empty text, not `s`.
   */
  function DevicePart(q: string, suffix: string): string
    requires |suffix| <= |q|
  {
    if |suffix| == 0 then "" else q[..|q| - |suffix|]
  }

  /**
   * `resolve_query`: only A questions, only names under the suffix (already
   * lower-cased by the server), then a lookup of the device part.
   */
  function ResolveQuery(content: Option<string>, suffix: string, qname: string, qtype: int): (r: Option<string>)
    ensures qtype != QTYPE_A ==> r.None?
    ensures !EndsWith(Normalize(qname), suffix) ==> r.None?
    ensures r.Some? ==>
      var q := Normalize(qname);
      DevicePart(q, suffix) in Mapping(content) && r.value == Mapping(content)[DevicePart(q, suffix)]
  {
    var q := Normalize(qname);
    if qtype != QTYPE_A then None
    else if !EndsWith(q, suffix) then None
    else
      var device := DevicePart(q, suffix);
      var mapping := Mapping(content);
      if device in mapping then Some(mapping[device]) else None
  }

  /** Lower-casing twice is lower-casing once. */
  lemma LowerIdempotent(s: string)
    ensures Lower(Lower(s)) == Lower(s)
  {
    assert forall i | 0 <= i < |s| :: LowerChar(LowerChar(s[i])) == LowerChar(s[i]);
  }

  /** Matching ignores case: a query and its lower-cased form get the same answer. */
  lemma ResolveIgnoresCase(content: Option<string>, suffix: string, qname: string, qtype: int)
    ensures ResolveQuery(content, suffix, qname, qtype) == ResolveQuery(content, suffix, Lower(qname), qtype)
  {
    LowerIdempotent(qname);
  }

  /** Matching ignores the root dot: `name.` and `name` get the same answer. */
  lemma ResolveIgnoresRootDot(content: Option<string>, suffix: string, qname: string, qtype: int)
    ensures ResolveQuery(content, suffix, qname + ".", qtype) == ResolveQuery(content, suffix, qname, qtype)
  {
    var l := Lower(qname + ".");
    assert l == Lower(qname) + ".";
    assert l[..|l| - 1] == Lower(qname);
  }

  /**
   * A lower-case device name under a non-empty lower-case suffix resolves to its
   * entry in the map, and to nothing when it has none.
   */
  lemma ResolveDevice(content: Option<string>, suffix: string, device: string)
    requires |suffix| > 0 && suffix[|suffix| - 1] != '.' && Lower(suffix) == suffix
    requires Lower(device) == device
    ensures ResolveQuery(content, suffix, device + suffix, QTYPE_A)
         == if device in Mapping(content) then Some(Mapping(content)[device]) else None
  {
    var q := device + suffix;
    assert Lower(q) == Lower(device) + Lower(suffix);
    assert Normalize(q) == q;
    assert q[|q| - |suffix|..] == suffix;
    assert q[..|q| - |suffix|] == device;
  }

  /** The server answers for itself under any non-empty lower-case suffix, with or without a config file. */
  lemma ResolveServer(content: Option<string>, suffix: string)
    requires |suffix| > 0 && suffix[|suffix| - 1] != '.' && Lower(suffix) == suffix
    ensures ResolveQuery(content, suffix, "server" + suffix, QTYPE_A) == Some(SERVER_ADDRESS)
  {
    assert Lower("server") == "server";
    ResolveDevice(content, suffix, "server");
  }

  /** A decoded question: its name and type. */
  datatype Question = Question(qname: string, qtype: int)

  /** The datagram sent back: one A answer, a Name Error, or nothing at all. */
  datatype Reply = Answer(ip: string, ttl: nat) | NameError(rcode: nat) | Drop

  /** The server's configuration: the suffix is lower-cased once, when the server is made. */
  datatype Server = Server(suffix: string)

  /** `InternalDNSServer(domain_suffix=...)`. */
  function NewServer(domainSuffix: string): (s: Server)
    ensures s.suffix == Lower(domainSuffix)
    ensures Lower(s.suffix) == s.suffix && |s.suffix| == |domainSuffix|
  {
    LowerIdempotent(domainSuffix);
    Server(Lower(domainSuffix))
  }

  /**
   * `handle_request`: an undecodable datagram gets no reply; a resolved non-empty
   * address one answer with TTL 60; anything else a Name Error.
   */
  function HandleRequest(server: Server, content: Option<string>, request: Option<Question>): (r: Reply)
    ensures request.None? <==> r.Drop?
    ensures r.Answer? ==>
      && r.ttl == ANSWER_TTL && r.ip != ""
      && ResolveQuery(content, server.suffix, request.value.qname, request.value.qtype) == Some(r.ip)
    ensures r.NameError? ==>
      && r.rcode == RCODE_NAME_ERROR
      && ResolveQuery(content, server.suffix, request.value.qname, request.value.qtype) in {None, Some("")}
  {
    match request
    case None => Drop
    case Some(q) =>
      var ip := ResolveQuery(content, server.suffix, q.qname, q.qtype);
      if ip.Some? && ip.value != "" then Answer(ip.value, ANSWER_TTL)
      else NameError(RCODE_NAME_ERROR)
  }
}
