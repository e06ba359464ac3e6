# Piercer registry, resolver and expiry report in Dafny

Piercer runs a WireGuard overlay network, 10.8.0.0/24, with its server at
10.8.0.1. This project models three parts of it and proves properties about them.

- **The peer registry** (`WgParser`). The server's `wg0.conf` doubles as a small
  database. Each peer is a `[Peer]` section headed by a comment block naming the
  device and the date it was added. The registry:
  - parses those blocks back into peer records;
  - computes the addresses in use and the next free host address;
  - checks name and address conflicts;
  - appends a newly generated block (`add_peer`);
  - deletes the blocks of a name (`remove_peer`);
  - merges the per-peer statistics of `wg show wg0 dump` into the parsed peers.
- **The internal name resolver** (`InternalDNSServer`). It answers A queries for
  `<device><suffix>` with the device's address. The names `server` and `gateway`
  always resolve to 10.8.0.1. Other questions get a Name Error, and an
  undecodable datagram gets no reply.
- **The subscription expiry report** (`ClashParser`). It reads proxy-provider keys of
  the form `name-YYYY-MM-DD`. For each it counts the days left before the date and
  classifies the subscription as expired, expiring (up to 7 days) or active; a key
  with no date is unknown. It sorts the records by urgency and summarises the counts.

## Modules

| file | module | what it holds |
|---|---|---|
| `wrappers.dfy` | `Wrappers` | `Option` and `Result` |
| `text.dfy` | `Text` | Python's `strip`, `split`, `join`, `lower`, `rstrip(chars)` and `startswith`/`endswith` over `seq<char>` |
| `ipv4.dfy` | `Ipv4` | `IPv4Address` parsing and formatting; the hosts `10.8.0.i` |
| `peer_block.dfy` | `PeerBlock` | The block grammar (`PEER_PATTERN` read over lines), the field searches, the decoder and `generate_peer_block` |
| `removal.dfy` | `Removal` | `remove_peer`'s name-specific pattern and `subn` over lines |
| `wg_parser.dfy` | `WgParser` | The registry operations, and the class `WgConfigFile`, whose `content` field is the file |
| `wg_status.dfy` | `WgStatus` | Python `int()`, the dump parser and the merge into the peers |
| `canonical.dfy` | `Canonical` | Documents in the form `add_peer` writes, and the round-trip, append and removal theorems over them |
| `dns_server.dfy` | `DnsServer` | The name-to-address map, `resolve_query` and `handle_request` |
| `clash_parser.dfy` | `ClashParser` | Calendar dates as ordinals, key parsing, status, the stable sort and the summary |

The methods are the loops the source runs, each proved equal to a function:
- `ParsePeers`, `DecodeEach`
- `GetUsedIps`, `CollectIps`
- `NextAvailableIp`, `CheckIpConflict`
- `GetRuntimeStatus`, `ApplyStatus`, `PeersWithStatus`
- `NameToIpMapping`, `GetSubscriptionStatus`

`WgConfigFile.AddPeer` and `WgConfigFile.RemovePeer` change the file. The
properties are proved about the functions.

## Model

| member | source | states |
|---|---|---|
| Text.LStrip | piercer/core/wg_parser.py:94-95 | The result is a suffix of the input; everything dropped is whitespace, and the result does not start with whitespace. |
| Text.RStrip | piercer/core/wg_parser.py:232 | The result is a prefix of the input; everything dropped is whitespace, and the result does not end with whitespace. |
| Text.Strip | piercer/core/wg_parser.py:94-95 | The result has no surrounding whitespace and is no longer than the input. |
| Text.StripSlice | piercer/core/wg_parser.py:94-95 | The result of `strip()` is the slice of the input that starts right after the leading whitespace `lstrip()` drops. |
| Text.StripDropsSpace | piercer/core/wg_parser.py:94-95 | Everything `strip()` drops, before and after the kept slice, is whitespace. |
| Text.StripOfStripped | piercer/core/wg_parser.py:107-111 | Stripping a text that has no surrounding whitespace leaves it unchanged. |
| Text.StripIdempotent | piercer/core/wg_parser.py:94-95 | Stripping twice is the same as stripping once. |
| Text.StripKeepsOut | piercer/core/wg_parser.py:107-111 | Stripping never introduces a character that was absent. |
| Text.Split | piercer/core/wg_parser.py:271 | `split(sep)` never returns an empty list, no piece contains the separator, and joining the pieces gives back the text. |
| Text.SplitJoin | piercer/core/wg_parser.py:202 | Splitting a join of separator-free parts gives back those parts. |
| Text.SplitConcat | piercer/core/wg_parser.py:232 | Splitting `a + sep + b` splits `a` and `b` separately. |
| Text.Lower | piercer/dns_server.py:43 | `lower()` keeps the length and lower-cases each character on its own. |
| Text.RStripChar | piercer/dns_server.py:62 | `rstrip(".")` drops exactly the trailing dots: the result is a prefix that does not end in a dot. |
| Text.BeforeSlash | piercer/core/wg_parser.py:124 | `split("/")[0]` is the longest slash-free prefix, and it stops at the first slash. |
| Ipv4.Host | piercer/core/wg_parser.py:138 | `10.8.0.i` lies in 10.8.0.0/24 with host part `i`. |
| Ipv4.ParseOctet | piercer/core/wg_parser.py:126 | A dotted-quad field is accepted exactly when it has 1 to 3 ASCII digits, no leading zero and a value of at most 255. |
| Ipv4.ParseIpv4 | piercer/core/wg_parser.py:147 | `IPv4Address(s)` succeeds exactly when `s` is four accepted fields separated by dots; the value is the fields in base 256 (`ParseIpv4Octets`). |
| Ipv4.OctetText | piercer/core/wg_parser.py:138 | The decimal text of a value below 256 is an accepted field with that value. |
| Ipv4.OctetsCompose | piercer/core/wg_parser.py:35-36 | An address is recomposed from its four octets. |
| Ipv4.ParseIpv4Octets | piercer/core/wg_parser.py:147 | The parsed address is the base-256 number whose four octets, most significant first, are the values of the four fields. |
| Ipv4.ParseFormat | piercer/core/wg_parser.py:138 | Parsing the dotted-quad text of any address gives back that address. |
| PeerBlock.DateEnd | piercer/core/wg_parser.py:17-20 | The lazy date group ends on a line followed by a banner, `[Peer]` and at least one more line, and the date is non-empty. |
| PeerBlock.NameEnd | piercer/core/wg_parser.py:17-20 | The lazy name group ends on a line whose next line starts `# AddedAt:` and admits a date end; the name is non-empty. |
| PeerBlock.DateEndFirst | piercer/core/wg_parser.py:17-20 | The date group is lazy: it ends on the first line at which it may end, and there is no match when no line qualifies. |
| PeerBlock.NameEndFirst | piercer/core/wg_parser.py:17-20 | The name group is lazy: it ends on the first line at which it may end, and there is no match when no line qualifies. |
| PeerBlock.BodyEnd | piercer/core/wg_parser.py:18 | The body stops at the first later line that starts `# =`, or at the end of the text. |
| PeerBlock.BlockAt | piercer/core/wg_parser.py:17-20 | A match starts only at a whole banner line followed by a `# ClientName:` line, and it spans at least six lines. |
| PeerBlock.BlockAtSingle | piercer/core/wg_parser.py:17-20 | When the name and date take one line each, the groups are those lines' text after the tags, and the body is the lines up to the body end. |
| PeerBlock.Blocks | piercer/core/wg_parser.py:92-93 | `PEER_PATTERN.finditer`: the successive non-overlapping matches over the lines. `BlocksSkip` shows lines where no match starts are passed over; `Canonical.ChunkBlocks` and `Canonical.BlocksOfChain` show the matches over a written document are exactly its blocks, in order. |
| PeerBlock.BlocksSkip | piercer/core/wg_parser.py:93 | `finditer` finds nothing on lines where no match starts. |
| PeerBlock.SkipSpace | piercer/core/wg_parser.py:23 | The greedy `\s*` stops at the first character that is not whitespace. |
| PeerBlock.LineEnd | piercer/core/wg_parser.py:23 | `.+` stops at the first line break. |
| PeerBlock.FieldAt | piercer/core/wg_parser.py:22-32 | A field match at an index needs the key there, and the value is stripped and has no line break. |
| PeerBlock.Search | piercer/core/wg_parser.py:99-102 | A value found by `re.search` is stripped and has no line break. |
| PeerBlock.DecodeBlock | piercer/core/wg_parser.py:94-112 | A decoded peer has every text field stripped and no runtime statistics yet. |
| PeerBlock.DecodeBlockFields | piercer/core/wg_parser.py:94-112 | A match is dropped exactly when its body lacks `PublicKey` or `AllowedIPs`. A kept peer carries the first value found for each key, None for an absent optional key, and the stripped name and date. |
| PeerBlock.DecodeAll | piercer/core/wg_parser.py:92-115 | Decoding keeps at most one peer per match, each trimmed. |
| PeerBlock.DecodeAllAppend | piercer/core/wg_parser.py:104-113 | Decoding is match by match: a skipped block does not affect the others. |
| PeerBlock.DecodeAllNext | piercer/core/wg_parser.py:104-113 | One more match appends its peer at the end when it decodes, and nothing otherwise. |
| PeerBlock.ParsedPeers | piercer/core/wg_parser.py:87-115 | Every parsed peer is trimmed. |
| PeerBlock.SkipSpaceAt | piercer/core/wg_parser.py:23 | `\s*` is determined by where the whitespace run ends. |
| PeerBlock.LineEndAt | piercer/core/wg_parser.py:23 | `.+` is determined by where the next line break is. |
| PeerBlock.FieldAtIndex | piercer/core/wg_parser.py:22-32 | Where the text reads `<key> = <value>` and a line break, the field pattern yields that value. |
| PeerBlock.FieldAtLine | piercer/core/wg_parser.py:22-32 | The same, with the line given as a text. |
| PeerBlock.SearchSkip | piercer/core/wg_parser.py:99-102 | `re.search` passes over every index where the key does not occur. |
| PeerBlock.SearchAbsent | piercer/core/wg_parser.py:99-102 | A body that does not contain the key has no such field. |
| PeerBlock.FindField | piercer/core/wg_parser.py:99-102 | The first `<key> = <value>` line after a key-free prefix is the one found. |
| PeerBlock.NoKeyInFront | piercer/core/wg_parser.py:99-102 | No occurrence of the key starts inside a key-free prefix. |
| PeerBlock.ValueLines | piercer/core/wg_parser.py:192-200 | A block has two to four field lines; `BodyParts` gives their content. |
| PeerBlock.Terminated | piercer/core/wg_parser.py:232 | Terminated lines end with a line break; `JoinTerminated` gives the text as each line followed by a break. |
| PeerBlock.JoinTerminated | piercer/core/wg_parser.py:202 | Joining lines with one more empty line terminates every line. |
| PeerBlock.TerminatedAppend | piercer/core/wg_parser.py:202 | Terminating two lists of lines is terminating each. |
| PeerBlock.Expected | piercer/core/wg_parser.py:175-202 | The peer expected back has the name, key and date it was written with. |
| PeerBlock.FreeFieldLine | piercer/core/wg_parser.py:192-200 | A field line cannot contain a key one of whose characters it lacks. |
| PeerBlock.SlashedClean | piercer/core/wg_parser.py:193 | Appending `/32` to a clean address keeps it clean. |
| PeerBlock.FreeLines | piercer/core/wg_parser.py:192-200 | Whole lines free of a key stay free of it when concatenated. |
| PeerBlock.FreeOptionalLine | piercer/core/wg_parser.py:196-200 | An optional field line cannot contain a key that one of its tag's characters rules out. |
| PeerBlock.GeneratePeerBlock | piercer/core/wg_parser.py:175-202 | `generate_peer_block`: the banner, name, date, banner and `[Peer]` lines, then the field lines. `BodyParts` gives the body line by line, and `DecodeWritten` and `Canonical.ParseDocument` read a written block back as its peer. |
| PeerBlock.BodyParts | piercer/core/wg_parser.py:192-200 | A written body is its field lines in order: PublicKey, AllowedIPs, then PresharedKey and Endpoint when given. |
| PeerBlock.FindPublicKey | piercer/core/wg_parser.py:99 | In a written body the PublicKey search finds the written key. |
| PeerBlock.FindAllowedIps | piercer/core/wg_parser.py:100 | In a written body the AllowedIPs search finds `<ip>/32`. |
| PeerBlock.FindPresharedKey | piercer/core/wg_parser.py:102 | The PresharedKey search finds a value exactly when a non-empty key was written, and finds that key. |
| PeerBlock.FindEndpoint | piercer/core/wg_parser.py:101 | The Endpoint search finds a value exactly when a non-empty endpoint was written, and finds that endpoint. |
| PeerBlock.DecodeWritten | piercer/core/wg_parser.py:175-202 | Round trip: a block written from clean arguments decodes to exactly the expected peer. |
| Removal.BannerTail | piercer/core/wg_parser.py:241 | The unanchored `# =+` is found at the first index where the rest of the line is a banner. None means no index qualifies. |
| Removal.RemoveAt | piercer/core/wg_parser.py:240-243 | A match of the name pattern starts inside a banner tail and is followed by exactly the name's line. It spans the header, `[Peer]` and the body. |
| Removal.Kept | piercer/core/wg_parser.py:240-245 | The lines `subn` leaves, from line `c` on. `KeptNoMatch` and `KeptSkip` show unmatched lines are kept whole; `Canonical.KeptChunks` shows that over a written document exactly the named blocks are deleted. |
| Removal.Count | piercer/core/wg_parser.py:240-245 | The number of matches `subn` reports. `CountSkip` shows unmatched lines add nothing; `Canonical.CountChunks` gives one match per named block. |
| Removal.KeptNoMatch | piercer/core/wg_parser.py:245-248 | With no match, `subn` keeps every line. |
| Removal.KeptSkip | piercer/core/wg_parser.py:245 | Lines where no match starts are kept unchanged. |
| Removal.CountSkip | piercer/core/wg_parser.py:245 | Lines where no match starts add nothing to the count. |
| Removal.NameLines | piercer/core/wg_parser.py:241 | For a name without a line break, the escaped name line is one line. |
| Removal.NoMatchWithoutName | piercer/core/wg_parser.py:241 | No match starts on a line that is not followed by the name's line. |
| Removal.RemoveText | piercer/core/wg_parser.py:238-245 | `pattern.subn("", content)` for a name: the rewritten text and the count. `RemoveNothing` shows a zero count leaves the text unchanged; `Canonical.RemoveFromDocument` shows a written document loses exactly the blocks of that name. |
| Removal.RemoveNothing | piercer/core/wg_parser.py:245-248 | When the count is 0, the rewritten text is the original text. |
| WgParser.ParsePeers | piercer/core/wg_parser.py:87-115 | The loop over the matches returns the parsed peers of the text. |
| WgParser.DecodeEach | piercer/core/wg_parser.py:92-113 | Appending each decodable match yields the decoding of all matches, in order. |
| WgParser.UsedIps | piercer/core/wg_parser.py:117-130 | The used-address set of a peer list. `UsedIpsSound`, `UsedIpsComplete` and `UsedIpsHasServer` pin it down as 10.8.0.1 plus every parsable peer address, and nothing else. |
| WgParser.UsedIpsSound | piercer/core/wg_parser.py:117-130 | Every used address is 10.8.0.1 or the parsed address of some peer. |
| WgParser.UsedIpsComplete | piercer/core/wg_parser.py:117-130 | The address of every peer whose AllowedIPs host part parses as IPv4 is used. |
| WgParser.UsedIpsHasServer | piercer/core/wg_parser.py:120 | 10.8.0.1 is always used. |
| WgParser.GetUsedIps | piercer/core/wg_parser.py:117-130 | Returns the used-address set of the parsed peers. |
| WgParser.CollectIps | piercer/core/wg_parser.py:120-128 | Filling the set peer by peer, skipping unparsable entries, gives the used-address set. |
| WgParser.FirstFree | piercer/core/wg_parser.py:136-142 | The result is the smallest host `i` with `lo <= i <= 254` that is not used: every smaller candidate is used. None exactly when all of them are. |
| WgParser.NextAvailableIp | piercer/core/wg_parser.py:132-142 | Returns the first free host from .2 on, or PoolExhausted when .2 to .254 are all used. |
| WgParser.NextFreeExample | piercer/core/wg_parser.py:137-140 | With .1, .5, .6 and .7 used, 10.8.0.2 is handed out. |
| WgParser.IpConflict | piercer/core/wg_parser.py:144-152 | InvalidAddress exactly when the text before the first slash is not IPv4. Otherwise the answer is whether that address is in the used set of the peers. |
| WgParser.CheckIpConflict | piercer/core/wg_parser.py:144-152 | The check parses first, then reports membership in the used set of the parsed peers. |
| WgParser.AnyNamed | piercer/core/wg_parser.py:157 | True exactly when some peer's name equals the name exactly. |
| WgParser.CheckNameConflict | piercer/core/wg_parser.py:154-157 | True exactly when some parsed peer of the text has exactly that name. |
| WgParser.P2pCandidates | piercer/core/wg_parser.py:253-256 | Every result has an endpoint and is a peer; every peer with an endpoint is in the result. |
| WgParser.P2pAppend | piercer/core/wg_parser.py:256 | The filter keeps order: the candidates of two lists in a row are the candidates of each, in a row. |
| WgParser.P2pSingle | piercer/core/wg_parser.py:256 | A single peer is a candidate once when its endpoint was found, and is dropped otherwise. |
| WgParser.Appended | piercer/core/wg_parser.py:214-232 | What `add_peer` does to the text: the name check, then the address check, then the block appended. `WgConfigFile.AddPeer` writes exactly this. `Canonical.AddToDocument` and `Canonical.AddedPeerIsLast` show that over a written document the new peer is parsed back last, after the old ones. |
| WgParser.WgConfigFile.constructor | piercer/core/wg_parser.py:74-75 | The file's content is the given initial content; None means the file is absent. |
| WgParser.WgConfigFile.AddPeer | piercer/core/wg_parser.py:204-233 | A missing file raises FileNotFound. Otherwise the checks run in the source's order: a name conflict, an unreadable address, an address in use. On any error nothing is written. On success the content becomes `rstrip(old) + "\n" + block + "\n"`. |
| WgParser.WgConfigFile.RemovePeer | piercer/core/wg_parser.py:235-251 | A missing file raises FileNotFound. Otherwise the result says whether the count is positive, and the file holds the rewritten text, which is the old text when nothing matched. |
| WgStatus.DropUnderscores | piercer/core/wg_parser.py:282-284 | Removing underscores keeps only characters of the input and no underscore. |
| WgStatus.DropNoUnderscores | piercer/core/wg_parser.py:282-284 | A text without underscores is unchanged. |
| WgStatus.GroupedDecimal | piercer/core/wg_parser.py:282-284 | `str(n)` is a valid digit group with no underscores. |
| WgStatus.IntTextStripped | piercer/core/wg_parser.py:282-284 | `str(v)` has no surrounding whitespace. |
| WgStatus.ParseGroupedDecimal | piercer/core/wg_parser.py:282-284 | The digits of `str(n)` read back as `n`. |
| WgStatus.ParseSignedText | piercer/core/wg_parser.py:282-284 | The sign and digits of `str(v)` read back as `v`. |
| WgStatus.ParseSignedDecimal | piercer/core/wg_parser.py:282-284 | Unsigned digits read back as their value. |
| WgStatus.ParseSignedMinus | piercer/core/wg_parser.py:282-284 | A minus sign before digits reads back as the negated value. |
| WgStatus.ParseInt | piercer/core/wg_parser.py:282-284 | Python `int()` of a dump field: surrounding whitespace ignored, an optional sign, digits with single underscores between them. `ParseIntText` shows it reads `str(v)` back as `v`; the `ParseSigned*` lemmas give the sign and digit cases. |
| WgStatus.ParseIntText | piercer/core/wg_parser.py:282-284 | `int(str(v)) == v` for every integer. |
| WgStatus.Unless | piercer/core/wg_parser.py:279-285 | A field is None exactly when it is the tool's placeholder. |
| WgStatus.EntryOf | piercer/core/wg_parser.py:279-286 | A line fails with InvalidNumber exactly when one of its `int()` calls would fail. Otherwise the counters are `int()` of fields 5 and 6. The handshake is None exactly when field 4 is "0", else its `int()`. The preshared key and endpoint are None at "(none)", the keepalive at "off", and the allowed IPs are field 3. |
| WgStatus.LineOf | piercer/core/wg_parser.py:275-286 | A line with fewer than eight tab-separated fields is skipped. Otherwise it is recorded under its first field with `EntryOf` of its fields, or fails as `EntryOf` fails. |
| WgStatus.Outcomes | piercer/core/wg_parser.py:274-276 | There is one outcome per peer line, in order. |
| WgStatus.Fill | piercer/core/wg_parser.py:274-286 | The status map filled line by line. `FillKeys`, `FillLatest`, `FillFails` and `FillStopsAtError` show its keys are the recorded keys and each holds the record of its last line, and that the first failing line makes the whole call fail. |
| WgStatus.FillKeys | piercer/core/wg_parser.py:270-288 | The keys of the status map are exactly the public keys of the recorded lines. |
| WgStatus.FillLatest | piercer/core/wg_parser.py:278 | Each key holds the record of the last line with that key. |
| WgStatus.FillFails | piercer/core/wg_parser.py:282-284 | The whole call fails exactly when some line fails. |
| WgStatus.FillStopsAtError | piercer/core/wg_parser.py:282-284 | The first error is final. |
| WgStatus.RuntimeStatus | piercer/core/wg_parser.py:258-288 | `get_runtime_status` given the dump, or None when the command is missing or fails, which gives the empty map. Otherwise the map is `Fill` of the lines after the first; see the `Fill*` lemmas. |
| WgStatus.GetRuntimeStatus | piercer/core/wg_parser.py:258-288 | The line-by-line loop yields the status of the dump; a command that could not be run yields the empty map. |
| WgStatus.WithStatus | piercer/core/wg_parser.py:296-300 | A peer whose key has statistics gets its handshake and both counters, and nothing else changes. A peer without statistics is unchanged. |
| WgStatus.ApplyStatus | piercer/core/wg_parser.py:295-300 | Every peer, in place and in order, gets its statistics. |
| WgStatus.PeersWithStatus | piercer/core/wg_parser.py:290-302 | A missing file raises FileNotFound and an unreadable dump number raises InvalidNumber. Otherwise the result is the parsed peers, each with its statistics. |
| Canonical.Chunk | piercer/core/wg_parser.py:185-202 | A block takes six fixed lines plus its field lines. |
| Canonical.ChunksSnoc | piercer/core/wg_parser.py:232 | Appending a peer appends its lines at the end. |
| Canonical.JoinChunk | piercer/core/wg_parser.py:232 | Joining one more chunk of lines appends the generated block and a line break. |
| Canonical.JoinDocumentLines | piercer/core/wg_parser.py:232 | Joining a document's lines gives back the document. |
| Canonical.ValueLinesOk | piercer/core/wg_parser.py:192-200 | Every field line written from clean arguments is a non-empty, single, non-comment line ending in a visible character. |
| Canonical.BannerShape | piercer/core/wg_parser.py:187 | The written banner matches `# =+` and starts with `# =`, where a body stops. |
| Canonical.TagsOneLine | piercer/core/wg_parser.py:187-191 | The fixed lines of a block hold no line break. |
| Canonical.ChunkNoBreaks | piercer/core/wg_parser.py:185-202 | A clean block's lines hold no line break. |
| Canonical.ChunksNoBreaks | piercer/core/wg_parser.py:185-202 | The lines of clean blocks hold no line break. |
| Canonical.SplitDocument | piercer/core/wg_parser.py:232 | A document splits into its header lines, a blank line and the lines of each block. |
| Canonical.ChunkLines | piercer/core/wg_parser.py:185-202 | Where a block sits, its lines are the banner, the name, the date, the banner, `[Peer]`, the field lines and a blank line. |
| Canonical.ChunkEnds | piercer/core/wg_parser.py:17-20 | Over a written block, the lazy date group ends on the date line, and the body ends at the block's last line. |
| Canonical.ChunkMatch | piercer/core/wg_parser.py:17-20 | The block pattern matches a written block and yields its name, date and field lines, ending where the block ends. |
| Canonical.ChunkHead | piercer/core/wg_parser.py:17-20 | The name and date groups of a written block are one line each and read back the written name and date. |
| Canonical.ChunkRemoveAt | piercer/core/wg_parser.py:240-243 | The removal pattern matches a written block exactly when the block is headed by that name, and the match covers the whole block. |
| Canonical.ChunkInside | piercer/core/wg_parser.py:240-243 | No match of the removal pattern starts inside a written block. |
| Canonical.ChunksMatch | piercer/core/wg_parser.py:93 | Over written blocks, the block pattern matches each block in turn. |
| Canonical.BlocksOfChain | piercer/core/wg_parser.py:93 | `finditer` along consecutive matches finds their blocks, in order. |
| Canonical.DecodeRaws | piercer/core/wg_parser.py:94-113 | The matches over clean written blocks decode to the expected peers. |
| Canonical.HeaderBlocks | piercer/core/wg_parser.py:93 | No match starts in a header without peer blocks, so the matches are the blocks'. |
| Canonical.ChunkBlocks | piercer/core/wg_parser.py:93 | The matches over written blocks are those blocks, in order. |
| Canonical.ExpectedPeers | piercer/core/wg_parser.py:175-202 | There is one expected peer per written block, in order. |
| Canonical.ParseDocument | piercer/core/wg_parser.py:87-115 | Round trip: `parse_peers` on a written document returns one peer per block, in the order written, each as written. |
| Canonical.WrittenEnd | piercer/core/wg_parser.py:232 | `rstrip` leaves a written text without a final line break alone. |
| Canonical.BlockEndsInText | piercer/core/wg_parser.py:192-202 | A generated block ends in a visible character. |
| Canonical.DocumentStrip | piercer/core/wg_parser.py:232 | `rstrip` of a document removes only its final line break. |
| Canonical.AddToDocument | piercer/core/wg_parser.py:214-233 | `add_peer` on a document refuses a listed name, then an unreadable address, then an address in use. Otherwise the result is the document with the new block appended after the others. |
| Canonical.AddedPeerIsLast | piercer/core/wg_parser.py:232 | After an add, the earlier peers parse unchanged and the new peer comes last. |
| Canonical.WithoutMembers | piercer/core/wg_parser.py:245 | After removal the remaining peers are exactly those with other names, in order. |
| Canonical.NamedCountPositive | piercer/core/wg_parser.py:247 | The match count is positive exactly when some block has the name. |
| Canonical.KeptStep | piercer/core/wg_parser.py:245 | `subn` over one written block deletes it when it is headed by the name and keeps it otherwise. |
| Canonical.KeptChunks | piercer/core/wg_parser.py:245 | `subn` over written blocks deletes the blocks headed by the name and keeps the rest, in order. |
| Canonical.CountChunks | piercer/core/wg_parser.py:245 | `subn` counts one match per block headed by the name. |
| Canonical.HeaderNoMatch | piercer/core/wg_parser.py:240-243 | The removal pattern matches nowhere in a header without peer blocks. |
| Canonical.RemoveFromDocument | piercer/core/wg_parser.py:235-251 | `remove_peer` on a document leaves the document without the blocks of that name and counts those blocks. |
| Canonical.NameListed | piercer/core/wg_parser.py:154-157 | A name is listed in a parsed document exactly when a block was written with it. |
| Canonical.RemoveReportsName | piercer/core/wg_parser.py:245-251 | `remove_peer` reports success exactly when `check_name_conflict` would find the name. |
| Canonical.RemovedNameGone | piercer/core/wg_parser.py:235-251 | After removal no peer has that name, and the other peers parse as before, in order. |
| DnsServer.PeerNames | piercer/dns_server.py:40-46 | The map the peer loop builds, lower-cased name to address. `PeerNamesKeys` gives its keys, and `PeerNamesLastWins` shows the last peer with a name decides its address. |
| DnsServer.Mapping | piercer/dns_server.py:35-54 | `get_name_to_ip_mapping` of the file text, or of None for no file. `AliasesFixed` gives the two aliases and the agreement with `PeerNames` in both directions. |
| DnsServer.PeerNamesKeys | piercer/dns_server.py:40-46 | A name is mapped exactly when some peer's lower-cased name is that name. |
| DnsServer.PeerNamesLastWins | piercer/dns_server.py:41-46 | The last peer with a lower-cased name decides that name's address: the text before the slash of its AllowedIPs. |
| DnsServer.AliasesFixed | piercer/dns_server.py:47-54 | `server` and `gateway` always map to 10.8.0.1, even over a peer of that name or with no file. Every other key maps as the peers give it, and every peer name other than the aliases is in the mapping with the peers' address. |
| DnsServer.NameToIpMapping | piercer/dns_server.py:35-54 | The loop with overwrites, then the aliases, gives the mapping. A missing file leaves only the aliases. |
| DnsServer.ResolveQuery | piercer/dns_server.py:56-77 | Non-A types and names outside the suffix get no answer. An answer is the map's entry for the normalized name minus the suffix. |
| DnsServer.LowerIdempotent | piercer/dns_server.py:62 | Lower-casing twice is lower-casing once. |
| DnsServer.ResolveIgnoresCase | piercer/dns_server.py:62 | A query and its lower-cased form get the same answer. |
| DnsServer.ResolveIgnoresRootDot | piercer/dns_server.py:62 | `name.` and `name` get the same answer. |
| DnsServer.ResolveDevice | piercer/dns_server.py:72-77 | Under a non-empty suffix, `<device><suffix>` resolves to the device's map entry, or to nothing when it has none. |
| DnsServer.ResolveServer | piercer/dns_server.py:51-77 | `server<suffix>` always resolves to 10.8.0.1. |
| DnsServer.NewServer | piercer/dns_server.py:29 | The stored suffix is the configured one lower-cased. |
| DnsServer.HandleRequest | piercer/dns_server.py:79-109 | No reply exactly when the datagram does not decode. An answer carries TTL 60 and the resolved non-empty address. A Name Error carries RCODE 3 and is sent only when nothing, or an empty address, was resolved. |
| ClashParser.DaysInMonth | piercer/core/clash_parser.py:76 | Every month has 28 to 31 days; `DaysBeforeNextYear` and `OrdinalNextDay` show the table counts the calendar's days. |
| ClashParser.DaysBeforeNextYear | piercer/core/clash_parser.py:94 | A year has 366 days when it is a leap year and 365 otherwise. |
| ClashParser.Ordinal | piercer/core/clash_parser.py:94 | The day number that `(expire_date - today).days` subtracts. `OrdinalNextDay` shows consecutive days differ by one, and `DaysBeforeNextYear` gives the year lengths. |
| ClashParser.OrdinalNextDay | piercer/core/clash_parser.py:94 | `(d2 - d1).days` counts days: the next day's ordinal is one more. |
| ClashParser.KeyLine | piercer/core/clash_parser.py:16 | The text `$` must reach is the key itself, or the key without its final line break. |
| ClashParser.MatchDateKey | piercer/core/clash_parser.py:16 | A matched name is non-empty and has no line break. |
| ClashParser.MatchDateKeyLayout | piercer/core/clash_parser.py:16 | A match lays the key out as name, `-`, four digits, `-`, two digits, `-`, two digits (then perhaps a final line break), and its three numbers are the values of those digit runs. |
| ClashParser.MatchDateKeyOf | piercer/core/clash_parser.py:16 | Every key of that layout matches, giving back exactly its name and the values of its digit runs. |
| ClashParser.ParseSubscriptionDate | piercer/core/clash_parser.py:62-80 | A date is returned exactly when the key matches and its numbers make a real date, and then with the matched name. Otherwise the key itself is returned with no date. |
| ClashParser.Fixed | piercer/core/clash_parser.py:165 | Zero-padded text has exactly the requested number of digits, and its value is the number. |
| ClashParser.IsoDate | piercer/core/clash_parser.py:165 | `isoformat()` is ten characters long; `ParseDateKey` shows it reads back as the same date. |
| ClashParser.ParseDateKey | piercer/core/clash_parser.py:62-77 | Round trip: `name-<isoformat>` parses back to the name and the date. |
| ClashParser.DatedKeyMatches | piercer/core/clash_parser.py:16 | "provider-a-2026-02-15" matches with name "provider-a" and numbers 2026, 2, 15. |
| ClashParser.BadMonthMatches | piercer/core/clash_parser.py:16 | "provider-b-2026-13-01" matches too; month 13 is only rejected afterwards. |
| ClashParser.DatedKeyExample | piercer/core/clash_parser.py:69-77 | "provider-a-2026-02-15" gives ("provider-a", 2026-02-15). |
| ClashParser.UndatedKeyExample | piercer/core/clash_parser.py:80 | "legacy-provider" gives ("legacy-provider", None). |
| ClashParser.BadMonthExample | piercer/core/clash_parser.py:75-80 | A key with month 13 gives the key itself and no date. |
| ClashParser.CalculateStatus | piercer/core/clash_parser.py:82-101 | No date gives (None, unknown). Otherwise the days are the ordinal difference: expired iff below 0, expiring iff 0 to 7, active iff above 7. |
| ClashParser.ExpiringTomorrow | piercer/core/clash_parser.py:94-99 | A date tomorrow is expiring with one day left. |
| ClashParser.InfoOf | piercer/core/clash_parser.py:115-130 | A record keeps the key, takes its name and date from parsing the key, and has the status and days of that date. The url comes from a mapping value only. |
| ClashParser.Insert | piercer/core/clash_parser.py:135 | Inserting adds exactly that element. |
| ClashParser.InsertSorted | piercer/core/clash_parser.py:135 | Inserting into a sorted list keeps it sorted. |
| ClashParser.SortByKey | piercer/core/clash_parser.py:133-135 | The sort is a permutation. |
| ClashParser.SortSorted | piercer/core/clash_parser.py:133-135 | The sort orders by (status rank, `days_remaining or 999`). |
| ClashParser.WithKeyAppend | piercer/core/clash_parser.py:135 | Selecting the records of one sort key distributes over concatenation. |
| ClashParser.InsertStable | piercer/core/clash_parser.py:135 | Insertion puts a record after the earlier records with an equal key. |
| ClashParser.SortStable | piercer/core/clash_parser.py:135 | The sort is stable: records with equal keys keep the table's order. |
| ClashParser.Infos | piercer/core/clash_parser.py:115-131 | There is one record per provider, in the table's order. |
| ClashParser.GetSubscriptionStatus | piercer/core/clash_parser.py:103-137 | The append loop and then the sort give the report. A missing file gives an empty report. |
| ClashParser.SubscriptionStatus | piercer/core/clash_parser.py:103-137 | The report: no records without a file, else one record per provider sorted by key. `SubscriptionStatusLength`, `SortByKey` (a permutation), `SortSorted` and `SortStable` state each part. |
| ClashParser.SubscriptionStatusLength | piercer/core/clash_parser.py:103-137 | The report has exactly one record per provider, and none when the file is missing. |
| ClashParser.CountStatus | piercer/core/clash_parser.py:157-160 | A status count is at most the number of records; `CountStatusAppend` and `CountStatusSingle` pin it down as the number of records with that status. |
| ClashParser.CountStatusAppend | piercer/core/clash_parser.py:156-159 | Counting a status splits over concatenation. |
| ClashParser.CountStatusSingle | piercer/core/clash_parser.py:156-159 | A single record counts one under its own status and zero under the others. |
| ClashParser.CountsAddUp | piercer/core/clash_parser.py:155-160 | The four status counts add up to the number of records. |
| ClashParser.GetStatusSummary | piercer/core/clash_parser.py:139-173 | Each status count is the number of records of the report with that status. The counts add up to the total, which is the number of providers, or 0 with no file. The entries follow the report's order and give each record's key, name, status, days and ISO date. |

## Left out

- File I/O: the file is the `content` field of `WgConfigFile`, or a parameter, and None stands for a missing file. `content` is the text after `read_text` has translated `\r\n` and `\r` into `\n`; that translation is not modelled. The concurrent read-modify-write race of `add_peer` and `remove_peer` is not modelled; the model is sequential.
- `get_server_public_key`, `reload_wg` and `generate_client_config_template` are not part of this model. They run external commands or fill a fixed text template.
- The `subprocess.run` of `get_runtime_status`: its output is a parameter. None stands for a command that failed or is missing, which yields the empty map as the source does.
- `get_peers_with_status` copies only the handshake and the two counters into the peers; the other four entries are in the status map but unused.
- `serve_forever`, `start_background` and `stop`: the UDP socket, the thread and the running flag.
- The dnslib codec: a decoded question is a `Question`, an undecodable datagram is None, and the reply is a `Reply` datatype. dnslib's rejection of an answer text that is not an IPv4 address (`A(ip)`) is not modelled.
- `yaml.safe_load` and `get_proxy_providers`: the provider table is a parameter, a sequence of (key, value) pairs in the mapping's order. None stands for a missing file. Non-string keys and a document without a mapping at the top are not modelled.
- `date.today()`: today's date is a parameter.
- Text handling is ASCII only. `strip`, `\s`, `\d`, `int()` and `lower()` are modelled on the ASCII range; Python also accepts or changes other Unicode characters.
- WgStatus.ApplyStatus: the in-place update of the peer objects is modelled as a new sequence of updated records. Aliasing between the peer list and other references is not captured.
- ClashParser.SortByKey: the in-place `list.sort` is modelled as a stable insertion sort on values. It is proved a sorted, stable permutation, which is what `list.sort` guarantees.
- Canonical.ParseDocument, Canonical.AddedPeerIsLast, Canonical.RemoveFromDocument and Canonical.RemovedNameGone are proved for documents in the form `add_peer` writes. Such a document has a header in which no line starts `# ClientName: ` and that does not end in whitespace, followed by blocks written from clean arguments. Clean arguments are non-empty, stripped, single-line values, and the field values do not contain the keys searched after them. Names have no line break. On other texts the parser and `remove_peer` are modelled exactly, but no round trip is claimed.
- Ipv4: the `VPN_NETWORK` object itself is not modelled. Only the hosts `10.8.0.i` that the allocator builds are used.

Behaviour of the code the model keeps:
- `parse_peers` raises when the file is missing, so `PeersWithStatus` returns FileNotFound rather than an empty list. Only the name map treats a missing file as empty.
- `remove_peer` deletes every block headed by the name, not just one.
- A failing `int()` in the status dump raises from `get_runtime_status` instead of degrading to an empty map.
- The P2P candidates are the peers whose endpoint was found at all, including an endpoint that strips to the empty text.
