/**
 * Documents in the form `add_peer` writes them: a header (the `[Interface]` section
 * and whatever else precedes the peers), then one generated block per peer, each
 * after a line break, and a final line break. On such documents the parser,
 * `add_peer` and `remove_peer` are pinned down completely: every written peer
 * parses back, an added peer comes last, and a removal deletes exactly the blocks
 * of that name.
 */
module Canonical {
  import opened Wrappers
  import opened Text
  import opened PeerBlock
  import opened Removal
  import opened WgParser

  // ---------------------------------------------------------------------------
  // The documents and their lines.
  // ---------------------------------------------------------------------------

  /** The text before the final line break: the header, then each block after a line break. */
  function Written(header: string, specs: seq<PeerSpec>): string
    decreases |specs|
  {
    if |specs| == 0 then header
    else Written(header, specs[..|specs| - 1]) + "\n" + GeneratePeerBlock(specs[|specs| - 1])
  }

  /** The document holding `header` and one written block per entry of `specs`, in order. */
  function Document(header: string, specs: seq<PeerSpec>): string {
    Written(header, specs) + "\n"
  }

  /** The lines of one block without the blank line before it, and the blank line after it. */
  function Chunk(s: PeerSpec): (r: seq<string>)
    ensures |r| == 6 + |ValueLines(s)|
  {
    HeaderLines(s) + ValueLines(s) + [""]
  }

  /** The chunks of the specs, one after the other. */
  function Chunks(specs: seq<PeerSpec>): seq<string>
    decreases |specs|
  {
    if |specs| == 0 then [] else Chunk(specs[0]) + Chunks(specs[1..])
  }

  /** The lines of a document: the header's, a blank one, then the chunks. */
  function DocumentLines(header: string, specs: seq<PeerSpec>): seq<string> {
    Split(header, '\n') + [""] + Chunks(specs)
  }

  /** A header in which no line starts `# ClientName: `, so no block begins there. */
  ghost predicate NoPeerLines(header: string) {
    forall i | 0 <= i < |Split(header, '\n')| :: !StartsWith(Split(header, '\n')[i], NAME_TAG)
  }

  /** Every spec is clean. */
  ghost predicate AllClean(specs: seq<PeerSpec>) {
    forall i | 0 <= i < |specs| :: Clean(specs[i])
  }

  /** One more spec adds its chunk at the end. */
  lemma {:induction false} ChunksSnoc(specs: seq<PeerSpec>, s: PeerSpec)
    ensures Chunks(specs + [s]) == Chunks(specs) + Chunk(s)
    decreases |specs|
  {
    if |specs| == 0 {
      assert specs + [s] == [s];
      assert [s][1..] == [];
    } else {
      assert (specs + [s])[0] == specs[0];
      assert (specs + [s])[1..] == specs[1..] + [s];
      ChunksSnoc(specs[1..], s);
    }
  }

  /** Three facts about texts glued into one. */
  lemma Glue(j1: string, j2: string, y: string, b: string, d: string)
    requires j1 == j2 + "\n" && j2 == y + "\n" + b && d == "\n" + b
    ensures j1 == y + d + "\n"
  {
  }

  /** Lines followed by a blank line, joined after other lines. */
  lemma JoinBlankAfter(Y: seq<string>, B: seq<string>)
    requires |Y| > 0 && |B| > 0
    ensures Join(Y + B + [""], '\n') == Join(Y, '\n') + Join([""] + B, '\n') + "\n"
  {
    JoinSnoc(Y + B, "", '\n');
    JoinAppend(Y, B, '\n');
    JoinAppend([""], B, '\n');
    Glue(Join(Y + B + [""], '\n'), Join(Y + B, '\n'), Join(Y, '\n'), Join(B, '\n'), Join([""] + B, '\n'));
  }

  /** Joining one more chunk appends the generated block and a line break. */
  lemma JoinChunk(Y: seq<string>, s: PeerSpec)
    requires |Y| > 0
    ensures Join(Y + Chunk(s), '\n') == Join(Y, '\n') + GeneratePeerBlock(s) + "\n"
  {
    JoinLinesBlankAfter(Y, HeaderLines(s), ValueLines(s));
  }

  /** `JoinBlankAfter` for lines given as a head and a body. */
  lemma JoinLinesBlankAfter(Y: seq<string>, H: seq<string>, V: seq<string>)
    requires |Y| > 0 && |H| > 0
    ensures Join(Y + (H + V + [""]), '\n') == Join(Y, '\n') + Join([""] + H + V, '\n') + "\n"
  {
    var B := H + V;
    assert Y + (H + V + [""]) == Y + B + [""];
    assert [""] + H + V == [""] + B;
    JoinBlankAfter(Y, B);
  }

  /** The lines joined give back the document. */
  lemma {:induction false} JoinDocumentLines(header: string, specs: seq<PeerSpec>)
    ensures Join(DocumentLines(header, specs), '\n') == Document(header, specs)
    decreases |specs|
  {
    var X := Split(header, '\n');
    if |specs| == 0 {
      assert DocumentLines(header, specs) == X + [""];
      JoinSnoc(X, "", '\n');
    } else {
      var n := |specs| - 1;
      var init := specs[..n];
      assert specs == init + [specs[n]];
      JoinDocumentLines(header, init);
      ChunksSnoc(init, specs[n]);
      assert DocumentLines(header, specs) == DocumentLines(header, init) + Chunk(specs[n]);
      JoinChunk(DocumentLines(header, init), specs[n]);
    }
  }

  // ---------------------------------------------------------------------------
  // The lines the encoder writes.
  // ---------------------------------------------------------------------------

  /** A field line: not empty, not a comment, one line, ending in a visible character. */
  predicate ValueLineOk(line: string) {
    |line| > 0 && line[0] != '#' && '\n' !in line && !IsSpace(line[|line| - 1])
  }

  /** A field line written from a clean value is a well-formed value line. */
  lemma FieldLineOk(key: string, v: string)
    requires |key| > 0 && key[0] != '#' && '\n' !in key
    requires CleanValue(v)
    ensures ValueLineOk(FieldLine(key, v))
  {
    var line := FieldLine(key, v);
    assert line[0] == key[0];
    assert line[|line| - 1] == v[|v| - 1];
  }

  /** Every field line written from clean arguments is a well-formed value line. */
  lemma ValueLinesOk(s: PeerSpec)
    requires Clean(s)
    ensures forall t | 0 <= t < |ValueLines(s)| :: ValueLineOk(ValueLines(s)[t])
  {
    SlashedClean(s.ip);
    FieldLineOk(PUBKEY_KEY, s.publicKey);
    FieldLineOk(ALLOWED_IPS_KEY, s.ip + "/32");
    if Given(s.presharedKey) {
      FieldLineOk(PRESHARED_KEY_KEY, s.presharedKey.value);
    }
    if Given(s.endpoint) {
      FieldLineOk(ENDPOINT_KEY, s.endpoint.value);
    }
  }

  /** The banner is a `# =+` line, and it starts with `# =`, where the lazy body stops. */
  lemma BannerShape()
    ensures IsBanner(BANNER) && StartsWith(BANNER, STOP) && BANNER[2] == '='
  {
    assert BANNER == "# " + seq(42, i => '=');
  }

  /** The fixed lines of a block are single lines. */
  lemma TagsOneLine()
    ensures '\n' !in BANNER && '\n' !in NAME_TAG && '\n' !in DATE_TAG && '\n' !in PEER_LINE
  {
    BannerShape();
    BannerOneLine(BANNER);
  }

  /** A banner line holds no line break. */
  lemma BannerOneLine(line: string)
    requires IsBanner(line)
    ensures '\n' !in line
  {
    assert line[0] == line[..2][0] && line[1] == line[..2][1];
  }

  /** A line that cannot be the name line `# ClientName: <name>` of any name. */
  predicate NotNameLine(line: string) {
    |line| < 3 || line[0] != '#' || line[2] != 'C'
  }

  /** A line that is not a name line differs from every `# ClientName: <name>` line. */
  lemma NameLineDiffers(line: string, name: string)
    requires NotNameLine(line)
    ensures line != NAME_TAG + name
  {
    var w := NAME_TAG + name;
    assert w[0] == '#' && w[2] == 'C';
  }

  /** The lines of a clean chunk hold no line break. */
  lemma ChunkNoBreaks(s: PeerSpec)
    requires Clean(s)
    ensures forall t | 0 <= t < |Chunk(s)| :: '\n' !in Chunk(s)[t]
  {
    TagsOneLine();
    ValueLinesOk(s);
    var c := Chunk(s);
    forall t | 0 <= t < |c| ensures '\n' !in c[t] {
      if 5 <= t < |c| - 1 {
        assert c[t] == ValueLines(s)[t - 5];
      }
    }
  }

  /** The lines of clean chunks hold no line break. */
  lemma {:induction false} ChunksNoBreaks(specs: seq<PeerSpec>)
    requires AllClean(specs)
    ensures forall t | 0 <= t < |Chunks(specs)| :: '\n' !in Chunks(specs)[t]
    decreases |specs|
  {
    if |specs| > 0 {
      ChunkNoBreaks(specs[0]);
      ChunksNoBreaks(specs[1..]);
      var a := Chunk(specs[0]);
      var b := Chunks(specs[1..]);
      assert Chunks(specs) == a + b;
      forall t | 0 <= t < |a + b| ensures '\n' !in (a + b)[t] {
        if t < |a| {
          assert (a + b)[t] == a[t];
        } else {
          assert (a + b)[t] == b[t - |a|];
        }
      }
    }
  }

  /** Splitting a document at line breaks gives its lines. */
  lemma SplitDocument(header: string, specs: seq<PeerSpec>)
    requires AllClean(specs)
    ensures Split(Document(header, specs), '\n') == DocumentLines(header, specs)
  {
    JoinDocumentLines(header, specs);
    ChunksNoBreaks(specs);
    var L := DocumentLines(header, specs);
    var X := Split(header, '\n');
    forall t | 0 <= t < |L| ensures '\n' !in L[t] {
      if t < |X| {
        assert L[t] == X[t];
      } else if t > |X| {
        assert L[t] == Chunks(specs)[t - |X| - 1];
      }
    }
    SplitJoin(L, '\n');
  }

  // ---------------------------------------------------------------------------
  // One chunk inside the lines of a document.
  // ---------------------------------------------------------------------------

  /** Line `c` of `L` starts the chunk of `s`, followed by the end of the document or another banner. */
  ghost predicate ChunkAt(L: seq<string>, c: nat, s: PeerSpec) {
    && c + |Chunk(s)| <= |L| && L[c..c + |Chunk(s)|] == Chunk(s)
    && (c + |Chunk(s)| < |L| ==> StartsWith(L[c + |Chunk(s)|], STOP))
  }

  /** The lines of the chunk one by one. */
  lemma ChunkLines(L: seq<string>, c: nat, s: PeerSpec)
    requires ChunkAt(L, c, s)
    ensures L[c] == BANNER && L[c + 1] == NAME_TAG + s.name && L[c + 2] == DATE_TAG + s.addedAt
    ensures L[c + 3] == BANNER && L[c + 4] == PEER_LINE && L[c + |Chunk(s)| - 1] == ""
    ensures forall t | 0 <= t < |ValueLines(s)| :: L[c + 5 + t] == ValueLines(s)[t]
  {
    var n := |Chunk(s)|;
    forall t | 0 <= t < n ensures L[c + t] == Chunk(s)[t] {
      assert L[c..c + n][t] == L[c + t];
    }
    ChunkIndex(s);
  }

  /** The lines of a chunk by position. */
  lemma ChunkIndex(s: PeerSpec)
    ensures Chunk(s)[0] == BANNER && Chunk(s)[1] == NAME_TAG + s.name && Chunk(s)[2] == DATE_TAG + s.addedAt
    ensures Chunk(s)[3] == BANNER && Chunk(s)[4] == PEER_LINE && Chunk(s)[|Chunk(s)| - 1] == ""
    ensures forall t | 0 <= t < |ValueLines(s)| :: Chunk(s)[5 + t] == ValueLines(s)[t]
  {
  }

  /** The lines after `[Peer]`: the field lines and the blank line. */
  lemma ChunkBody(L: seq<string>, c: nat, s: PeerSpec)
    requires ChunkAt(L, c, s)
    ensures L[c + 5..c + |Chunk(s)|] == ValueLines(s) + [""]
  {
    var n := |Chunk(s)|;
    assert L[c + 5..c + n] == L[c..c + n][5..];
    assert Chunk(s)[5..] == ValueLines(s) + [""];
  }

  /** `BodyEnd` is determined by the next line starting `# =`. */
  lemma {:induction false} BodyEndAt(L: seq<string>, j: nat, r: nat)
    requires j <= r <= |L|
    requires forall k | j <= k < r :: !StartsWith(L[k], STOP)
    requires r < |L| ==> StartsWith(L[r], STOP)
    ensures BodyEnd(L, j) == r
    decreases r - j
  {
    if j < r {
      BodyEndAt(L, j + 1, r);
    }
  }

  /** Where the lazy date group and the body of the chunk end. */
  lemma ChunkEnds(L: seq<string>, c: nat, s: PeerSpec)
    requires ChunkAt(L, c, s) && Clean(s)
    ensures DateEnd(L, c + 2, c + 2) == Some(c + 2)
    ensures BodyEnd(L, c + 6) == c + |Chunk(s)|
  {
    ChunkLines(L, c, s);
    ValueLinesOk(s);
    BannerShape();
    var e := c + |Chunk(s)|;
    forall k | c + 6 <= k < e ensures !StartsWith(L[k], STOP) {
      if k < e - 1 {
        assert L[k] == ValueLines(s)[k - c - 5];
        assert L[k][0] != '#';
      }
    }
    BodyEndAt(L, c + 6, e);
  }

  /** A tag followed by a value starts with the tag, and the value follows it. */
  lemma TagPrefix(tag: string, v: string)
    ensures StartsWith(tag + v, tag) && (tag + v)[|tag|..] == v
  {
    assert (tag + v)[..|tag|] == tag;
  }

  /** The block pattern matches the chunk and returns its name, date and field lines. */
  lemma ChunkMatch(L: seq<string>, c: nat, s: PeerSpec)
    requires ChunkAt(L, c, s) && Clean(s)
    ensures c < |L| && BlockAt(L, c) == Some((RawOf(s), c + |Chunk(s)|))
  {
    var e := c + |Chunk(s)|;
    ChunkHead(L, c, s);
    BlockAtSingle(L, c, e);
    ChunkBody(L, c, s);
    JoinTerminated(ValueLines(s));
  }

  /** The chunk's head: a banner, its name and its date on one line each, then its field lines. */
  lemma ChunkHead(L: seq<string>, c: nat, s: PeerSpec)
    requires ChunkAt(L, c, s) && Clean(s)
    ensures c + 6 <= |L| && IsBanner(L[c]) && StartsWith(L[c + 1], NAME_TAG)
    ensures NameEnd(L, c, c + 1) == Some(c + 1) && DateEnd(L, c + 2, c + 2) == Some(c + 2)
    ensures BodyEnd(L, c + 6) == c + |Chunk(s)|
    ensures L[c + 1][|NAME_TAG|..] == s.name && L[c + 2][|DATE_TAG|..] == s.addedAt
  {
    ChunkLines(L, c, s);
    ChunkEnds(L, c, s);
    BannerShape();
    TagPrefix(NAME_TAG, s.name);
    TagPrefix(DATE_TAG, s.addedAt);
    assert NameEnd(L, c, c + 1) == Some(c + 1);
  }

  /** `remove_peer`'s pattern matches the chunk exactly when it is headed by the name. */
  lemma ChunkRemoveAt(L: seq<string>, c: nat, s: PeerSpec, name: string)
    requires ChunkAt(L, c, s) && Clean(s)
    ensures s.name == name ==> RemoveAt(L, c, [NAME_TAG + name]) == Some((0, c + |Chunk(s)|))
    ensures s.name != name ==> RemoveAt(L, c, [NAME_TAG + name]).None?
  {
    ChunkLines(L, c, s);
    if s.name == name {
      ChunkEnds(L, c, s);
      BannerShape();
      TagPrefix(DATE_TAG, s.addedAt);
      assert L[c][0..] == L[c];
      assert BannerTail(L[c], 0) == Some(0);
      assert L[c + 1..c + 2] == [L[c + 1]];
    } else {
      assert L[c + 1] != NAME_TAG + name by {
        TagPrefix(NAME_TAG, s.name);
        TagPrefix(NAME_TAG, name);
      }
      NoMatchWithoutName(L, c, NAME_TAG + name);
    }
  }

  /** No match of `remove_peer`'s pattern starts inside the chunk. */
  lemma ChunkInside(L: seq<string>, c: nat, s: PeerSpec, name: string)
    requires ChunkAt(L, c, s) && Clean(s)
    ensures forall k | c + 1 <= k < c + |Chunk(s)| :: RemoveAt(L, k, [NAME_TAG + name]).None?
  {
    ChunkLines(L, c, s);
    ValueLinesOk(s);
    BannerShape();
    var e := c + |Chunk(s)|;
    forall k | c + 1 <= k < e ensures RemoveAt(L, k, [NAME_TAG + name]).None? {
      if k + 1 < |L| {
        assert NotNameLine(L[k + 1]) by {
          if k + 1 == c + 2 {
            assert L[k + 1][2] == DATE_TAG[2];
          } else if c + 5 <= k + 1 < e - 1 {
            assert L[k + 1] == ValueLines(s)[k + 1 - c - 5];
          }
        }
        NameLineDiffers(L[k + 1], name);
      }
      NoMatchWithoutName(L, k, NAME_TAG + name);
    }
  }

  /** The lines from `c` on that are the chunks of `specs`: the first chunk, then the rest. */
  lemma ChunksAt(L: seq<string>, c: nat, specs: seq<PeerSpec>)
    requires c <= |L| && L[c..] == Chunks(specs) && |specs| > 0
    ensures ChunkAt(L, c, specs[0])
    ensures c + |Chunk(specs[0])| <= |L| && L[c + |Chunk(specs[0])|..] == Chunks(specs[1..])
  {
    var rest := Chunks(specs[1..]);
    SliceApart(L, c, Chunk(specs[0]), rest);
    if |rest| > 0 {
      ChunksStart(specs[1..]);
      BannerShape();
    }
  }

  /** Lines that are `x` then `rest` from `c` on: `x` sits at `c`, and `rest` right after it. */
  lemma SliceApart(L: seq<string>, c: nat, x: seq<string>, rest: seq<string>)
    requires c <= |L| && L[c..] == x + rest
    ensures c + |x| <= |L| && L[c..c + |x|] == x && L[c + |x|..] == rest
    ensures c + |x| < |L| ==> |rest| > 0 && L[c + |x|] == rest[0]
  {
    assert L[c..c + |x|] == L[c..][..|x|];
    assert L[c + |x|..] == L[c..][|x|..];
  }

  /** The chunks of at least one peer start with a banner line. */
  lemma ChunksStart(specs: seq<PeerSpec>)
    requires |Chunks(specs)| > 0
    ensures Chunks(specs)[0] == BANNER
  {
  }

  /** The lines from `c` on, chunk by chunk: each clean chunk where the previous one ends. */
  ghost predicate ChunksFrom(L: seq<string>, c: nat, specs: seq<PeerSpec>)
    decreases |specs|
  {
    if |specs| == 0 then c == |L|
    else ChunkAt(L, c, specs[0]) && Clean(specs[0]) && ChunksFrom(L, c + |Chunk(specs[0])|, specs[1..])
  }

  /** Lines that are the clean chunks, from `c` on, are laid out chunk by chunk. */
  lemma {:induction false} ChunksFromLines(L: seq<string>, c: nat, specs: seq<PeerSpec>)
    requires c <= |L| && L[c..] == Chunks(specs) && AllClean(specs)
    ensures ChunksFrom(L, c, specs)
    decreases |specs|
  {
    if |specs| == 0 {
      assert |L[c..]| == 0;
    } else {
      ChunksAt(L, c, specs);
      ChunksFromLines(L, c + |Chunk(specs[0])|, specs[1..]);
    }
  }

  // ---------------------------------------------------------------------------
  // Parsing a document.
  // ---------------------------------------------------------------------------

  /** The match the block pattern makes over a written block. */
  function RawOf(s: PeerSpec): RawBlock {
    RawBlock(s.name, s.addedAt, BodyText(s))
  }

  /** The matches the block pattern makes over written blocks, in order. */
  function Raws(specs: seq<PeerSpec>): seq<RawBlock>
    decreases |specs|
  {
    if |specs| == 0 then [] else [RawOf(specs[0])] + Raws(specs[1..])
  }

  /** The peers the parser should return for a document written from `specs`. */
  function ExpectedPeers(specs: seq<PeerSpec>): (r: seq<Peer>)
    ensures |r| == |specs| && forall i | 0 <= i < |specs| :: r[i] == Expected(specs[i])
  {
    seq(|specs|, i requires 0 <= i < |specs| => Expected(specs[i]))
  }

  /** The matches a document written from `specs` holds, from line `c` on: each block and where it ends. */
  function Matches(c: nat, specs: seq<PeerSpec>): seq<(RawBlock, nat)>
    decreases |specs|
  {
    if |specs| == 0 then [] else [(RawOf(specs[0]), c + |Chunk(specs[0])|)] + Matches(c + |Chunk(specs[0])|, specs[1..])
  }

  /** The blocks of a list of matches, without where they end. */
  function Firsts(ms: seq<(RawBlock, nat)>): seq<RawBlock>
    decreases |ms|
  {
    if |ms| == 0 then [] else [ms[0].0] + Firsts(ms[1..])
  }

  /**
   * From `c` on, the block pattern matches at each start in turn, giving the listed
   * block and end, and the last match reaches the end of the lines.
   */
  ghost predicate Chain(L: seq<string>, c: nat, ms: seq<(RawBlock, nat)>)
    decreases |ms|
  {
    if |ms| == 0 then c == |L|
    else c < |L| && BlockAt(L, c) == Some(ms[0]) && Chain(L, ms[0].1, ms[1..])
  }

  /** Each chunk of the lines is a match of the block pattern. */
  lemma {:induction false} ChunksMatch(L: seq<string>, c: nat, specs: seq<PeerSpec>)
    requires ChunksFrom(L, c, specs)
    ensures Chain(L, c, Matches(c, specs))
    decreases |specs|
  {
    if |specs| > 0 {
      var s := specs[0];
      var e := c + |Chunk(s)|;
      FirstChunkMatch(L, c, specs, s, e);
      ChunksFromTail(L, c, specs, e);
      MatchesCons(c, specs, s, e);
      ChunksMatch(L, e, specs[1..]);
      ChainCons(L, c, (RawOf(s), e), Matches(e, specs[1..]));
    }
  }

  /** The first of the chunks from `c` on is a block that ends where the next chunk starts. */
  lemma FirstChunkMatch(L: seq<string>, c: nat, specs: seq<PeerSpec>, s: PeerSpec, e: nat)
    requires ChunksFrom(L, c, specs) && |specs| > 0 && s == specs[0] && e == c + |Chunk(s)|
    ensures c < |L| && BlockAt(L, c) == Some((RawOf(s), e))
  {
    ChunkMatch(L, c, s);
  }

  /** The chunks after the first start where the first one ends. */
  lemma ChunksFromTail(L: seq<string>, c: nat, specs: seq<PeerSpec>, e: nat)
    requires ChunksFrom(L, c, specs) && |specs| > 0 && e == c + |Chunk(specs[0])|
    ensures e <= |L| && ChunksFrom(L, e, specs[1..])
  {
  }

  /** A match at `c` ending where a chain starts extends the chain. */
  lemma ChainCons(L: seq<string>, c: nat, m: (RawBlock, nat), ms: seq<(RawBlock, nat)>)
    requires c < |L| && BlockAt(L, c) == Some(m) && Chain(L, m.1, ms)
    ensures Chain(L, c, [m] + ms)
  {
    assert ([m] + ms)[1..] == ms;
  }

  /** `Matches` takes the specs one at a time. */
  lemma MatchesCons(c: nat, specs: seq<PeerSpec>, s: PeerSpec, e: nat)
    requires |specs| > 0 && s == specs[0] && e == c + |Chunk(s)|
    ensures Matches(c, specs) == [(RawOf(s), e)] + Matches(e, specs[1..])
  {
  }

  /** `finditer` along a chain of matches finds their blocks, in order. */
  lemma {:induction false} BlocksOfChain(L: seq<string>, c: nat, ms: seq<(RawBlock, nat)>)
    requires c <= |L| && Chain(L, c, ms)
    ensures Blocks(L, c) == Firsts(ms)
    decreases |ms|
  {
    if |ms| > 0 {
      BlocksOfChain(L, ms[0].1, ms[1..]);
    }
  }

  /** The blocks of the matches are the raw blocks of the specs. */
  lemma {:induction false} FirstsOfMatches(c: nat, specs: seq<PeerSpec>)
    ensures Firsts(Matches(c, specs)) == Raws(specs)
    decreases |specs|
  {
    if |specs| > 0 {
      FirstsOfMatches(c + |Chunk(specs[0])|, specs[1..]);
    }
  }

  /** `ExpectedPeers` takes the specs one at a time. */
  lemma ExpectedCons(specs: seq<PeerSpec>, s: PeerSpec)
    requires |specs| > 0 && s == specs[0]
    ensures ExpectedPeers(specs) == [Expected(s)] + ExpectedPeers(specs[1..])
  {
    assert ExpectedPeers(specs)[1..] == ExpectedPeers(specs[1..]);
  }

  /** `Raws` takes the specs one at a time. */
  lemma RawsCons(specs: seq<PeerSpec>, s: PeerSpec)
    requires |specs| > 0 && s == specs[0]
    ensures Raws(specs) == [RawOf(s)] + Raws(specs[1..])
  {
  }

  /** The first spec of a clean list round-trips on its own. */
  lemma DecodeOne(specs: seq<PeerSpec>, s: PeerSpec)
    requires AllClean(specs) && |specs| > 0 && s == specs[0]
    ensures DecodeAll([RawOf(s)]) == [Expected(s)]
  {
    assert Clean(specs[0]);
    DecodeWritten(s);
    assert [RawOf(s)][1..] == [];
  }

  /** The matches over clean written blocks decode to the expected peers. */
  lemma {:induction false} DecodeRaws(specs: seq<PeerSpec>)
    requires AllClean(specs)
    ensures DecodeAll(Raws(specs)) == ExpectedPeers(specs)
    decreases |specs|
  {
    if |specs| > 0 {
      var s, tail := specs[0], specs[1..];
      ExpectedCons(specs, s);
      RawsCons(specs, s);
      DecodeAllAppend([RawOf(s)], Raws(tail));
      DecodeOne(specs, s);
      DecodeRaws(tail);
    }
  }

  /** No match starts in the header or on the blank line after it. */
  lemma HeaderBlocks(header: string, specs: seq<PeerSpec>)
    requires NoPeerLines(header)
    ensures Blocks(DocumentLines(header, specs), 0)
         == Blocks(DocumentLines(header, specs), |Split(header, '\n')| + 1)
  {
    var L := DocumentLines(header, specs);
    var X := Split(header, '\n');
    forall k | 0 <= k < |X| + 1 ensures BlockAt(L, k).None? {
      if k + 1 < |X| {
        assert L[k + 1] == X[k + 1];
      } else if k + 1 == |X| {
        assert L[k + 1] == "";
      } else {
        assert L[k] == "";
      }
    }
    BlocksSkip(L, 0, |X| + 1);
  }

  /**
   * Round trip of the whole document: `parse_peers` returns one peer per written
   * block, in the order written, each as the encoder's arguments describe it.
   */
  lemma ParseDocument(header: string, specs: seq<PeerSpec>)
    requires NoPeerLines(header) && AllClean(specs)
    ensures ParsedPeers(Document(header, specs)) == ExpectedPeers(specs)
  {
    var L := DocumentLines(header, specs);
    var c := |Split(header, '\n')| + 1;
    assert Blocks(L, 0) == Raws(specs) by {
      HeaderBlocks(header, specs);
      assert L[c..] == Chunks(specs);
      ChunkBlocks(L, c, specs);
    }
    SplitDocument(header, specs);
    ParsedOf(Document(header, specs), L);
    DecodeRaws(specs);
  }

  /** The blocks found in the lines of clean chunks are the chunks' raw blocks, in order. */
  lemma ChunkBlocks(L: seq<string>, c: nat, specs: seq<PeerSpec>)
    requires c <= |L| && L[c..] == Chunks(specs) && AllClean(specs)
    ensures Blocks(L, c) == Raws(specs)
  {
    ChunksFromLines(L, c, specs);
    ChunksMatch(L, c, specs);
    BlocksOfChain(L, c, Matches(c, specs));
    FirstsOfMatches(c, specs);
  }

  // ---------------------------------------------------------------------------
  // Adding a peer.
  // ---------------------------------------------------------------------------

  /** A written text ends in a visible character, so `rstrip` leaves it alone. */
  lemma WrittenEnd(header: string, specs: seq<PeerSpec>)
    requires RStrip(header) == header && AllClean(specs)
    ensures RStrip(Written(header, specs)) == Written(header, specs)
  {
    if |specs| > 0 {
      var g := GeneratePeerBlock(specs[|specs| - 1]);
      BlockEndsInText(specs[|specs| - 1]);
      var w := Written(header, specs);
      assert w[|w| - 1] == g[|g| - 1];
    }
  }

  /** A written block ends with the last character of its last field line: not whitespace. */
  lemma BlockEndsInText(s: PeerSpec)
    requires Clean(s)
    ensures |GeneratePeerBlock(s)| > 0 && !IsSpace(GeneratePeerBlock(s)[|GeneratePeerBlock(s)| - 1])
  {
    var parts := [""] + HeaderLines(s) + ValueLines(s);
    var n := |parts| - 1;
    assert parts == parts[..n] + [parts[n]];
    JoinSnoc(parts[..n], parts[n], '\n');
    ValueLinesOk(s);
    assert parts[n] == ValueLines(s)[|ValueLines(s)| - 1];
  }

  /** `rstrip` of a document takes off its final line break only. */
  lemma DocumentStrip(header: string, specs: seq<PeerSpec>)
    requires RStrip(header) == header && AllClean(specs)
    ensures RStrip(Document(header, specs)) == Written(header, specs)
  {
    WrittenEnd(header, specs);
    var w := Written(header, specs);
    assert (w + "\n")[..|w|] == w;
  }

  /**
   * `add_peer` on a document: a name already listed is refused, then an address that
   * does not read or is in use; otherwise the new block is written after the others.
   */
  lemma AddToDocument(header: string, specs: seq<PeerSpec>, s: PeerSpec)
    requires NoPeerLines(header) && RStrip(header) == header && AllClean(specs)
    ensures Appended(Document(header, specs), s) ==
      if exists i | 0 <= i < |specs| :: specs[i].name == s.name then Err(NameTaken)
      else match IpConflict(s.ip, ExpectedPeers(specs))
        case Err(e) => Err(e)
        case Ok(taken) => if taken then Err(IpTaken) else Ok(Document(header, specs + [s]))
  {
    var doc := Document(header, specs);
    assert ParsedPeers(doc) == ExpectedPeers(specs) by {
      ParseDocument(header, specs);
    }
    assert RStrip(doc) == Written(header, specs) by {
      DocumentStrip(header, specs);
    }
    assert Document(header, specs + [s]) == Written(header, specs) + "\n" + GeneratePeerBlock(s) + "\n" by {
      assert (specs + [s])[..|specs|] == specs;
    }
    NameListed(specs, s.name);
  }

  /** After an add, the earlier peers parse as before and the new peer comes last. */
  lemma AddedPeerIsLast(header: string, specs: seq<PeerSpec>, s: PeerSpec)
    requires NoPeerLines(header) && AllClean(specs) && Clean(s)
    ensures ParsedPeers(Document(header, specs + [s])) == ParsedPeers(Document(header, specs)) + [Expected(s)]
  {
    assert AllClean(specs + [s]) by {
      forall i | 0 <= i < |specs + [s]| ensures Clean((specs + [s])[i]) {
        if i < |specs| {
          assert (specs + [s])[i] == specs[i];
        }
      }
    }
    ParseDocument(header, specs + [s]);
    ParseDocument(header, specs);
    assert ExpectedPeers(specs + [s]) == ExpectedPeers(specs) + [Expected(s)];
  }

  // ---------------------------------------------------------------------------
  // Removing a peer.
  // ---------------------------------------------------------------------------

  /** The specs whose name is not `name`, in order. */
  function Without(specs: seq<PeerSpec>, name: string): seq<PeerSpec>
    decreases |specs|
  {
    if |specs| == 0 then []
    else
      var rest := Without(specs[1..], name);
      if specs[0].name == name then rest else [specs[0]] + rest
  }

  /** `Without` keeps exactly the specs of other names. */
  lemma {:induction false} WithoutMembers(specs: seq<PeerSpec>, name: string)
    ensures forall i | 0 <= i < |Without(specs, name)| ::
      Without(specs, name)[i].name != name && Without(specs, name)[i] in specs
    ensures forall i | 0 <= i < |specs| :: specs[i].name != name ==> specs[i] in Without(specs, name)
    decreases |specs|
  {
    if |specs| > 0 {
      WithoutMembers(specs[1..], name);
      assert forall i | 1 <= i < |specs| :: specs[i] == specs[1..][i - 1];
    }
  }

  /** The number of specs named `name`. */
  function NamedCount(specs: seq<PeerSpec>, name: string): nat
    decreases |specs|
  {
    if |specs| == 0 then 0
    else (if specs[0].name == name then 1 else 0) + NamedCount(specs[1..], name)
  }

  /** Some spec has the name exactly when the count is positive. */
  lemma {:induction false} NamedCountPositive(specs: seq<PeerSpec>, name: string)
    ensures NamedCount(specs, name) > 0 <==> exists i | 0 <= i < |specs| :: specs[i].name == name
    decreases |specs|
  {
    if |specs| > 0 {
      NamedCountPositive(specs[1..], name);
      assert forall i | 1 <= i < |specs| :: specs[i] == specs[1..][i - 1];
    }
  }

  /** Dropping specs keeps the rest clean. */
  lemma WithoutClean(specs: seq<PeerSpec>, name: string)
    requires AllClean(specs)
    ensures AllClean(Without(specs, name))
  {
    var r := Without(specs, name);
    WithoutMembers(specs, name);
    forall i | 0 <= i < |r| ensures Clean(r[i]) {
      var j :| 0 <= j < |specs| && specs[j] == r[i];
    }
  }

  /** A whole-line match after the first line leaves nothing up to where it stops. */
  lemma KeptDrop(L: seq<string>, c: nat, e: nat, nl: seq<string>)
    requires 0 < c < |L| && RemoveAt(L, c, nl) == Some((0, e))
    ensures Kept(L, c, nl) == Kept(L, e, nl)
  {
  }

  /** A match counts one and resumes where it stops. */
  lemma CountDrop(L: seq<string>, c: nat, e: nat, nl: seq<string>)
    requires c < |L| && RemoveAt(L, c, nl) == Some((0, e))
    ensures Count(L, c, nl) == 1 + Count(L, e, nl)
  {
  }

  /** `subn` over one chunk: deleted when headed by the name, kept whole otherwise. */
  lemma KeptStep(L: seq<string>, c: nat, s: PeerSpec, name: string)
    requires 0 < c && ChunkAt(L, c, s) && Clean(s)
    ensures Kept(L, c, [NAME_TAG + name])
         == (if s.name == name then [] else Chunk(s)) + Kept(L, c + |Chunk(s)|, [NAME_TAG + name])
  {
    var nl := [NAME_TAG + name];
    var e := c + |Chunk(s)|;
    ChunkRemoveAt(L, c, s, name);
    if s.name == name {
      KeptDrop(L, c, e, nl);
    } else {
      ChunkInside(L, c, s, name);
      KeptSkip(L, c, e, nl);
    }
  }

  /** The chunks of a list with a spec in front. */
  lemma ChunksCons(s: PeerSpec, w: seq<PeerSpec>)
    ensures Chunks([s] + w) == Chunk(s) + Chunks(w)
  {
    assert ([s] + w)[0] == s && ([s] + w)[1..] == w;
  }

  /** `Without` takes the specs one at a time. */
  lemma WithoutCons(specs: seq<PeerSpec>, name: string)
    requires |specs| > 0
    ensures Chunks(Without(specs, name))
         == (if specs[0].name == name then [] else Chunk(specs[0])) + Chunks(Without(specs[1..], name))
  {
    if specs[0].name != name {
      ChunksCons(specs[0], Without(specs[1..], name));
    }
  }

  /** The first of the chunks from `c` on is removed when it carries the name, and kept otherwise. */
  lemma KeptFirstChunk(L: seq<string>, c: nat, specs: seq<PeerSpec>, s: PeerSpec, e: nat, name: string)
    requires 0 < c && ChunksFrom(L, c, specs) && |specs| > 0 && s == specs[0] && e == c + |Chunk(s)|
    ensures e <= |L|
    ensures Kept(L, c, [NAME_TAG + name]) == (if s.name == name then [] else Chunk(s)) + Kept(L, e, [NAME_TAG + name])
  {
    KeptStep(L, c, s, name);
  }

  /** `subn` over the chunks deletes the chunks headed by the name and keeps the rest. */
  lemma {:induction false} KeptChunks(L: seq<string>, c: nat, specs: seq<PeerSpec>, name: string)
    requires 0 < c <= |L| && ChunksFrom(L, c, specs)
    ensures Kept(L, c, [NAME_TAG + name]) == Chunks(Without(specs, name))
    decreases |specs|
  {
    if |specs| > 0 {
      var e := c + |Chunk(specs[0])|;
      ChunksFromTail(L, c, specs, e);
      KeptFirstChunk(L, c, specs, specs[0], e, name);
      KeptChunks(L, e, specs[1..], name);
      WithoutCons(specs, name);
    }
  }

  /** Where `remove_peer`'s pattern, whose lines are `nl`, matches in a chunk that ends at `e`. */
  lemma ChunkMatches(L: seq<string>, c: nat, e: nat, s: PeerSpec, name: string, nl: seq<string>)
    requires ChunkAt(L, c, s) && Clean(s) && e == c + |Chunk(s)| && nl == [NAME_TAG + name]
    ensures s.name == name ==> RemoveAt(L, c, nl) == Some((0, e))
    ensures s.name != name ==> forall k | c <= k < e :: RemoveAt(L, k, nl).None?
  {
    ChunkRemoveAt(L, c, s, name);
    if s.name != name {
      ChunkInside(L, c, s, name);
    }
  }

  /** `subn` over the chunks counts one match per chunk headed by the name. */
  lemma {:induction false} CountChunks(L: seq<string>, c: nat, specs: seq<PeerSpec>, name: string)
    requires 0 < c <= |L| && ChunksFrom(L, c, specs)
    ensures Count(L, c, [NAME_TAG + name]) == NamedCount(specs, name)
    decreases |specs|
  {
    if |specs| > 0 {
      var nl := [NAME_TAG + name];
      var e := c + |Chunk(specs[0])|;
      CountChunks(L, e, specs[1..], name);
      ChunkMatches(L, c, e, specs[0], name, nl);
      if specs[0].name == name {
        CountDrop(L, c, e, nl);
      } else {
        CountSkip(L, c, e, nl);
      }
    }
  }

  /** No match of `remove_peer`'s pattern starts in the header or on the blank line after it. */
  lemma HeaderNoMatch(header: string, specs: seq<PeerSpec>, name: string)
    requires NoPeerLines(header)
    ensures forall k | 0 <= k < |Split(header, '\n')| + 1 ::
      RemoveAt(DocumentLines(header, specs), k, [NAME_TAG + name]).None?
  {
    var L := DocumentLines(header, specs);
    var X := Split(header, '\n');
    TagPrefix(NAME_TAG, name);
    forall k | 0 <= k < |X| + 1 ensures RemoveAt(L, k, [NAME_TAG + name]).None? {
      if k < |X| {
        if k + 1 < |X| {
          assert L[k + 1] == X[k + 1];
        } else {
          assert L[k + 1] == "";
        }
        NoMatchWithoutName(L, k, NAME_TAG + name);
      } else {
        assert L[k] == "";
      }
    }
  }

  /**
   * `remove_peer` on a document: the text left is the document without the blocks
   * of that name, and the count of matches is the number of such blocks.
   */
  lemma RemoveFromDocument(header: string, specs: seq<PeerSpec>, name: string)
    requires NoPeerLines(header) && AllClean(specs) && '\n' !in name
    ensures RemoveText(Document(header, specs), name)
         == (Document(header, Without(specs, name)), NamedCount(specs, name))
  {
    var L := DocumentLines(header, specs);
    var X := Split(header, '\n');
    var nl := [NAME_TAG + name];
    var c := |X| + 1;
    NameLines(name);
    SplitDocument(header, specs);
    HeaderNoMatch(header, specs, name);
    assert L[c..] == Chunks(specs);
    KeptSkip(L, 0, c, nl);
    CountSkip(L, 0, c, nl);
    ChunksFromLines(L, c, specs);
    KeptChunks(L, c, specs, name);
    CountChunks(L, c, specs, name);
    assert L[0..c] == X + [""];
    JoinDocumentLines(header, Without(specs, name));
  }

  /** A name is listed in a parsed document exactly when one of the specs has it. */
  lemma NameListed(specs: seq<PeerSpec>, name: string)
    ensures AnyNamed(ExpectedPeers(specs), name) <==> exists i | 0 <= i < |specs| :: specs[i].name == name
  {
    var peers := ExpectedPeers(specs);
    if exists i | 0 <= i < |specs| :: specs[i].name == name {
      var i :| 0 <= i < |specs| && specs[i].name == name;
      assert peers[i].name == name;
    }
  }

  /** `remove_peer` reports success exactly when a peer of that name is listed. */
  lemma RemoveReportsName(header: string, specs: seq<PeerSpec>, name: string)
    requires NoPeerLines(header) && AllClean(specs) && '\n' !in name
    ensures RemoveText(Document(header, specs), name).1 > 0 <==> CheckNameConflict(name, Document(header, specs))
  {
    RemoveFromDocument(header, specs, name);
    ParseDocument(header, specs);
    NameListed(specs, name);
    NamedCountPositive(specs, name);
  }

  /** After `remove_peer` no peer of that name is left, and the others parse as before, in order. */
  lemma RemovedNameGone(header: string, specs: seq<PeerSpec>, name: string)
    requires NoPeerLines(header) && AllClean(specs) && '\n' !in name
    ensures !CheckNameConflict(name, RemoveText(Document(header, specs), name).0)
    ensures ParsedPeers(RemoveText(Document(header, specs), name).0) == ExpectedPeers(Without(specs, name))
  {
    RemoveFromDocument(header, specs, name);
    WithoutClean(specs, name);
    WithoutMembers(specs, name);
    ParseDocument(header, Without(specs, name));
    NameListed(Without(specs, name), name);
  }
}
