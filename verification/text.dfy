/**
 * The Python string primitives the parsers rely on, over `string` (= seq<char>):
 * `str.isspace`, `str.strip`/`lstrip`/`rstrip`, `str.split(sep)`, `sep.join`,
 * `startswith`/`endswith`, `str.lower` and `rstrip(chars)`.
 */
module Text {

  /** Python's `str.isspace()` on the ASCII range; also what `\s` matches there. */
  predicate IsSpace(c: char) {
    c == ' ' || c == '\t' || c == '\n' || c == '\r' || c == '\U{B}' || c == '\U{C}'
    || c == '\U{1C}' || c == '\U{1D}' || c == '\U{1E}' || c == '\U{1F}'
  }

  /** No leading and no trailing whitespace: what `str.strip()` leaves behind. */
  predicate Stripped(s: string) {
    s == [] || (!IsSpace(s[0]) && !IsSpace(s[|s| - 1]))
  }

  /** `s.lstrip()`: drops the leading whitespace and nothing else. */
  function LStrip(s: string): (r: string)
    ensures |r| <= |s| && r == s[|s| - |r|..]
    ensures forall i | 0 <= i < |s| - |r| :: IsSpace(s[i])
    ensures r != [] ==> !IsSpace(r[0])
  {
    if |s| > 0 && IsSpace(s[0]) then
      var r := LStrip(s[1..]);
      assert s[1..][|s| - 1 - |r|..] == s[|s| - |r|..];
      assert forall i | 1 <= i < |s| - |r| :: s[i] == s[1..][i - 1];
      r
    else s
  }

  /** `s.rstrip()`: drops the trailing whitespace and nothing else. */
  function RStrip(s: string): (r: string)
    ensures |r| <= |s| && r == s[..|r|]
    ensures forall i | |r| <= i < |s| :: IsSpace(s[i])
    ensures r != [] ==> !IsSpace(r[|r| - 1])
  {
    if |s| > 0 && IsSpace(s[|s| - 1]) then RStrip(s[..|s| - 1]) else s
  }

  /** `s.strip()`: whitespace taken off both ends (`StripSlice` says which slice is kept). */
  function Strip(s: string): (r: string)
    ensures Stripped(r)
    ensures |r| <= |s|
  {
    RStrip(LStrip(s))
  }

  /** A prefix `r` of a suffix `l` of `s` sits in `s` right after the part `l` leaves out, and what follows it in `s` follows it in `l`. */
  lemma PrefixOfSuffix(s: string, l: string, r: string)
    requires |l| <= |s| && l == s[|s| - |l|..] && |r| <= |l| && r == l[..|r|]
    ensures forall k | 0 <= k < |r| :: r[k] == s[|s| - |l| + k]
    ensures forall k | |s| - |l| + |r| <= k < |s| :: s[k] == l[k - (|s| - |l|)]
  {
  }

  /** What `Strip` keeps is the slice of `s` that starts after the leading run of whitespace. */
  lemma StripSlice(s: string)
    ensures |s| - |LStrip(s)| + |Strip(s)| <= |s|
    ensures forall k | 0 <= k < |Strip(s)| :: Strip(s)[k] == s[|s| - |LStrip(s)| + k]
  {
    var l := LStrip(s);
    var r := RStrip(l);
    assert Strip(s) == r;
    PrefixOfSuffix(s, l, r);
  }

  /** Everything `Strip` drops, before and after the slice it keeps, is whitespace. */
  lemma StripDropsSpace(s: string)
    ensures |s| - |LStrip(s)| + |Strip(s)| <= |s|
    ensures forall k | 0 <= k < |s| - |LStrip(s)| :: IsSpace(s[k])
    ensures forall k | |s| - |LStrip(s)| + |Strip(s)| <= k < |s| :: IsSpace(s[k])
  {
    var l := LStrip(s);
    var r := RStrip(l);
    assert Strip(s) == r;
    PrefixOfSuffix(s, l, r);
  }

  /** Stripping a string that has no surrounding whitespace leaves it as it is. */
  lemma StripOfStripped(s: string)
    requires Stripped(s)
    ensures Strip(s) == s
  {
    assert LStrip(s) == s;
    assert RStrip(s) == s;
  }

  /** Stripping never brings in a character the text lacks. */
  lemma StripKeepsOut(s: string, c: char)
    requires c !in s
    ensures c !in Strip(s)
  {
    var l := LStrip(s);
    assert c !in l by {
      assert l == s[|s| - |l|..];
    }
    assert Strip(s) == l[..|Strip(s)|];
  }

  /** `str.strip()` is idempotent. */
  lemma StripIdempotent(s: string)
    ensures Strip(Strip(s)) == Strip(s)
  {
    StripOfStripped(Strip(s));
  }

  /** The index of the first `c` in `s`, or `|s|` when there is none. */
  function IndexOf(s: string, c: char): (r: nat)
    ensures r <= |s|
    ensures r < |s| ==> s[r] == c
    ensures forall j | 0 <= j < r :: s[j] != c
  {
    if |s| == 0 then 0 else if s[0] == c then 0 else 1 + IndexOf(s[1..], c)
  }

  /** `sep.join(parts)` for a one-character separator. */
  function Join(parts: seq<string>, sep: char): string
  {
    if |parts| == 0 then ""
    else if |parts| == 1 then parts[0]
    else parts[0] + [sep] + Join(parts[1..], sep)
  }

  /** `s.split(sep)` for a one-character separator: never empty, pieces free of `sep`. */
  function Split(s: string, sep: char): (r: seq<string>)
    ensures |r| > 0
    ensures forall i | 0 <= i < |r| :: sep !in r[i]
    ensures Join(r, sep) == s
    decreases |s|
  {
    var i := IndexOf(s, sep);
    if i == |s| then [s]
    else
      var rest := Split(s[i + 1..], sep);
      assert s == s[..i] + [sep] + s[i + 1..];
      [s[..i]] + rest
  }

  /** Splitting undoes joining, when no part holds the separator. */
  lemma {:induction false} SplitJoin(parts: seq<string>, sep: char)
    requires |parts| > 0
    requires forall i | 0 <= i < |parts| :: sep !in parts[i]
    ensures Split(Join(parts, sep), sep) == parts
    decreases |parts|
  {
    if |parts| == 1 {
      assert IndexOf(parts[0], sep) == |parts[0]|;
    } else {
      var s := Join(parts, sep);
      assert s == parts[0] + [sep] + Join(parts[1..], sep);
      assert IndexOf(s, sep) == |parts[0]| by {
        assert s[|parts[0]|] == sep;
        forall j | 0 <= j < |parts[0]| ensures s[j] != sep {
          assert s[j] == parts[0][j];
        }
        IndexOfFirst(s, sep, |parts[0]|);
      }
      assert s[..|parts[0]|] == parts[0];
      assert s[|parts[0]| + 1..] == Join(parts[1..], sep);
      SplitJoin(parts[1..], sep);
    }
  }

  /** Regrouping an element put in front of two sequences. */
  lemma ConsAppend<T>(a: T, x: seq<T>, y: seq<T>)
    ensures [a] + (x + y) == [a] + x + y
  {
  }

  /** `IndexOf` is the first occurrence. */
  lemma IndexOfFirst(s: string, c: char, k: nat)
    requires k < |s| && s[k] == c
    requires forall j | 0 <= j < k :: s[j] != c
    ensures IndexOf(s, c) == k
  {
  }

  /** Splitting at a separator that was put between two texts splits each text on its own. */
  lemma SplitConcat(a: string, b: string, sep: char)
    ensures Split(a + [sep] + b, sep) == Split(a, sep) + Split(b, sep)
  {
    var pa, pb := Split(a, sep), Split(b, sep);
    JoinAppend(pa, pb, sep);
    SplitJoin(pa + pb, sep);
  }

  /** Joining lines and appending one more line is joining the longer list. */
  lemma {:induction false} JoinSnoc(parts: seq<string>, x: string, sep: char)
    requires |parts| > 0
    ensures Join(parts + [x], sep) == Join(parts, sep) + [sep] + x
    decreases |parts|
  {
    if |parts| == 1 {
      assert parts + [x] == [parts[0], x];
    } else {
      assert (parts + [x])[1..] == parts[1..] + [x];
      JoinSnoc(parts[1..], x, sep);
    }
  }

  /** Joining two non-empty lists is joining each and putting the separator between. */
  lemma {:induction false} JoinAppend(a: seq<string>, b: seq<string>, sep: char)
    requires |a| > 0 && |b| > 0
    ensures Join(a + b, sep) == Join(a, sep) + [sep] + Join(b, sep)
    decreases |a|
  {
    if |a| == 1 {
      assert (a + b)[1..] == b;
    } else {
      assert (a + b)[1..] == a[1..] + b;
      JoinAppend(a[1..], b, sep);
    }
  }

  /** `s.startswith(p)`. */
  predicate StartsWith(s: string, p: string) {
    |p| <= |s| && s[..|p|] == p
  }

  /** `s.endswith(p)`. */
  predicate EndsWith(s: string, p: string) {
    |p| <= |s| && s[|s| - |p|..] == p
  }

  /** `k` occurs in `s` starting at index `x`. */
  predicate OccursAt(s: string, k: string, x: nat) {
    x + |k| <= |s| && s[x..x + |k|] == k
  }

  /** `k not in s`, as a substring. */
  ghost predicate Free(s: string, k: string) {
    forall x: nat {:trigger OccursAt(s, k, x)} :: !OccursAt(s, k, x)
  }

  /** A text lacking one of the characters of `k` cannot contain `k`. */
  lemma FreeByMissingChar(s: string, k: string, t: nat)
    requires t < |k| && k[t] !in s
    ensures Free(s, k)
  {
    forall x: nat ensures !OccursAt(s, k, x) {
      if x + |k| <= |s| {
        assert s[x..x + |k|][t] == s[x + t] != k[t];
      }
    }
  }

  /** Two texts free of `k` stay free of it when glued where `k` cannot straddle the seam. */
  lemma FreeSep(a: string, b: string, k: string)
    requires Free(a, k) && Free(b, k)
    requires (|a| > 0 && a[|a| - 1] !in k) || (|b| > 0 && b[0] !in k)
    ensures Free(a + b, k)
  {
    var s := a + b;
    forall x: nat ensures !OccursAt(s, k, x) {
      if x + |k| <= |a| {
        assert s[x..x + |k|] == a[x..x + |k|];
        assert !OccursAt(a, k, x);
      } else if x >= |a| && x + |k| <= |s| {
        assert s[x..x + |k|] == b[x - |a|..x - |a| + |k|];
        assert !OccursAt(b, k, x - |a|);
      } else if x + |k| <= |s| {
        if |a| > 0 && a[|a| - 1] !in k {
          assert s[x..x + |k|][|a| - 1 - x] == a[|a| - 1];
        } else {
          assert s[x..x + |k|][|a| - x] == b[0];
        }
      }
    }
  }

  /** A text free of `k` followed by a separator `k` lacks: no occurrence starts in the text. */
  lemma NoOccurrenceBefore(a: string, rest: string, sep: char, k: string, x: nat)
    requires Free(a, k) && sep !in k && x < |a| + 1
    ensures !OccursAt(a + [sep] + rest, k, x)
  {
    var s := a + [sep] + rest;
    if x + |k| <= |a| {
      assert s[x..x + |k|] == a[x..x + |k|];
      assert !OccursAt(a, k, x);
    } else if x + |k| <= |s| {
      assert s[x..x + |k|][|a| - x] == sep != k[|a| - x];
    }
  }

  /** Python's `c.lower()` on ASCII letters. */
  function LowerChar(c: char): char {
    if 'A' <= c <= 'Z' then (c as int + 32) as char else c
  }

  /** `s.lower()`: same length, every ASCII capital replaced by its small letter. */
  function Lower(s: string): (r: string)
    ensures |r| == |s|
    ensures forall i | 0 <= i < |s| :: r[i] == LowerChar(s[i])
  {
    seq(|s|, i requires 0 <= i < |s| => LowerChar(s[i]))
  }

  /** `s.rstrip(c)`: drops every trailing `c` and nothing else. */
  function RStripChar(s: string, c: char): (r: string)
    ensures |r| <= |s| && r == s[..|r|]
    ensures forall i | |r| <= i < |s| :: s[i] == c
    ensures r != [] ==> r[|r| - 1] != c
  {
    if |s| > 0 && s[|s| - 1] == c then RStripChar(s[..|s| - 1], c) else s
  }

  /** `s.split("/")[0]`: the text before the first slash, or all of `s`. */
  function BeforeSlash(s: string): (r: string)
    ensures '/' !in r
    ensures |r| <= |s| && r == s[..|r|]
    ensures |r| < |s| ==> s[|r|] == '/'
  {
    var i := IndexOf(s, '/');
    assert Split(s, '/')[0] == s[..i] by {
      if i < |s| {
        assert Split(s, '/') == [s[..i]] + Split(s[i + 1..], '/');
      }
    }
    s[..i]
  }

  /** An ASCII decimal digit. */
  predicate IsDigit(c: char) {
    '0' as int <= c as int <= '9' as int
  }

  /** The digit character for `d`. */
  function Digit(d: nat): (c: char)
    requires d < 10
    ensures IsDigit(c) && c as int - '0' as int == d
  {
    ('0' as int + d) as char
  }

  /** The value of a run of ASCII decimal digits, most significant first. */
  function DigitsValue(s: string): nat
    requires forall i | 0 <= i < |s| :: IsDigit(s[i])
  {
    if |s| == 0 then 0
    else
      assert IsDigit(s[|s| - 1]);
      DigitsValue(s[..|s| - 1]) * 10 + (s[|s| - 1] as int - '0' as int)
  }

  /** `str(n)` for a natural number: its decimal digits, no leading zero. */
  function DecimalText(n: nat): (s: string)
    ensures |s| > 0 && forall i | 0 <= i < |s| :: IsDigit(s[i])
    ensures s[0] != '0' || n == 0
    ensures DigitsValue(s) == n
  {
    if n < 10 then
      var s := [Digit(n)];
      assert DigitsValue(s) == DigitsValue([]) * 10 + n;
      s
    else
      var init := DecimalText(n / 10);
      var s := init + [Digit(n % 10)];
      assert s[..|s| - 1] == init;
      s
  }
}
