/**
 * IPv4 addresses as Python's `ipaddress.IPv4Address` reads them from text, and the
 * 10.8.0.0/24 overlay network the registry allocates from.
 */
module Ipv4 {
  import opened Wrappers
  import opened Text

  /** A 32-bit address, most significant octet first. */
  type Addr = x: nat | x < 0x1_0000_0000

  /** `10.8.0.i`. */
  function Host(i: nat): (a: Addr)
    requires i < 256
    ensures a / 256 == 0x0A0800 && a % 256 == i
  {
    0x0A08_0000 + i
  }

  /** The server's own address, 10.8.0.1: always taken. */
  const SERVER_IP: Addr := Host(1)

  /**
   * One dotted-quad field: non-empty, ASCII digits only, at most three of them, no
   * leading zero unless the field is "0", value at most 255.
   */
  function ParseOctet(s: string): (r: Option<nat>)
    ensures r.Some? <==>
      (1 <= |s| <= 3 && (forall i | 0 <= i < |s| :: IsDigit(s[i]))
       && (s == "0" || s[0] != '0') && DigitsValue(s) <= 255)
    ensures r.Some? ==> r.value == DigitsValue(s) && r.value < 256
  {
    if 1 <= |s| <= 3 && (forall i | 0 <= i < |s| :: IsDigit(s[i]))
       && (s == "0" || s[0] != '0') && DigitsValue(s) <= 255
    then Some(DigitsValue(s))
    else None
  }

  /** `IPv4Address(s)` for a string: exactly four dot-separated valid fields. */
  function ParseIpv4(s: string): (r: Option<Addr>)
    ensures r.Some? <==>
      (|Split(s, '.')| == 4 && forall i | 0 <= i < 4 :: ParseOctet(Split(s, '.')[i]).Some?)
  {
    var parts := Split(s, '.');
    if |parts| != 4 then None
    else
      match (ParseOctet(parts[0]), ParseOctet(parts[1]), ParseOctet(parts[2]), ParseOctet(parts[3]))
      case (Some(a), Some(b), Some(c), Some(d)) => Some(((a * 256 + b) * 256 + c) * 256 + d)
      case _ => None
  }

  /** The octet of `a` at position `k`, counting from the most significant one. */
  function Octet(a: Addr, k: nat): (o: nat)
    requires k < 4
    ensures o < 256
  {
    if k == 0 then a / 0x100_0000 else if k == 1 then a / 0x1_0000 % 256
    else if k == 2 then a / 256 % 256 else a % 256
  }

  /** Taking one octet off the low end of a base-256 number. */
  lemma ShiftOctet(q: nat, d: nat)
    requires d < 256
    ensures (q * 256 + d) / 256 == q && (q * 256 + d) % 256 == d
  {
  }

  /** A parsed address is the base-256 number whose octets are the four fields, in order. */
  lemma ParseIpv4Octets(s: string)
    requires ParseIpv4(s).Some?
    ensures forall k | 0 <= k < 4 :: Octet(ParseIpv4(s).value, k) == ParseOctet(Split(s, '.')[k]).value
  {
    var parts := Split(s, '.');
    var a, b, c, d := ParseOctet(parts[0]).value, ParseOctet(parts[1]).value,
                      ParseOctet(parts[2]).value, ParseOctet(parts[3]).value;
    var v := ParseIpv4(s).value;
    assert v == ((a * 256 + b) * 256 + c) * 256 + d;
    ShiftOctet((a * 256 + b) * 256 + c, d);
    ShiftOctet(a * 256 + b, c);
    ShiftOctet(a, b);
    assert v / 0x1_0000 == (v / 256) / 256;
    assert v / 0x100_0000 == ((v / 256) / 256) / 256;
  }

  /** The decimal text of a value below 256, without leading zeros. */
  function OctetText(n: nat): (s: string)
    requires n < 256
    ensures ParseOctet(s) == Some(n)
  {
    if n < 10 then
      var s := [Digit(n)];
      assert DigitsValue(s) == DigitsValue([]) * 10 + n;
      s
    else if n < 100 then
      var s := [Digit(n / 10), Digit(n % 10)];
      assert s[..1] == [Digit(n / 10)];
      assert DigitsValue(s[..1]) == n / 10;
      assert DigitsValue(s) == (n / 10) * 10 + n % 10 == n;
      assert IsDigit(s[0]) && IsDigit(s[1]) && s[0] != '0';
      s
    else
      var q := n / 10;
      var s := [Digit(q / 10), Digit(q % 10), Digit(n % 10)];
      assert s[..2] == [Digit(q / 10), Digit(q % 10)];
      assert s[..2][..1] == [Digit(q / 10)];
      assert DigitsValue(s[..2][..1]) == q / 10;
      assert DigitsValue(s[..2]) == (q / 10) * 10 + q % 10 == q;
      assert DigitsValue(s) == q * 10 + n % 10 == n;
      assert IsDigit(s[0]) && IsDigit(s[1]) && IsDigit(s[2]) && s[0] != '0';
      s
  }

  /** `str(IPv4Address(a))`: the dotted-quad text of an address. */
  function Format(a: Addr): string
  {
    Join([OctetText(Octet(a, 0)), OctetText(Octet(a, 1)), OctetText(Octet(a, 2)), OctetText(Octet(a, 3))], '.')
  }

  /** An address is its four octets, most significant first. */
  lemma OctetsCompose(a: Addr)
    ensures ((a / 0x100_0000 * 256 + a / 0x1_0000 % 256) * 256 + a / 256 % 256) * 256 + a % 256 == a
  {
    var q1 := a / 256;
    var q2 := q1 / 256;
    var q3 := q2 / 256;
    assert a == q1 * 256 + a % 256;
    assert q1 == q2 * 256 + q1 % 256;
    assert q2 == q3 * 256 + q2 % 256;
    assert a / 0x1_0000 == q2 && a / 0x100_0000 == q3;
    assert q2 % 256 == a / 0x1_0000 % 256;
  }

  /** Reading the text of an address gives back that address. */
  lemma ParseFormat(a: Addr)
    ensures ParseIpv4(Format(a)) == Some(a)
  {
    var parts := [OctetText(Octet(a, 0)), OctetText(Octet(a, 1)), OctetText(Octet(a, 2)), OctetText(Octet(a, 3))];
    forall i | 0 <= i < 4 ensures '.' !in parts[i] {
      assert forall j | 0 <= j < |parts[i]| :: IsDigit(parts[i][j]);
    }
    SplitJoin(parts, '.');
    assert Split(Format(a), '.') == parts;
    OctetsCompose(a);
  }
}
