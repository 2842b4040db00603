/**
 * The part of Python's `ipaddress` the sender gate uses: parsing the client
 * host into an address (IPv4 dotted quads written out; IPv6 text handed to a
 * parser given as a parameter) and testing membership of an address in a
 * network given as base address and prefix length.
 */
module IpAddress {
  import opened Wrappers
  import opened Strings

  const IPv4Size: nat := 0x1_0000_0000

  type U128 = x: nat | x < 0x1_0000_0000_0000_0000_0000_0000_0000_0000

  datatype Version = V4 | V6

  /** The address width in bits, the largest prefix length. */
  function MaxPrefix(v: Version): nat {
    match v
    case V4 => 32
    case V6 => 128
  }

  datatype Address = Address(version: Version, value: nat)

  /** A network as `ip_network` is asked for it: base address and prefix length. */
  datatype Network = Network(version: Version, base: nat, prefix: nat)

  function Pow2(n: nat): (r: nat)
    ensures r >= 1
  {
    if n == 0 then 1 else 2 * Pow2(n - 1)
  }

  /**
   * One dotted-quad field as `IPv4Address` accepts it: one to three ASCII
   * digits, no leading zero, at most 255.
   */
  function ParseOctet(s: string): (r: Option<nat>)
    ensures r.Some? ==> Canonical(s) && |s| <= 3 && r.value == DecimalValue(s) && r.value < 256
    ensures Canonical(s) && |s| <= 3 && DecimalValue(s) < 256 ==> r.Some?
  {
    if |s| == 0 then None
    else if !AllDigits(s) then None
    else if |s| > 3 then None
    else if s != "0" && s[0] == '0' then None
    else if DecimalValue(s) > 255 then None
    else Some(DecimalValue(s))
  }

  /** `IPv4Address(s)`: four dot-separated fields, most significant first. */
  function ParseIPv4(s: string): (r: Option<nat>)
    ensures r.Some? ==> r.value < IPv4Size
  {
    var fields := Split(s, '.');
    if |fields| != 4 then None
    else
      match (ParseOctet(fields[0]), ParseOctet(fields[1]), ParseOctet(fields[2]), ParseOctet(fields[3]))
      case (Some(a), Some(b), Some(c), Some(d)) => Some(((a * 256 + b) * 256 + c) * 256 + d)
      case _ => None
  }

  /** Four bytes in decimal, joined by dots. */
  function FormatBytes(b3: nat, b2: nat, b1: nat, b0: nat): string {
    Join([NatToDecimal(b3), NatToDecimal(b2), NatToDecimal(b1), NatToDecimal(b0)], '.')
  }

  /** `str(IPv4Address(a))`: the four bytes in decimal, most significant first. */
  function FormatIPv4(a: nat): string
    requires a < IPv4Size
  {
    var q1 := a / 256;
    var q2 := q1 / 256;
    var q3 := q2 / 256;
    FormatBytes(q3, q2 % 256, q1 % 256, a % 256)
  }

  /** Appending a byte in base 256 and taking it off again. */
  lemma DivMod256(x: nat, d: nat)
    requires d < 256
    ensures (x * 256 + d) / 256 == x && (x * 256 + d) % 256 == d
  {
  }

  lemma ParseOctetOfByte(n: nat)
    requires n < 256
    ensures ParseOctet(NatToDecimal(n)) == Some(n)
  {
    ByteHasAtMostThreeDigits(n);
    DecimalOfNatToDecimal(n);
  }

  /** The four bytes FormatIPv4 writes, put back together, give the address. */
  lemma Recompose(a: nat)
    requires a < IPv4Size
    ensures var q1 := a / 256; var q2 := q1 / 256; var q3 := q2 / 256;
      q3 < 256 && ((q3 * 256 + q2 % 256) * 256 + q1 % 256) * 256 + a % 256 == a
  {
    var q1 := a / 256;
    var q2 := q1 / 256;
    var q3 := q2 / 256;
    assert q1 < 0x100_0000 && q2 < 0x1_0000 && q3 < 256;
  }

  /** The address made of four bytes is an IPv4 address, and formatting it writes those bytes. */
  lemma FormatOfBytes(a: nat, b: nat, c: nat, d: nat)
    requires a < 256 && b < 256 && c < 256 && d < 256
    ensures ((a * 256 + b) * 256 + c) * 256 + d < IPv4Size
    ensures FormatIPv4(((a * 256 + b) * 256 + c) * 256 + d) == FormatBytes(a, b, c, d)
  {
    var y := a * 256 + b;
    var x := y * 256 + c;
    assert y < 0x1_0000 by { MulMonotone(a, 255, 256); }
    assert x < 0x100_0000 by { MulMonotone(y, 0xFFFF, 256); }
    MulMonotone(x, 0xFF_FFFF, 256);
    DivMod256(x, d);
    DivMod256(y, c);
    DivMod256(a, b);
  }

  /** Four bytes written in decimal and joined by dots parse back to the address they make. */
  lemma ParseOfBytes(a: nat, b: nat, c: nat, d: nat)
    requires a < 256 && b < 256 && c < 256 && d < 256
    ensures ParseIPv4(FormatBytes(a, b, c, d)) == Some(((a * 256 + b) * 256 + c) * 256 + d)
  {
    var parts := [NatToDecimal(a), NatToDecimal(b), NatToDecimal(c), NatToDecimal(d)];
    forall k | 0 <= k < 4 ensures '.' !in parts[k] {
      DigitsHaveNoSeparator(parts[k], '.');
    }
    SplitJoin(parts, '.');
    ParseOctetOfByte(a);
    ParseOctetOfByte(b);
    ParseOctetOfByte(c);
    ParseOctetOfByte(d);
  }

  /** Every IPv4 address parses back from its dotted-quad text. */
  lemma ParseFormatIPv4(a: nat)
    requires a < IPv4Size
    ensures ParseIPv4(FormatIPv4(a)) == Some(a)
  {
    var q1 := a / 256;
    var q2 := q1 / 256;
    var q3 := q2 / 256;
    Recompose(a);
    ParseOfBytes(q3, q2 % 256, q1 % 256, a % 256);
  }

  /** Four accepted octets, rewritten from their values, are the octets themselves. */
  lemma FormatParsedOctets(f: seq<string>)
    requires |f| == 4
    requires forall k :: 0 <= k < 4 ==> ParseOctet(f[k]).Some?
    ensures FormatBytes(ParseOctet(f[0]).value, ParseOctet(f[1]).value, ParseOctet(f[2]).value, ParseOctet(f[3]).value)
      == Join(f, '.')
  {
    NatToDecimalOfCanonical(f[0]);
    NatToDecimalOfCanonical(f[1]);
    NatToDecimalOfCanonical(f[2]);
    NatToDecimalOfCanonical(f[3]);
    assert [f[0], f[1], f[2], f[3]] == f;
  }

  /**
   * Whatever text parses as an IPv4 address is the dotted-quad text of that
   * address: the parser accepts one spelling per address.
   */
  lemma FormatParseIPv4(s: string)
    requires ParseIPv4(s).Some?
    ensures FormatIPv4(ParseIPv4(s).value) == s
  {
    var fields := Split(s, '.');
    var a, b, c, d := ParseOctet(fields[0]).value, ParseOctet(fields[1]).value,
                      ParseOctet(fields[2]).value, ParseOctet(fields[3]).value;
    assert ParseIPv4(s).value == ((a * 256 + b) * 256 + c) * 256 + d;
    FormatOfBytes(a, b, c, d);
    FormatParsedOctets(fields);
    JoinSplit(s, '.');
  }

  /**
   * `ip_address(host)`: IPv4 is tried first, then IPv6; the IPv6 text
   * syntax is left to `ipv6Parser`.
   */
  function ParseAddress(host: string, ipv6Parser: string -> Option<U128>): (r: Option<Address>)
    ensures r.Some? && r.value.version == V4 ==> r.value.value < IPv4Size
    ensures ParseIPv4(host).Some? ==> r == Some(Address(V4, ParseIPv4(host).value))
    ensures ParseIPv4(host).None? && ipv6Parser(host).Some? ==> r == Some(Address(V6, ipv6Parser(host).value))
    ensures ParseIPv4(host).None? && ipv6Parser(host).None? ==> r.None?
  {
    match ParseIPv4(host)
    case Some(v) => Some(Address(V4, v))
    case None =>
      match ipv6Parser(host)
      case Some(v) => Some(Address(V6, v))
      case None => None
  }

  /** The number of addresses in the network: two to the number of host bits. */
  function HostSpan(n: Network): nat
    requires n.prefix <= MaxPrefix(n.version)
  {
    Pow2(MaxPrefix(n.version) - n.prefix)
  }

  /**
   * What `ip_network(text)` accepts (strict): a prefix that fits, no host
   * bits set. Such a network's block lies inside its version's address space.
   */
  predicate ValidNetwork(n: Network)
    ensures ValidNetwork(n) ==> n.prefix <= MaxPrefix(n.version) && n.base + HostSpan(n) <= Pow2(MaxPrefix(n.version))
  {
    if n.prefix <= MaxPrefix(n.version) && n.base < Pow2(MaxPrefix(n.version)) && n.base % HostSpan(n) == 0 then
      Pow2Add(n.prefix, MaxPrefix(n.version) - n.prefix);
      AlignedBlockFits(n.base, HostSpan(n), Pow2(n.prefix));
      true
    else
      false
  }

  /**
   * `address in network`: same version, and the address agrees with the
   * base on the prefix bits (the address masked by the netmask is the base).
   * That is, a valid network holds exactly the addresses of its version from
   * its base up to the end of its host span.
   */
  predicate Contains(n: Network, a: Address)
    ensures Contains(n, a) <==> ValidNetwork(n) && a.version == n.version && n.base <= a.value < n.base + HostSpan(n)
    ensures Contains(n, a) ==> a.value < Pow2(MaxPrefix(a.version))
  {
    if ValidNetwork(n) && a.version == n.version then
      RangeOfQuotient(a.value, n.base, HostSpan(n));
      a.value / HostSpan(n) == n.base / HostSpan(n)
    else
      false
  }

  lemma {:induction false} Pow2Add(a: nat, b: nat)
    ensures Pow2(a + b) == Pow2(a) * Pow2(b)
    decreases a
  {
    if a > 0 {
      Pow2Add(a - 1, b);
      assert Pow2(a + b) == 2 * Pow2(a - 1 + b);
    }
  }

  /** A block of size `span` aligned below `count` blocks ends no later than the last of them. */
  lemma AlignedBlockFits(base: nat, span: nat, count: nat)
    requires span >= 1 && base % span == 0 && base < count * span
    ensures base + span <= count * span
  {
    var q := base / span;
    assert base == q * span;
    if q >= count {
      MulMonotone(count, q, span);
    }
    MulMonotone(q + 1, count, span);
  }

  lemma MulMonotone(a: int, b: int, p: nat)
    requires a <= b
    ensures a * p <= b * p
  {
    assert b * p == a * p + (b - a) * p;
  }

  lemma DivisionRange(x: nat, p: nat, q: nat)
    requires p >= 1
    ensures x / p == q <==> q * p <= x < q * p + p
  {
    var d := x / p;
    assert x == d * p + x % p;
    if d < q {
      MulMonotone(d + 1, q, p);
    } else if d > q {
      MulMonotone(q + 1, d, p);
    }
  }

  /** With a base that is a multiple of p, the numbers with the base's quotient are those from the base up to base + p. */
  lemma RangeOfQuotient(x: nat, base: nat, p: nat)
    requires p >= 1 && base % p == 0
    ensures x / p == base / p <==> base <= x < base + p
  {
    var q := base / p;
    assert base == q * p;
    DivisionRange(x, p, q);
  }

  lemma Pow2Examples()
    ensures Pow2(10) == 1024 && Pow2(32) == IPv4Size
  {
    assert Pow2(8) == 256;
    assert Pow2(10) == 1024;
    assert Pow2(16) == 65536;
    assert Pow2(24) == 0x100_0000;
  }

  /** The dotted quad of the gate's GitHub example address. */
  lemma GitHubDottedQuad()
    ensures ParseIPv4("192.30.252.0") == Some(3223256064)
  {
    assert 3223256064 / 256 == 12590844;
    assert 12590844 / 256 == 49182;
    assert 49182 / 256 == 192;
    assert 49182 % 256 == 30 && 12590844 % 256 == 252 && 3223256064 % 256 == 0;
    assert NatToDecimal(192) == "192";
    assert NatToDecimal(30) == "30";
    assert NatToDecimal(252) == "252";
    assert NatToDecimal(0) == "0";
    assert Join(["192", "30", "252", "0"], '.') == "192.30.252.0";
    assert FormatIPv4(3223256064) == "192.30.252.0";
    ParseFormatIPv4(3223256064);
  }

  /** The dotted quad of the gate's foreign example address. */
  lemma ForeignDottedQuad()
    ensures ParseIPv4("8.8.8.8") == Some(134744072)
  {
    assert 134744072 / 256 == 526344 && 526344 / 256 == 2056 && 2056 / 256 == 8;
    assert 134744072 % 256 == 8 && 526344 % 256 == 8 && 2056 % 256 == 8;
    assert NatToDecimal(8) == "8";
    assert Join(["8", "8", "8", "8"], '.') == "8.8.8.8";
    assert FormatIPv4(134744072) == "8.8.8.8";
    ParseFormatIPv4(134744072);
  }

  /** 192.30.252.0 lies in 192.30.252.0/22 and 8.8.8.8 does not. */
  lemma HookNetworkExamples()
    ensures Contains(Network(V4, 3223256064, 22), Address(V4, 3223256064))
    ensures !Contains(Network(V4, 3223256064, 22), Address(V4, 134744072))
  {
    Pow2Examples();
    assert HostSpan(Network(V4, 3223256064, 22)) == 1024;
  }

  /** Text without a dot is no IPv4 address. */
  lemma UndottedTextIsNoIPv4(s: string)
    requires '.' !in s
    ensures ParseIPv4(s) == None
  {
    SplitWithoutSeparator(s, '.');
  }
}
