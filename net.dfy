/**
 * The parts of Go's `net` package the blacklist relies on: `ParseIP`,
 * `ParseCIDR`, `IP.String`, `IPNet.Contains`, `IsLoopback` and `IsPrivate`.
 * IPv4 is modelled exactly, as 32-bit numbers in dotted-decimal form. The
 * IPv6 text syntax is a parameter (`Ip6Syntax`) mapping text to a 128-bit
 * number and back; an IPv4-mapped IPv6 address (`::ffff:a.b.c.d`) is an IPv4
 * address once parsed, as Go's `To4` makes it.
 */
module Net {
  import opened Wrappers
  import opened Strings

  /** The IPv6 text syntax: parsing to a 128-bit number (zones rejected), and printing. */
  datatype Ip6Syntax = Ip6Syntax(parse: string -> Option<nat>, format: nat -> string)

  /** A parsed address, in the family `To4` assigns it. */
  datatype IP = V4(v4: nat) | V6(v6: nat)

  /** A network: its family as written, its masked address and its prefix length. */
  datatype IPNet = IPNet(isV6: bool, addr: nat, prefix: nat)

  function Pow2(k: nat): (r: nat)
    ensures r >= 1
  {
    if k == 0 then 1 else 2 * Pow2(k - 1)
  }

  const V4Space: nat := 0x1_0000_0000
  /** `::ffff:0:0`, the start of the IPv4-mapped block of IPv6. */
  const V4InV6: nat := 0xffff_0000_0000

  /** A decimal octet as `netip` accepts it: 1 to 3 digits, no leading zero, at most 255. */
  predicate ValidOctet(f: string)
  {
    1 <= |f| <= 3 && AllDigits(f) && (|f| > 1 ==> f[0] != '0') && DigitsValue(f) <= 255
  }

  /** Four octets, most significant first, as one 32-bit number. */
  function FromOctets(a: nat, b: nat, c: nat, d: nat): nat
  {
    ((a * 256 + b) * 256 + c) * 256 + d
  }

  /** Dotted-decimal IPv4 text: exactly four valid octets separated by '.'. */
  function ParseIPv4(s: string): (r: Option<nat>)
    ensures r.Some? ==> r.value < V4Space
  {
    var fields := Split(s, '.');
    if |fields| == 4 && ValidOctet(fields[0]) && ValidOctet(fields[1])
       && ValidOctet(fields[2]) && ValidOctet(fields[3])
    then Some(FromOctets(DigitsValue(fields[0]), DigitsValue(fields[1]), DigitsValue(fields[2]), DigitsValue(fields[3])))
    else None
  }

  /** The octets of a 32-bit number, most significant first. */
  function Octets(n: nat): (r: seq<nat>)
    requires n < V4Space
    ensures |r| == 4 && forall k :: 0 <= k < 4 ==> r[k] < 256
    ensures n == FromOctets(r[0], r[1], r[2], r[3])
  {
    [n / 256 / 256 / 256, n / 256 / 256 % 256, n / 256 % 256, n % 256]
  }

  /** `IP.String` of an IPv4 address. */
  function FormatIPv4(n: nat): string
    requires n < V4Space
  {
    var o := Octets(n);
    Join([FormatDecimal(o[0]), FormatDecimal(o[1]), FormatDecimal(o[2]), FormatDecimal(o[3])], '.')
  }

  /** The first of '.', ':' and '%' in `s`, which decides how `netip.ParseAddr` reads it; ' ' for none. */
  function Dispatch(s: string): (r: char)
    ensures r == '.' || r == ':' || r == '%' || r == ' '
    ensures r != ' ' ==> r in s
    ensures r == ' ' ==> '.' !in s && ':' !in s && '%' !in s
  {
    if |s| == 0 then ' '
    else if s[0] == '.' || s[0] == ':' || s[0] == '%' then s[0]
    else Dispatch(s[1..])
  }

  /** An IPv6 number in the family `To4` gives it. */
  function FromV6(x: nat): IP
  {
    if V4InV6 <= x < V4InV6 + V4Space then V4(x - V4InV6) else V6(x)
  }

  /** `net.ParseIP`. */
  function ParseIP(v6: Ip6Syntax, s: string): (r: Option<IP>)
    ensures r.Some? && r.value.V4? && Dispatch(s) == '.' ==> r.value.v4 < V4Space
  {
    match Dispatch(s)
    case '.' => (var n := ParseIPv4(s); if n.Some? then Some(V4(n.value)) else None)
    case ':' => (var x := v6.parse(s); if x.Some? then Some(FromV6(x.value)) else None)
    case _ => None
  }

  /** `IP.String`. */
  function FormatIP(v6: Ip6Syntax, ip: IP): string
  {
    match ip
    case V4(n) => if n < V4Space then FormatIPv4(n) else v6.format(V4InV6 + n)
    case V6(x) => v6.format(x)
  }

  /** `net.ParseCIDR`: an address, '/', and a decimal prefix length no longer than the address. */
  function ParseCIDR(v6: Ip6Syntax, s: string): (r: Option<IPNet>)
    ensures r.Some? ==> '/' in s
    ensures r.Some? ==> r.value.prefix <= (if r.value.isV6 then 128 else 32)
  {
    var (addr, mask, found) := Cut(s, '/');
    if !found || mask == "" || !AllDigits(mask) then None
    else
      var d := Dispatch(addr);
      var bits := if d == ':' then 128 else 32;
      var a := if d == '.' then ParseIPv4(addr) else if d == ':' then v6.parse(addr) else None;
      var prefix := DigitsValue(mask);
      if a.None? || prefix > bits then None
      else Some(IPNet(d == ':', MaskHost(a.value, bits, prefix), prefix))
  }

  /** `addr` as a `bits`-bit number with all but its first `prefix` bits cleared. */
  function MaskHost(addr: nat, bits: nat, prefix: nat): nat
    requires prefix <= bits
  {
    var host := Pow2(bits - prefix);
    addr / host * host
  }

  /**
   * `IPNet.Contains`. A network written in IPv6 whose address is IPv4-mapped
   * behaves as the IPv4 network under the last 32 bits of its mask.
   */
  predicate NetContains(n: IPNet, ip: IP)
  {
    if n.isV6 && V4InV6 <= n.addr < V4InV6 + V4Space then
      ip.V4? && 96 <= n.prefix <= 128 && SamePrefix(n.addr - V4InV6, ip.v4, 32, n.prefix - 96)
    else if n.isV6 then ip.V6? && n.prefix <= 128 && SamePrefix(n.addr, ip.v6, 128, n.prefix)
    else ip.V4? && n.prefix <= 32 && SamePrefix(n.addr, ip.v4, 32, n.prefix)
  }

  /** `a` and `b`, as `bits`-bit numbers, agree on their first `prefix` bits. */
  predicate SamePrefix(a: nat, b: nat, bits: nat, prefix: nat)
    requires prefix <= bits
  {
    a / Pow2(bits - prefix) == b / Pow2(bits - prefix)
  }

  /** `IP.IsLoopback`: 127.0.0.0/8, or `::1`. */
  predicate IsLoopback(ip: IP)
  {
    match ip
    case V4(n) => n / 0x100_0000 == 127
    case V6(x) => x == 1
  }

  /**
   * `IP.IsPrivate`: 10.0.0.0/8, 172.16.0.0/12 and 192.168.0.0/16 (section 3
   * of RFC 1918), or `fc00::/7` (section 3.1 of RFC 4193).
   */
  predicate IsPrivate(ip: IP)
  {
    match ip
    case V4(n) => n / 0x100_0000 == 10 || n / 0x10_0000 == 0xAC1 || n / 0x1_0000 == 0xC0A8
    case V6(x) => x / Pow2(121) == 0x7E
  }

  /** A digit string whose first digit is not '0' has a positive value. */
  lemma {:induction false} DigitsValuePositive(s: string)
    requires |s| >= 1 && AllDigits(s) && s[0] != '0'
    ensures DigitsValue(s) >= 1
  {
    if |s| > 1 {
      DigitsValuePositive(s[..|s| - 1]);
    }
  }

  /** A digit string without a leading zero is the decimal form of its value. */
  lemma {:induction false} FormatDigitsValue(s: string)
    requires |s| >= 1 && AllDigits(s) && (|s| > 1 ==> s[0] != '0')
    ensures FormatDecimal(DigitsValue(s)) == s
  {
    if |s| > 1 {
      var init := s[..|s| - 1];
      DigitsValuePositive(init);
      FormatDigitsValue(init);
      var v := DigitsValue(s);
      assert v / 10 == DigitsValue(init) && v % 10 == s[|s| - 1] as int - '0' as int;
      assert s == init + [s[|s| - 1]];
    }
  }

  /** The decimal form of a number up to 255 is a valid octet. */
  lemma FormatOctetValid(x: nat)
    requires x < 256
    ensures ValidOctet(FormatDecimal(x)) && DigitsValue(FormatDecimal(x)) == x
  {
    FormatDecimalLength(x);
    DigitsValueFormat(x);
  }

  /** Dotted-decimal text starts with digits and its first separator is '.'. */
  lemma DispatchDotted(n: nat)
    requires n < V4Space
    ensures Dispatch(FormatIPv4(n)) == '.'
  {
    var o := Octets(n);
    var first := FormatDecimal(o[0]);
    var rest := Join([FormatDecimal(o[1]), FormatDecimal(o[2]), FormatDecimal(o[3])], '.');
    JoinCons(first, [FormatDecimal(o[1]), FormatDecimal(o[2]), FormatDecimal(o[3])], '.');
    assert [first] + [FormatDecimal(o[1]), FormatDecimal(o[2]), FormatDecimal(o[3])]
      == [FormatDecimal(o[0]), FormatDecimal(o[1]), FormatDecimal(o[2]), FormatDecimal(o[3])];
    DispatchDigits(first, rest);
  }

  lemma {:induction false} DispatchDigits(digits: string, rest: string)
    requires AllDigits(digits)
    ensures Dispatch(digits + "." + rest) == '.'
  {
    if |digits| > 0 {
      assert (digits + "." + rest)[1..] == digits[1..] + "." + rest;
      DispatchDigits(digits[1..], rest);
    }
  }

  /** Printing an IPv4 address and parsing it back gives the address. */
  lemma ParseFormatIPv4(n: nat)
    requires n < V4Space
    ensures ParseIPv4(FormatIPv4(n)) == Some(n)
  {
    var o := Octets(n);
    var parts := [FormatDecimal(o[0]), FormatDecimal(o[1]), FormatDecimal(o[2]), FormatDecimal(o[3])];
    forall k | 0 <= k < 4 ensures '.' !in parts[k] && ValidOctet(parts[k]) && DigitsValue(parts[k]) == o[k] {
      FormatOctetValid(o[k]);
    }
    SplitJoin(parts, '.');
  }

  /** Four octets are recovered from the number they make. */
  lemma OctetsFromOctets(a: nat, b: nat, c: nat, d: nat)
    requires a < 256 && b < 256 && c < 256 && d < 256
    ensures FromOctets(a, b, c, d) < V4Space
    ensures Octets(FromOctets(a, b, c, d)) == [a, b, c, d]
  {
    var n := FromOctets(a, b, c, d);
    var n1 := (a * 256 + b) * 256 + c;
    var n2 := a * 256 + b;
    assert n == n1 * 256 + d;
    assert n / 256 == n1 && n % 256 == d;
    assert n1 / 256 == n2 && n1 % 256 == c;
    assert n2 / 256 == a && n2 % 256 == b;
  }

  /**
   * IPv4 text that parses is already in canonical form, so `IP.String` of
   * the address gives back the very same text.
   */
  lemma FormatParseIPv4(s: string)
    requires ParseIPv4(s).Some?
    ensures FormatIPv4(ParseIPv4(s).value) == s
  {
    var f := Split(s, '.');
    var v := [DigitsValue(f[0]), DigitsValue(f[1]), DigitsValue(f[2]), DigitsValue(f[3])];
    OctetsFromOctets(v[0], v[1], v[2], v[3]);
    forall k | 0 <= k < 4 ensures FormatDecimal(v[k]) == f[k] {
      FormatDigitsValue(f[k]);
    }
    assert [FormatDecimal(v[0]), FormatDecimal(v[1]), FormatDecimal(v[2]), FormatDecimal(v[3])] == f;
    JoinSplit(s, '.');
  }

  /** A network contains its own address, and, for IPv4, every address sharing its prefix. */
  lemma V4NetContains(net: IPNet, n: nat)
    requires !net.isV6 && net.prefix <= 32
    ensures NetContains(net, V4(n)) <==> n / Pow2(32 - net.prefix) == net.addr / Pow2(32 - net.prefix)
  {
  }
}
