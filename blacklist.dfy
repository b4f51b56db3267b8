/**
 * The IP blacklist (core/blacklist.go): single addresses keyed by their
 * canonical text and a list of CIDR networks, loaded from a line-based file
 * and extended by `AddIP`. The lines the file scanner yields (without their
 * line terminators) are the constructor's input, and the outcome of
 * appending to the file is a parameter.
 */
module Blacklist {
  import opened Wrappers
  import opened Strings
  import opened Net

  /** A line with its comment (from the first ';') cut off and spaces (only ' ') trimmed. */
  function CleanLine(l: string): (r: string)
    ensures ';' !in r
    ensures |r| > 0 ==> r[0] != ' ' && r[|r| - 1] != ' '
  {
    TrimBlanks(Cut(l, ';').0)
  }

  /** The scanner's own cut at the first `;` is the one `CleanLine` makes. */
  lemma CommentCut(l: string)
    ensures CleanLine(l) == TrimBlanks(if IndexOf(l, ';') > -1 then l[..IndexOf(l, ';')] else l)
  {
  }

  /** The address a line contributes, keyed by its canonical text, if any. */
  function LineAddress(v6: Ip6Syntax, l: string): Option<(string, IP)>
  {
    var c := CleanLine(l);
    if c == "" || '/' in c then None
    else match ParseIP(v6, c)
      case Some(ip) => Some((FormatIP(v6, ip), ip))
      case None => None
  }

  /** The network a line contributes, if any. */
  function LineNetwork(v6: Ip6Syntax, l: string): Option<IPNet>
  {
    var c := CleanLine(l);
    if c == "" || '/' !in c then None else ParseCIDR(v6, c)
  }

  /** The address table after loading `lines`, later lines overwriting earlier ones. */
  function LoadedIps(v6: Ip6Syntax, lines: seq<string>): map<string, IP>
  {
    if |lines| == 0 then map[]
    else
      var prev := LoadedIps(v6, lines[..|lines| - 1]);
      match LineAddress(v6, lines[|lines| - 1])
      case Some(e) => prev[e.0 := e.1]
      case None => prev
  }

  /** What a line contributes, in terms of its cleaned text `c`. */
  lemma LineParts(v6: Ip6Syntax, l: string, c: string)
    requires c == CleanLine(l)
    ensures c == "" || '/' in c ==> LineAddress(v6, l) == None
    ensures c != "" && '/' !in c ==> LineAddress(v6, l) == (if ParseIP(v6, c).Some? then Some((FormatIP(v6, ParseIP(v6, c).value), ParseIP(v6, c).value)) else None)
    ensures c == "" || '/' !in c ==> LineNetwork(v6, l) == None
    ensures c != "" && '/' in c ==> LineNetwork(v6, l) == ParseCIDR(v6, c)
  {
  }

  /** The networks after loading `lines`, in file order. */
  function LoadedMasks(v6: Ip6Syntax, lines: seq<string>): seq<IPNet>
  {
    if |lines| == 0 then []
    else
      var prev := LoadedMasks(v6, lines[..|lines| - 1]);
      match LineNetwork(v6, lines[|lines| - 1])
      case Some(n) => prev + [n]
      case None => prev
  }

  /** Loading one more line adds what that line contributes. */
  lemma LoadStep(v6: Ip6Syntax, lines: seq<string>, k: nat)
    requires k < |lines|
    ensures LoadedIps(v6, lines[..k + 1]) ==
      (match LineAddress(v6, lines[k]) case Some(e) => LoadedIps(v6, lines[..k])[e.0 := e.1] case None => LoadedIps(v6, lines[..k]))
    ensures LoadedMasks(v6, lines[..k + 1]) ==
      (match LineNetwork(v6, lines[k]) case Some(n) => LoadedMasks(v6, lines[..k]) + [n] case None => LoadedMasks(v6, lines[..k]))
  {
    assert lines[..k + 1][..k] == lines[..k];
  }

  /** Every network loaded comes from a cleaned line that contains '/' and parses as CIDR. */
  lemma {:induction false} LoadedMasksFromLines(v6: Ip6Syntax, lines: seq<string>)
    ensures forall m :: m in LoadedMasks(v6, lines) ==>
      exists l :: l in lines && '/' in CleanLine(l) && ParseCIDR(v6, CleanLine(l)) == Some(m)
    ensures |LoadedMasks(v6, lines)| <= |lines|
  {
    if |lines| > 0 {
      var init, last := lines[..|lines| - 1], lines[|lines| - 1];
      LoadedMasksFromLines(v6, init);
      assert forall l :: l in init ==> l in lines;
      assert last in lines;
      if LineNetwork(v6, last).Some? {
        assert '/' in CleanLine(last) && ParseCIDR(v6, CleanLine(last)) == LineNetwork(v6, last);
      }
    }
  }

  /**
   * Every address loaded comes from a cleaned line without '/' that parses,
   * and is keyed by its canonical text.
   */
  lemma {:induction false} LoadedIpsFromLines(v6: Ip6Syntax, lines: seq<string>)
    ensures forall k :: k in LoadedIps(v6, lines) ==>
      exists l :: l in lines && LineAddress(v6, l) == Some((k, LoadedIps(v6, lines)[k]))
  {
    if |lines| > 0 {
      var init := lines[..|lines| - 1];
      LoadedIpsFromLines(v6, init);
      assert forall l :: l in init ==> l in lines;
    }
  }

  /** Every line holding a parseable address has that address's canonical text as a key. */
  lemma {:induction false} LoadedIpsComplete(v6: Ip6Syntax, lines: seq<string>)
    ensures forall l :: l in lines && LineAddress(v6, l).Some? ==> LineAddress(v6, l).value.0 in LoadedIps(v6, lines)
  {
    if |lines| > 0 {
      var init := lines[..|lines| - 1];
      LoadedIpsComplete(v6, init);
      assert lines == init + [lines[|lines| - 1]];
    }
  }

  /** What `LineAddress` says of a line, spelled out. */
  lemma LineAddressMeaning(v6: Ip6Syntax, l: string)
    ensures LineAddress(v6, l).Some? ==> ('/' !in CleanLine(l)
      && ParseIP(v6, CleanLine(l)) == Some(LineAddress(v6, l).value.1)
      && LineAddress(v6, l).value.0 == FormatIP(v6, LineAddress(v6, l).value.1))
  {
  }

  class Blacklist {
    /** Single addresses, keyed by canonical text. */
    var ips: map<string, IP>
    /** CIDR networks, in file order. */
    var masks: seq<IPNet>
    const v6: Ip6Syntax

    /** `NewBlacklist`: scan the file's lines. */
    constructor (v6: Ip6Syntax, lines: seq<string>)
      ensures this.v6 == v6
      ensures ips == LoadedIps(v6, lines) && masks == LoadedMasks(v6, lines)
    {
      this.v6 := v6;
      ips := map[];
      masks := [];
      new;
      var k := 0;
      while k < |lines|
        invariant 0 <= k <= |lines|
        invariant this.v6 == v6
        invariant ips == LoadedIps(v6, lines[..k]) && masks == LoadedMasks(v6, lines[..k])
      {
        LoadStep(v6, lines, k);
        LoadLine(lines[k]);
        k := k + 1;
      }
      assert lines[..k] == lines;
    }

    /** One pass of the scanner loop: cut the comment, trim, and file the address or network. */
    method LoadLine(raw: string)
      modifies this
      ensures ips == (match LineAddress(v6, raw) case Some(e) => old(ips)[e.0 := e.1] case None => old(ips))
      ensures masks == (match LineNetwork(v6, raw) case Some(n) => old(masks) + [n] case None => old(masks))
    {
      var l := raw;
      var semi := IndexOf(l, ';');
      if semi > -1 {
        l := l[..semi];
      }
      CommentCut(raw);
      l := TrimBlanks(l);
      LineParts(v6, raw, l);
      var address: Option<(string, IP)> := None;
      var network: Option<IPNet> := None;
      if |l| > 0 {
        if '/' in l {
          network := ParseCIDR(v6, l);
        } else {
          var ip := ParseIP(v6, l);
          if ip.Some? {
            address := Some((FormatIP(v6, ip.value), ip.value));
          }
        }
      }
      File(address, network);
    }

    /** Files what one line contributes: the address under its text, the network at the end. */
    method File(address: Option<(string, IP)>, network: Option<IPNet>)
      modifies this
      ensures ips == (match address case Some(e) => old(ips)[e.0 := e.1] case None => old(ips))
      ensures masks == (match network case Some(n) => old(masks) + [n] case None => old(masks))
    {
      if address.Some? {
        ips := ips[address.value.0 := address.value.1];
      }
      if network.Some? {
        masks := masks + [network.value];
      }
    }

    /** `GetStats`: the number of single addresses and of networks. */
    method GetStats() returns (addresses: int, networks: int)
      ensures addresses == |ips| && networks == |masks|
    {
      return |ips|, |masks|;
    }

    /** Whether `ip` is listed: its raw text is a key, or a network contains it. */
    predicate Listed(ip: string)
      reads this
    {
      ip != "" && ParseIP(v6, ip).Some?
      && (ip in ips || exists k :: 0 <= k < |masks| && NetContains(masks[k], ParseIP(v6, ip).value))
    }

    method IsBlacklisted(ip: string) returns (r: bool)
      ensures r <==> (ip != "" && ParseIP(v6, ip).Some?
                      && (ip in ips || exists k :: 0 <= k < |masks| && NetContains(masks[k], ParseIP(v6, ip).value)))
    {
      if ip == "" {
        return false;
      }
      var addr := ParseIP(v6, ip);
      if addr.None? {
        return false;
      }
      if ip in ips {
        return true;
      }
      var k := 0;
      while k < |masks|
        invariant 0 <= k <= |masks|
        invariant forall j :: 0 <= j < k ==> !NetContains(masks[j], addr.value)
      {
        if NetContains(masks[k], addr.value) {
          return true;
        }
        k := k + 1;
      }
      return false;
    }

    /**
     * `AddIP`: add the canonical text of a new address. `appended` is the
     * outcome of appending it to the file, whose error is reported after the
     * address was added.
     */
    method AddIP(ip: string, appended: Option<string>) returns (err: Option<string>)
      modifies this
      ensures masks == old(masks)
      ensures ip == "" ==> err == Some("IP address cannot be empty") && ips == old(ips)
      ensures ip != "" && old(Listed(ip)) ==> err == None && ips == old(ips)
      ensures ip != "" && !old(Listed(ip)) && ParseIP(v6, ip).None? ==>
        err == Some("invalid ip address: " + ip) && ips == old(ips)
      ensures ip != "" && !old(Listed(ip)) && ParseIP(v6, ip).Some? ==>
        && ips == old(ips)[FormatIP(v6, ParseIP(v6, ip).value) := ParseIP(v6, ip).value]
        && err == appended
    {
      if ip == "" {
        return Some("IP address cannot be empty");
      }
      var listed := IsBlacklisted(ip);
      if listed {
        return None;
      }
      var addr := ParseIP(v6, ip);
      if addr.None? {
        return Some("invalid ip address: " + ip);
      }
      ips := ips[FormatIP(v6, addr.value) := addr.value];
      return appended;
    }
  }

  /** `IsWhitelisted`: loopback and private addresses; the blacklist plays no part. */
  function IsWhitelisted(v6: Ip6Syntax, ip: string): (r: bool)
    ensures r ==> ip != "" && ParseIP(v6, ip).Some?
  {
    if ip == "" then false
    else match ParseIP(v6, ip)
      case None => false
      case Some(addr) => ip == "127.0.0.1" || ip == "::1" || IsLoopback(addr) || IsPrivate(addr)
  }

  /** An IPv4 address parsed from text is in canonical form: it is listed under that text. */
  lemma ParsedIPv4IsCanonical(v6: Ip6Syntax, s: string)
    requires Dispatch(s) == '.' && ParseIP(v6, s).Some?
    ensures FormatIP(v6, ParseIP(v6, s).value) == s
  {
    FormatParseIPv4(s);
  }

  /** The private IPv4 ranges and loopback are whitelisted, in their canonical spelling. */
  lemma PrivateIPv4Whitelisted(v6: Ip6Syntax, n: nat)
    requires n < V4Space
    requires IsPrivate(V4(n)) || IsLoopback(V4(n))
    ensures IsWhitelisted(v6, FormatIPv4(n))
  {
    ParseFormatIPv4(n);
    DispatchDotted(n);
  }

  /** "127.0.0.1" is the dotted-decimal form of 0x7F00_0001. */
  lemma FormatLoopbackText()
    ensures FormatIPv4(0x7F00_0001) == "127.0.0.1"
  {
    assert Octets(0x7F00_0001) == [127, 0, 0, 1];
    assert FormatDecimal(12) == "12";
    assert FormatDecimal(127) == "127";
    JoinCons("0", ["1"], '.');
    JoinCons("0", ["0", "1"], '.');
    JoinCons("127", ["0", "0", "1"], '.');
  }

  /** The literal "127.0.0.1" the code compares against parses as an IPv4 loopback address. */
  lemma ParseLoopbackText(v6: Ip6Syntax)
    ensures ParseIP(v6, "127.0.0.1") == Some(V4(0x7F00_0001))
  {
    FormatLoopbackText();
    ParseFormatIPv4(0x7F00_0001);
    DispatchDotted(0x7F00_0001);
  }

  /**
   * For text that parses as an IPv4 address, `IsWhitelisted` holds exactly
   * when the address is loopback (127.0.0.0/8) or private (RFC 1918), or the
   * text is "::1" (which the IPv6 syntax may map into the IPv4 range).
   */
  lemma WhitelistedIPv4(v6: Ip6Syntax, s: string, n: nat)
    requires ParseIP(v6, s) == Some(V4(n))
    ensures IsWhitelisted(v6, s) <==> s == "::1" || n / 0x100_0000 == 127 || IsPrivate(V4(n))
  {
    if s == "127.0.0.1" {
      ParseLoopbackText(v6);
    }
  }

  /**
   * For text that parses as an IPv6 address, `IsWhitelisted` holds exactly
   * when the text is "::1", the address is ::1, or it lies in fc00::/7.
   */
  lemma WhitelistedIPv6(v6: Ip6Syntax, s: string, x: nat)
    requires ParseIP(v6, s) == Some(V6(x))
    ensures IsWhitelisted(v6, s) <==> s == "::1" || x == 1 || x / Pow2(121) == 0x7E
  {
    ParseLoopbackText(v6);
  }

  /** Example: 8.8.8.8 is the dotted-decimal form of 0x0808_0808. */
  lemma FormatEights()
    ensures FormatIPv4(0x0808_0808) == "8.8.8.8"
  {
    assert Octets(0x0808_0808) == [8, 8, 8, 8];
    assert FormatDecimal(8) == "8";
    JoinCons("8", ["8"], '.');
    JoinCons("8", ["8", "8"], '.');
    JoinCons("8", ["8", "8", "8"], '.');
  }

  /** Example: the text "8.8.8.8" parses to 0x0808_0808. */
  lemma ParseEights(v6: Ip6Syntax)
    ensures ParseIP(v6, "8.8.8.8") == Some(V4(0x0808_0808))
  {
    FormatEights();
    ParseFormatIPv4(0x0808_0808);
    DispatchDotted(0x0808_0808);
  }

  /** Example: a public address such as 8.8.8.8 is not whitelisted. */
  lemma PublicNotWhitelisted(v6: Ip6Syntax)
    ensures !IsWhitelisted(v6, "8.8.8.8")
  {
    ParseEights(v6);
    var n := 0x0808_0808;
    assert n / 0x100_0000 == 8 && n / 0x10_0000 == 0x80 && n / 0x1_0000 == 0x808;
    WhitelistedIPv4(v6, "8.8.8.8", n);
  }

  /** Any IPv4 text `AddIP` accepts is listed afterwards: the key stored is that very text. */
  method AddIPv4ThenListed(bl: Blacklist, ip: string, appended: Option<string>)
    requires Dispatch(ip) == '.' && ParseIP(bl.v6, ip).Some?
    modifies bl
    ensures bl.Listed(ip)
  {
    var err := bl.AddIP(ip, appended);
    ParsedIPv4IsCanonical(bl.v6, ip);
    var listed := bl.IsBlacklisted(ip);
    assert listed;
  }
}
