/**
 * Input validation and sanitisation (internal/utils/validation.go). Each
 * validator returns `None` for Go's `nil` error or `Some(message)`. The two
 * regular expressions are given here as the grammars they denote, and each
 * validator is proved to accept exactly the strings of its grammar; IP syntax
 * is that of the `Net` module, and compiling a regular expression is a
 * parameter.
 */
module Validation {
  import opened Wrappers
  import opened Strings
  import Net

  predicate IsLetter(c: char)
  {
    'a' <= c <= 'z' || 'A' <= c <= 'Z'
  }

  predicate IsAlnum(c: char)
  {
    IsLetter(c) || IsDigit(c)
  }

  /** One hostname label: 1 to 63 letters, digits or '-', starting and ending with a letter or digit. */
  predicate ValidLabel(l: string)
  {
    1 <= |l| <= 63 && IsAlnum(l[0]) && IsAlnum(l[|l| - 1])
    && forall i :: 0 <= i < |l| ==> IsAlnum(l[i]) || l[i] == '-'
  }

  /**
   * The language of the hostname pattern: one or more valid labels joined by
   * '.' (section 2.1 of RFC 1123), with no empty label and no trailing '.'.
   */
  ghost predicate HostnameGrammar(h: string)
  {
    exists labels: seq<string> :: |labels| >= 1 && Join(labels, '.') == h
      && forall k :: 0 <= k < |labels| ==> ValidLabel(labels[k])
  }

  /** The check as the model performs it: every '.'-separated piece is a valid label. */
  predicate LabelsValid(h: string)
  {
    forall k :: 0 <= k < |Split(h, '.')| ==> ValidLabel(Split(h, '.')[k])
  }

  /** Checking the pieces accepts exactly the hostname grammar. */
  lemma LabelsValidIsGrammar(h: string)
    ensures LabelsValid(h) <==> HostnameGrammar(h)
  {
    if LabelsValid(h) {
      LabelsValidHasGrammar(h);
    }
    if HostnameGrammar(h) {
      var labels: seq<string> :| |labels| >= 1 && Join(labels, '.') == h
        && forall k :: 0 <= k < |labels| ==> ValidLabel(labels[k]);
      GrammarLabelsValid(labels);
    }
  }

  lemma LabelsValidHasGrammar(h: string)
    requires LabelsValid(h)
    ensures HostnameGrammar(h)
  {
    JoinSplit(h, '.');
    assert |Split(h, '.')| >= 1 && Join(Split(h, '.'), '.') == h;
  }

  lemma GrammarLabelsValid(labels: seq<string>)
    requires |labels| >= 1
    requires forall k :: 0 <= k < |labels| ==> ValidLabel(labels[k])
    ensures LabelsValid(Join(labels, '.'))
  {
    assert forall k :: 0 <= k < |labels| ==> '.' !in labels[k];
    SplitJoin(labels, '.');
  }

  /** `ValidateHostname`. */
  function ValidateHostname(hostname: string): (r: Option<string>)
    ensures r.None? <==> hostname != "" && |hostname| <= 253 && HostnameGrammar(hostname)
    ensures hostname == "" ==> r == Some("hostname cannot be empty")
  {
    LabelsValidIsGrammar(hostname);
    if hostname == "" then Some("hostname cannot be empty")
    else if |hostname| > 253 then Some("hostname too long: " + FormatDecimal(|hostname|) + " characters (max 253)")
    else if !LabelsValid(hostname) then Some("invalid hostname format: " + hostname)
    else None
  }

  /** `ValidateIPAddress`: anything `net.ParseIP` accepts. */
  function ValidateIPAddress(v6: Net.Ip6Syntax, ip: string): (r: Option<string>)
    ensures r.None? <==> ip != "" && Net.ParseIP(v6, ip).Some?
    ensures ip == "" ==> r == Some("IP address cannot be empty")
  {
    if ip == "" then Some("IP address cannot be empty")
    else if Net.ParseIP(v6, ip).None? then Some("invalid IP address format: " + ip)
    else None
  }

  /** Every IPv4 address in dotted-decimal form is a valid IP address. */
  lemma DottedDecimalValid(v6: Net.Ip6Syntax, n: nat)
    requires n < Net.V4Space
    ensures ValidateIPAddress(v6, Net.FormatIPv4(n)) == None
  {
    Net.ParseFormatIPv4(n);
    Net.DispatchDotted(n);
  }

  /** Characters of the local part of an address: `[a-zA-Z0-9._%+-]`. */
  predicate LocalChar(c: char)
  {
    IsAlnum(c) || c == '.' || c == '_' || c == '%' || c == '+' || c == '-'
  }

  /** Characters of the domain before the last '.': `[a-zA-Z0-9.-]`. */
  predicate DomainChar(c: char)
  {
    IsAlnum(c) || c == '.' || c == '-'
  }

  predicate AllOf(s: string, p: char -> bool)
  {
    forall i :: 0 <= i < |s| ==> p(s[i])
  }

  /** The language of the e-mail pattern, part by part. */
  ghost predicate EmailGrammar(e: string)
  {
    exists local, domain, tld :: e == local + "@" + domain + "." + tld
      && EmailParts(local, domain, tld)
  }

  predicate EmailParts(local: string, domain: string, tld: string)
  {
    |local| >= 1 && AllOf(local, LocalChar)
    && |domain| >= 1 && AllOf(domain, DomainChar)
    && |tld| >= 2 && AllOf(tld, IsLetter)
  }

  /** The last index of `c` in `s`, or -1. */
  function LastIndexOf(s: string, c: char): (r: int)
    ensures -1 <= r < |s|
    ensures r >= 0 ==> s[r] == c && c !in s[r + 1..]
    ensures r == -1 <==> c !in s
  {
    if |s| == 0 then -1
    else if s[|s| - 1] == c then |s| - 1
    else
      assert s[..|s| - 1] + [s[|s| - 1]] == s;
      LastIndexOf(s[..|s| - 1], c)
  }

  lemma {:induction false} LastIndexOfJoined(a: string, c: char, b: string)
    requires c !in b
    ensures LastIndexOf(a + [c] + b, c) == |a|
  {
    if |b| > 0 {
      var s := a + [c] + b;
      assert s[..|s| - 1] == a + [c] + b[..|b| - 1];
      LastIndexOfJoined(a, c, b[..|b| - 1]);
    }
  }

  /** The check as the model performs it: split at the first '@' and at the last '.' after it. */
  predicate EmailShape(e: string)
  {
    var (local, rest, found) := Cut(e, '@');
    var dot := LastIndexOf(rest, '.');
    found && dot >= 0 && EmailParts(local, rest[..dot], rest[dot + 1..])
  }

  /** Text the grammar builds from its three parts passes the split check. */
  lemma GrammarHasShape(l: string, d: string, t: string)
    requires EmailParts(l, d, t)
    ensures EmailShape(l + "@" + d + "." + t)
  {
    Excluded(l, LocalChar, '@');
    Excluded(t, IsLetter, '.');
    var rest := d + ['.'] + t;
    assert l + "@" + d + "." + t == l + ['@'] + rest;
    CutJoined(l, '@', rest);
    LastDotJoined(d, t);
  }

  /** Splitting `d.t` at its last '.', when `t` has none, gives back `d` and `t`. */
  lemma LastDotJoined(d: string, t: string)
    requires '.' !in t
    ensures var rest := d + ['.'] + t;
      var dot := LastIndexOf(rest, '.');
      dot == |d| && rest[..dot] == d && rest[dot + 1..] == t
  {
    LastIndexOfJoined(d, '.', t);
    var rest := d + ['.'] + t;
    assert rest[..|d|] == d && rest[|d| + 1..] == t;
  }

  /** A character the class excludes does not occur in text drawn from the class. */
  lemma Excluded(s: string, p: char -> bool, c: char)
    requires AllOf(s, p) && !p(c)
    ensures c !in s
  {
  }

  /** Cutting at the first `c` of `a + [c] + b`, when `a` has none, gives back `a` and `b`. */
  lemma CutJoined(a: string, c: char, b: string)
    requires c !in a
    ensures Cut(a + [c] + b, c) == (a, b, true)
  {
    var s := a + [c] + b;
    IndexOfJoined(a, c, b);
    assert s[..|a|] == a && s[|a| + 1..] == b;
  }

  /** Text that passes the split check is built by the grammar from its three parts. */
  lemma ShapeHasGrammar(e: string)
    requires EmailShape(e)
    ensures EmailGrammar(e)
  {
    ShapeParts(e);
    var c := Cut(e, '@');
    var l, rest := c.0, c.1;
    var dot := LastIndexOf(rest, '.');
    var d, t := rest[..dot], rest[dot + 1..];
    SplitAt(rest, dot);
    Rejoin(e, l, rest, d, t);
  }

  /** What the split check finds, part by part. */
  lemma ShapeParts(e: string)
    requires EmailShape(e)
    ensures var c := Cut(e, '@');
      var dot := LastIndexOf(c.1, '.');
      c.2 && e == c.0 + ['@'] + c.1 && 0 <= dot < |c.1| && c.1[dot] == '.'
      && EmailParts(c.0, c.1[..dot], c.1[dot + 1..])
  {
  }

  lemma SplitAt(s: string, i: int)
    requires 0 <= i < |s|
    ensures s == s[..i] + [s[i]] + s[i + 1..]
  {
  }

  lemma Rejoin(e: string, l: string, rest: string, d: string, t: string)
    requires e == l + ['@'] + rest && rest == d + ['.'] + t
    ensures e == l + "@" + d + "." + t
  {
  }

  /** The split check accepts exactly the e-mail grammar. */
  lemma EmailShapeIsGrammar(e: string)
    ensures EmailShape(e) <==> EmailGrammar(e)
  {
    if EmailShape(e) {
      ShapeHasGrammar(e);
    }
    if EmailGrammar(e) {
      var l, d, t :| e == l + "@" + d + "." + t && EmailParts(l, d, t);
      GrammarHasShape(l, d, t);
    }
  }

  /** `ValidateEmail`. */
  function ValidateEmail(email: string): (r: Option<string>)
    ensures r.None? <==> email != "" && |email| <= 254 && EmailShape(email)
    ensures email == "" ==> r == Some("email cannot be empty")
    ensures email != "" && |email| <= 254 && !EmailShape(email) ==> r == Some("invalid email format: " + email)
  {
    if email == "" then Some("email cannot be empty")
    else if |email| > 254 then Some("email too long: " + FormatDecimal(|email|) + " characters (max 254)")
    else if !EmailShape(email) then Some("invalid email format: " + email)
    else None
  }

  /** An address is accepted exactly when it is non-empty, at most 254 bytes and in the grammar. */
  lemma ValidateEmailGrammar(email: string)
    ensures ValidateEmail(email).None? <==> email != "" && |email| <= 254 && EmailGrammar(email)
  {
    EmailShapeIsGrammar(email);
  }

  /** Text built by the grammar has its only '@' after the local part. */
  lemma OnlyOneAt(e: string, l: string, d: string, t: string)
    requires e == l + "@" + d + "." + t && EmailParts(l, d, t)
    ensures e[|l|] == '@' && forall j :: 0 <= j < |e| && e[j] == '@' ==> j == |l|
  {
    forall j | 0 <= j < |e| && j != |l| ensures e[j] != '@' {
      if j < |l| {
        assert e[j] == l[j];
        assert LocalChar(l[j]);
      } else if j < |l| + 1 + |d| {
        assert e[j] == d[j - |l| - 1];
        assert DomainChar(d[j - |l| - 1]);
      } else if j > |l| + 1 + |d| {
        assert e[j] == t[j - |l| - 2 - |d|];
        assert IsLetter(t[j - |l| - 2 - |d|]);
      }
    }
  }

  /** Text built by the grammar ends with '.' and at least two letters. */
  lemma EndsWithLetters(e: string, l: string, d: string, t: string)
    requires e == l + "@" + d + "." + t && EmailParts(l, d, t)
    ensures var k := |l| + 1 + |d|;
      k <= |e| - 3 && e[k] == '.' && forall j :: k < j < |e| ==> IsLetter(e[j])
  {
    var k := |l| + 1 + |d|;
    forall j | k < j < |e| ensures IsLetter(e[j]) {
      assert e[j] == t[j - k - 1];
    }
  }

  /** An accepted address has exactly one '@', and ends with '.' and at least two letters. */
  lemma AcceptedEmailShape(email: string)
    requires ValidateEmail(email).None?
    ensures exists i :: (0 <= i < |email| && email[i] == '@'
      && forall j :: 0 <= j < |email| && email[j] == '@' ==> j == i)
    ensures exists k :: (0 <= k <= |email| - 3 && email[k] == '.'
      && forall j :: k < j < |email| ==> IsLetter(email[j]))
  {
    ValidateEmailGrammar(email);
    var l, d, t :| email == l + "@" + d + "." + t && EmailParts(l, d, t);
    OnlyOneAt(email, l, d, t);
    EndsWithLetters(email, l, d, t);
  }

  /** `ValidateRegexPattern`; `compile` gives the compiler's error, if any. */
  function ValidateRegexPattern(pattern: string, compile: string -> Option<string>): (r: Option<string>)
    ensures r.None? <==> pattern != "" && |pattern| <= 1000 && compile(pattern).None?
    ensures pattern == "" ==> r == Some("regex pattern cannot be empty")
    ensures pattern != "" && |pattern| <= 1000 && compile(pattern).Some? ==>
      r == Some("invalid regex pattern: " + compile(pattern).value)
  {
    if pattern == "" then Some("regex pattern cannot be empty")
    else if |pattern| > 1000 then Some("regex pattern too long: " + FormatDecimal(|pattern|) + " characters (max 1000)")
    else match compile(pattern)
      case Some(e) => Some("invalid regex pattern: " + e)
      case None => None
  }

  /** The control characters `SanitizeString` removes or replaces. */
  predicate Unsafe(c: char)
  {
    c == '\0' || c == '\r' || c == '\n'
  }

  /**
   * `SanitizeString`: truncate to `maxLength` bytes, trim white space, drop
   * NUL and CR, and turn LF into a space. A negative `maxLength` makes Go's
   * slice panic, so it is excluded.
   */
  function SanitizeString(input: string, maxLength: int): (r: string)
    requires maxLength >= 0
    ensures |r| <= maxLength
    ensures forall i :: 0 <= i < |r| ==> !Unsafe(r[i])
  {
    var cut := if |input| > maxLength then input[..maxLength] else input;
    var trimmed := TrimSpace(cut);
    var noNul := RemoveAll(trimmed, '\0');
    var noCr := RemoveAll(noNul, '\r');
    assert '\0' !in noCr;
    ReplaceAll(noCr, '\n', ' ')
  }

  /** Input that is short enough, trimmed and free of NUL, CR and LF is returned unchanged. */
  lemma SanitizeKeepsCleanInput(input: string, maxLength: int)
    requires 0 <= |input| <= maxLength
    requires |input| > 0 ==> !IsSpace(input[0]) && !IsSpace(input[|input| - 1])
    requires forall i :: 0 <= i < |input| ==> !Unsafe(input[i])
    ensures SanitizeString(input, maxLength) == input
  {
    RemoveAllAbsent(input, '\0');
    RemoveAllAbsent(input, '\r');
    assert ReplaceAll(input, '\n', ' ') == input;
  }

  lemma {:induction false} RemoveAllAbsent(s: string, c: char)
    requires c !in s
    ensures RemoveAll(s, c) == s
  {
    if |s| > 0 {
      RemoveAllAbsent(s[1..], c);
      assert [s[0]] + s[1..] == s;
    }
  }

  /**
   * Sanitising twice can differ from sanitising once: for any clean text `s`,
   * `s` followed by LF and NUL becomes `s` and a space (the NUL kept the LF
   * from being trimmed), and the second pass trims that space away.
   */
  lemma SanitizeNotIdempotent(s: string, maxLength: int)
    requires |s| + 2 <= maxLength
    requires |s| > 0 && !IsSpace(s[0]) && !IsSpace(s[|s| - 1])
    requires forall i :: 0 <= i < |s| ==> !Unsafe(s[i])
    ensures SanitizeString(s + "\n\0", maxLength) == s + " "
    ensures SanitizeString(s + " ", maxLength) == s
  {
    SanitizeFirstPass(s, maxLength);
    SanitizeSecondPass(s, maxLength);
  }

  lemma SanitizeFirstPass(s: string, maxLength: int)
    requires |s| + 2 <= maxLength
    requires |s| > 0 && !IsSpace(s[0])
    requires forall i :: 0 <= i < |s| ==> !Unsafe(s[i])
    ensures SanitizeString(s + "\n\0", maxLength) == s + " "
  {
    var input := s + "\n\0";
    var withLf := s + "\n";
    assert input[0] == s[0] && input[|input| - 1] == '\0';
    assert '\0' !in s && '\r' !in s && '\n' !in s by {
      assert forall i :: 0 <= i < |s| ==> !Unsafe(s[i]);
    }
    calc {
      SanitizeString(input, maxLength);
    == { SanitizeShort(input, maxLength); }
      ReplaceAll(RemoveAll(RemoveAll(TrimSpace(input), '\0'), '\r'), '\n', ' ');
    == { TrimSpaceKeeps(input); }
      ReplaceAll(RemoveAll(RemoveAll(input, '\0'), '\r'), '\n', ' ');
    == { DropTrailingNul(s); }
      ReplaceAll(RemoveAll(withLf, '\r'), '\n', ' ');
    == { RemoveAllAbsent(withLf, '\r'); }
      ReplaceAll(withLf, '\n', ' ');
    == { LfToSpace(s); }
      s + " ";
    }
  }

  lemma LfToSpace(s: string)
    requires '\n' !in s
    ensures ReplaceAll(s + "\n", '\n', ' ') == s + " "
  {
    assert forall i :: 0 <= i < |s| ==> (s + "\n")[i] == s[i] != '\n';
  }

  /** Input within the length bound is not truncated. */
  lemma SanitizeShort(input: string, maxLength: int)
    requires 0 <= |input| <= maxLength
    ensures SanitizeString(input, maxLength)
      == ReplaceAll(RemoveAll(RemoveAll(TrimSpace(input), '\0'), '\r'), '\n', ' ')
  {
  }

  /** Removing NUL from NUL-free text followed by LF and NUL leaves the text and the LF. */
  lemma {:induction false} DropTrailingNul(s: string)
    requires '\0' !in s
    ensures RemoveAll(s + "\n\0", '\0') == s + "\n"
  {
    if |s| == 0 {
      var t := "\n\0";
      assert t[1..] == "\0" && t[1..][1..] == "";
    } else {
      assert (s + "\n\0")[1..] == s[1..] + "\n\0";
      DropTrailingNul(s[1..]);
      assert [s[0]] + (s[1..] + "\n") == s + "\n";
    }
  }

  /** Text that neither starts nor ends with white space is its own `TrimSpace`. */
  lemma TrimSpaceKeeps(s: string)
    requires |s| > 0 ==> !IsSpace(s[0]) && !IsSpace(s[|s| - 1])
    ensures TrimSpace(s) == s
  {
    assert TrimLeft(s, IsSpace) == s;
    assert TrimRight(s, IsSpace) == s;
  }

  lemma SanitizeSecondPass(s: string, maxLength: int)
    requires |s| + 1 <= maxLength
    requires |s| > 0 && !IsSpace(s[0]) && !IsSpace(s[|s| - 1])
    requires forall i :: 0 <= i < |s| ==> !Unsafe(s[i])
    ensures SanitizeString(s + " ", maxLength) == s
  {
    SanitizeShort(s + " ", maxLength);
    TrimSpaceTrailing(s);
    SanitizeShort(s, maxLength);
    TrimSpaceKeeps(s);
    SanitizeKeepsCleanInput(s, maxLength);
  }

  /** A single trailing space after text with no white space at either end is trimmed. */
  lemma TrimSpaceTrailing(s: string)
    requires |s| > 0 && !IsSpace(s[0]) && !IsSpace(s[|s| - 1])
    ensures TrimSpace(s + " ") == s
  {
    var t := s + " ";
    assert TrimLeft(t, IsSpace) == t;
    assert t[..|t| - 1] == s;
    assert TrimRight(t, IsSpace) == TrimRight(s, IsSpace) == s;
  }
}
