/**
 * The request path of the proxy (internal/proxy/service.go): the admission
 * pipeline of `handleRequest` and the two host rewrites. The control plane is
 * reached through a `Lookup` and a `Validator` function standing for its RPCs;
 * `ServedBy` and `ValidatedBy` say they answer as the control plane does over a
 * given campaign table. The stealth components' verdicts are parameters.
 */
module Proxy {
  import opened Wrappers
  import opened Models
  import opened Control
  import Strings

  /** The `GetPhishletByHost` RPC: hostname and side in, reply or transport error out. */
  type Lookup = (string, bool) -> Result<PhishletReply>

  /** The `ValidateSession` RPC. */
  type Validator = string -> Result<bool>

  /** Every reply the lookup gives is one the control plane may give over `phishlets`. */
  ghost predicate ServedBy(lookup: Lookup, phishlets: map<string, Phishlet>)
  {
    forall h, b :: lookup(h, b).Ok? ==> IsAnswer(phishlets, h, b, lookup(h, b).value)
  }

  /** Every verdict the validator gives is the control plane's over `phishlets`. */
  ghost predicate ValidatedBy(validate: Validator, phishlets: map<string, Phishlet>)
  {
    forall h :: validate(h).Ok? ==> (validate(h).value <==> Resolves(phishlets, h, true))
  }

  /** The host of a `Host` header without its port: the text before the first ':'. */
  function HostWithoutPort(host: string): (r: string)
    ensures ':' !in r
    ensures Strings.HasPrefix(host, r)
    ensures ':' !in host ==> r == host
    ensures ':' in host ==> host[|r|] == ':'
  {
    if ':' in host then Strings.Split(host, ':')[0] else host
  }

  /** A leading '.' (a cookie domain) is set aside and put back after the rewrite. */
  function SplitDot(hostname: string): (r: (string, string))
    requires hostname != ""
    ensures r.0 + r.1 == hostname
    ensures r.0 == "." <==> hostname[0] == '.'
    ensures r.0 == "" <==> hostname[0] != '.'
  {
    if hostname[0] == '.' then (".", hostname[1..]) else ("", hostname)
  }

  /** Proxy host `ph` of a campaign served under `phishDomain` has front host `hostname`. */
  predicate FrontMatches(ph: ProxyHost, phishDomain: string, hostname: string)
  {
    CombineHost(ph.phishSubdomain, phishDomain) == hostname
  }

  /** The reverse rewrite stops at `ph`: its origin host or its bare domain is `hostname`. */
  predicate BackMatches(ph: ProxyHost, hostname: string)
  {
    OrigHost(ph) == hostname || ph.domain == hostname
  }

  /** The first index from `k` on whose proxy host has front host `hostname`, or `|hosts|`. */
  function FirstFront(hosts: seq<ProxyHost>, phishDomain: string, hostname: string, k: nat): (r: nat)
    requires k <= |hosts|
    ensures k <= r <= |hosts|
    ensures forall j :: k <= j < r ==> !FrontMatches(hosts[j], phishDomain, hostname)
    ensures r < |hosts| ==> FrontMatches(hosts[r], phishDomain, hostname)
    decreases |hosts| - k
  {
    if k == |hosts| || FrontMatches(hosts[k], phishDomain, hostname) then k
    else FirstFront(hosts, phishDomain, hostname, k + 1)
  }

  /** The first index from `k` on where the reverse rewrite stops, or `|hosts|`. */
  function FirstBack(hosts: seq<ProxyHost>, hostname: string, k: nat): (r: nat)
    requires k <= |hosts|
    ensures k <= r <= |hosts|
    ensures forall j :: k <= j < r ==> !BackMatches(hosts[j], hostname)
    ensures r < |hosts| ==> BackMatches(hosts[r], hostname)
    decreases |hosts| - k
  {
    if k == |hosts| || BackMatches(hosts[k], hostname) then k
    else FirstBack(hosts, hostname, k + 1)
  }

  /** What `replaceHostWithOriginal` returns: the rewritten host and whether it was rewritten. */
  function ToOriginal(lookup: Lookup, hostname: string): (r: (string, bool))
    ensures !r.1 ==> r.0 == if hostname == "" then "" else SplitDot(hostname).1
    ensures r.1 ==> hostname != "" && Strings.HasPrefix(r.0, SplitDot(hostname).0)
  {
    if hostname == "" then (hostname, false)
    else
      var (prefix, h) := SplitDot(hostname);
      var resp := lookup(h, true);
      if resp.Err? || resp.value.NotFound? then (h, false)
      else
        var hosts := resp.value.phishlet.proxyHosts;
        var i := FirstFront(hosts, resp.value.phishDomain, h, 0);
        if i == |hosts| then (h, false) else (prefix + OrigHost(hosts[i]), true)
  }

  /** What `replaceHostWithPhished` returns. */
  function ToPhished(lookup: Lookup, hostname: string): (r: (string, bool))
    ensures !r.1 ==> r.0 == if hostname == "" then "" else SplitDot(hostname).1
    ensures r.1 ==> hostname != "" && Strings.HasPrefix(r.0, SplitDot(hostname).0)
  {
    if hostname == "" then (hostname, false)
    else
      var (prefix, h) := SplitDot(hostname);
      var resp := lookup(h, false);
      if resp.Err? || resp.value.NotFound? then (h, false)
      else
        var hosts := resp.value.phishlet.proxyHosts;
        var i := FirstBack(hosts, h, 0);
        if i == |hosts| then (h, false)
        else if OrigHost(hosts[i]) == h then (prefix + CombineHost(hosts[i].phishSubdomain, resp.value.phishDomain), true)
        else (prefix + resp.value.phishDomain, true)
  }

  /** Map a front host (possibly with a leading '.') to the origin host it stands for. */
  method ReplaceHostWithOriginal(lookup: Lookup, hostname: string) returns (host: string, replaced: bool)
    ensures (host, replaced) == ToOriginal(lookup, hostname)
  {
    if hostname == "" {
      return hostname, false;
    }
    var prefix, h := SplitDot(hostname).0, SplitDot(hostname).1;
    var resp := lookup(h, true);
    if resp.Err? || resp.value.NotFound? {
      return h, false;
    }
    var hosts := resp.value.phishlet.proxyHosts;
    var k := 0;
    while k < |hosts|
      invariant 0 <= k <= |hosts|
      invariant forall j :: 0 <= j < k ==> !FrontMatches(hosts[j], resp.value.phishDomain, h)
    {
      if h == CombineHost(hosts[k].phishSubdomain, resp.value.phishDomain) {
        return prefix + CombineHost(hosts[k].origSubdomain, hosts[k].domain), true;
      }
      k := k + 1;
    }
    return h, false;
  }

  /** Map an origin host (possibly with a leading '.') to the front host serving it. */
  method ReplaceHostWithPhished(lookup: Lookup, hostname: string) returns (host: string, replaced: bool)
    ensures (host, replaced) == ToPhished(lookup, hostname)
  {
    if hostname == "" {
      return hostname, false;
    }
    var prefix, h := SplitDot(hostname).0, SplitDot(hostname).1;
    var resp := lookup(h, false);
    if resp.Err? || resp.value.NotFound? {
      return h, false;
    }
    var hosts := resp.value.phishlet.proxyHosts;
    var k := 0;
    while k < |hosts|
      invariant 0 <= k <= |hosts|
      invariant forall j :: 0 <= j < k ==> !BackMatches(hosts[j], h)
    {
      if h == CombineHost(hosts[k].origSubdomain, hosts[k].domain) {
        return prefix + CombineHost(hosts[k].phishSubdomain, resp.value.phishDomain), true;
      }
      if h == hosts[k].domain {
        return prefix + resp.value.phishDomain, true;
      }
      k := k + 1;
    }
    return h, false;
  }

  /**
   * With a faithful control plane that answers, a front host (after its
   * optional leading '.') is rewritten exactly when some enabled campaign
   * serves it, and then to the origin host of that campaign's first proxy
   * host serving it.
   */
  lemma ToOriginalResolves(lookup: Lookup, phishlets: map<string, Phishlet>, hostname: string)
    requires ServedBy(lookup, phishlets)
    requires hostname != "" && lookup(SplitDot(hostname).1, true).Ok?
    ensures var h := SplitDot(hostname).1;
      ToOriginal(lookup, hostname).1 <==> Resolves(phishlets, h, true)
    ensures var (prefix, h) := SplitDot(hostname);
      ToOriginal(lookup, hostname).1 ==>
        exists n, i :: n in phishlets && FirstMatchAt(phishlets[n], h, true, i)
          && ToOriginal(lookup, hostname).0 == prefix + OrigHost(phishlets[n].proxyHosts[i])
  {
    var (prefix, h) := SplitDot(hostname);
    var reply := lookup(h, true).value;
    assert IsAnswer(phishlets, h, true, reply);
    if reply.Found? {
      var n, i :| n in phishlets && FirstMatchAt(phishlets[n], h, true, i)
        && reply.phishlet == ConvertPhishletToProto(phishlets[n])
        && reply.phishDomain == phishlets[n].hostname;
      var hosts := phishlets[n].proxyHosts;
      var k := FirstFront(hosts, reply.phishDomain, h, 0);
      assert FrontMatches(hosts[i], reply.phishDomain, h);
      assert k == i by {
        if k < i {
          assert MatchesAt(phishlets[n], h, true, k);
        }
      }
    }
  }

  /** Proxy host `i` of campaign `n` exists and the campaign is enabled. */
  predicate Live(phishlets: map<string, Phishlet>, n: string, i: int)
  {
    n in phishlets && phishlets[n].isEnabled && 0 <= i < |phishlets[n].proxyHosts|
  }

  /**
   * The campaign table's hosts can be mapped back: origin hosts are non-empty
   * and have no leading '.', an origin host determines its front host, and no
   * earlier proxy host of a campaign has an origin host as its bare domain.
   */
  ghost predicate Reversible(phishlets: map<string, Phishlet>)
  {
    && (forall n, i :: Live(phishlets, n, i) ==>
          OrigHost(phishlets[n].proxyHosts[i]) != "" && OrigHost(phishlets[n].proxyHosts[i])[0] != '.')
    && (forall n, i, m, j :: Live(phishlets, n, i) && Live(phishlets, m, j)
          && OrigHost(phishlets[n].proxyHosts[i]) == OrigHost(phishlets[m].proxyHosts[j])
          ==> PhishHost(phishlets[n], phishlets[n].proxyHosts[i]) == PhishHost(phishlets[m], phishlets[m].proxyHosts[j]))
    && (forall n, i, j :: Live(phishlets, n, i) && 0 <= j < i
          ==> phishlets[n].proxyHosts[j].domain != OrigHost(phishlets[n].proxyHosts[i]))
  }

  /**
   * Over a reversible table, the control plane answers an origin host with a
   * campaign and a proxy host at which the reverse rewrite stops.
   */
  lemma ReverseAnswer(lookup: Lookup, phishlets: map<string, Phishlet>, n: string, i: int) returns (m: string, k: int)
    requires ServedBy(lookup, phishlets) && Reversible(phishlets)
    requires Live(phishlets, n, i) && lookup(OrigHost(phishlets[n].proxyHosts[i]), false).Ok?
    ensures Live(phishlets, m, k)
    ensures OrigHost(phishlets[m].proxyHosts[k]) == OrigHost(phishlets[n].proxyHosts[i])
    ensures lookup(OrigHost(phishlets[n].proxyHosts[i]), false).value
      == Found(ConvertPhishletToProto(phishlets[m]), phishlets[m].hostname, phishlets[m].proxyHosts[k].phishSubdomain)
    ensures FirstBack(phishlets[m].proxyHosts, OrigHost(phishlets[n].proxyHosts[i]), 0) == k
  {
    var o := OrigHost(phishlets[n].proxyHosts[i]);
    var reply := lookup(o, false).value;
    assert IsAnswer(phishlets, o, false, reply);
    assert reply.Found? by {
      assert MatchesAt(phishlets[n], o, false, i);
    }
    m, k :| m in phishlets && FirstMatchAt(phishlets[m], o, false, k)
      && reply.phishlet == ConvertPhishletToProto(phishlets[m])
      && reply.phishDomain == phishlets[m].hostname
      && reply.phishSubdomain == phishlets[m].proxyHosts[k].phishSubdomain;
    assert Live(phishlets, m, k);
    var hosts := phishlets[m].proxyHosts;
    forall l | 0 <= l < k ensures !BackMatches(hosts[l], o) {
      assert !MatchesAt(phishlets[m], o, false, l);
    }
    FirstBackAt(hosts, o, k);
  }

  /** Over a reversible table, an origin host maps back to the one front host it has. */
  lemma ToPhishedOfOrigin(lookup: Lookup, phishlets: map<string, Phishlet>, n: string, i: int, prefix: string)
    requires ServedBy(lookup, phishlets) && Reversible(phishlets)
    requires Live(phishlets, n, i) && (prefix == "" || prefix == ".")
    requires lookup(OrigHost(phishlets[n].proxyHosts[i]), false).Ok?
    ensures ToPhished(lookup, prefix + OrigHost(phishlets[n].proxyHosts[i]))
      == (prefix + PhishHost(phishlets[n], phishlets[n].proxyHosts[i]), true)
  {
    var o := OrigHost(phishlets[n].proxyHosts[i]);
    assert o != "" && o[0] != '.';
    assert SplitDot(prefix + o) == (prefix, o) by {
      if prefix == "." {
        assert (prefix + o)[1..] == o;
      } else {
        assert prefix + o == o;
      }
    }
    var m, k := ReverseAnswer(lookup, phishlets, n, i);
    assert PhishHost(phishlets[m], phishlets[m].proxyHosts[k]) == PhishHost(phishlets[n], phishlets[n].proxyHosts[i]);
  }

  /** The reverse rewrite stops at the first proxy host it matches. */
  lemma FirstBackAt(hosts: seq<ProxyHost>, hostname: string, k: int)
    requires 0 <= k < |hosts| && BackMatches(hosts[k], hostname)
    requires forall l :: 0 <= l < k ==> !BackMatches(hosts[l], hostname)
    ensures FirstBack(hosts, hostname, 0) == k
  {
  }

  /** Rewriting a front host to its origin and back gives the front host again. */
  lemma RoundTrip(lookup: Lookup, phishlets: map<string, Phishlet>, hostname: string)
    requires ServedBy(lookup, phishlets) && Reversible(phishlets)
    requires hostname != "" && lookup(SplitDot(hostname).1, true).Ok?
    requires ToOriginal(lookup, hostname).1
    requires ToOriginal(lookup, hostname).0 != "" && lookup(SplitDot(ToOriginal(lookup, hostname).0).1, false).Ok?
    ensures ToPhished(lookup, ToOriginal(lookup, hostname).0) == (hostname, true)
  {
    var (prefix, h) := SplitDot(hostname);
    ToOriginalResolves(lookup, phishlets, hostname);
    var n, i :| n in phishlets && MatchesAt(phishlets[n], h, true, i)
      && ToOriginal(lookup, hostname).0 == prefix + OrigHost(phishlets[n].proxyHosts[i]);
    assert Live(phishlets, n, i);
    var o := OrigHost(phishlets[n].proxyHosts[i]);
    ToPhishedOfOrigin(lookup, phishlets, n, i, prefix);
  }

  /**
   * A campaign on which the round trip fails: its second proxy host's origin
   * host `acme.com` is the first one's bare domain.
   */
  const AcmeHosts: seq<ProxyHost> :=
    [ProxyHost("www", "www", "acme.com", true, true, false), ProxyHost("login", "", "acme.com", true, false, false)]
  const Acme: Phishlet := Phishlet("acme", "", "", "", false, true, "p.test", AcmeHosts, 0, 0)

  /** On `Acme`, the front host `login.p.test` stands for the origin host `acme.com`. */
  lemma AcmeToOriginal(lookup: Lookup)
    requires ServedBy(lookup, map["acme" := Acme]) && lookup("login.p.test", true).Ok?
    ensures ToOriginal(lookup, "login.p.test") == ("acme.com", true)
  {
    var phishlets := map["acme" := Acme];
    assert CombineHost("www", "p.test") == "www.p.test" != "login.p.test";
    assert CombineHost("login", "p.test") == "login.p.test";
    assert SplitDot("login.p.test") == ("", "login.p.test");
    var front := lookup("login.p.test", true).value;
    assert IsAnswer(phishlets, "login.p.test", true, front);
    assert phishlets["acme"] == Acme && MatchesAt(Acme, "login.p.test", true, 1);
    assert Resolves(phishlets, "login.p.test", true);
    var n, i :| n in phishlets && FirstMatchAt(phishlets[n], "login.p.test", true, i)
      && front.phishlet == ConvertPhishletToProto(phishlets[n]) && front.phishDomain == phishlets[n].hostname;
    assert front.phishlet.proxyHosts == AcmeHosts && front.phishDomain == "p.test";
    assert FirstFront(AcmeHosts, "p.test", "login.p.test", 0) == 1;
  }

  /**
   * ... but `acme.com` maps back to the campaign's hostname, because the first
   * proxy host's bare domain is reached first.
   */
  lemma AcmeToPhished(lookup: Lookup)
    requires ServedBy(lookup, map["acme" := Acme]) && lookup("acme.com", false).Ok?
    ensures ToPhished(lookup, "acme.com") == ("p.test", true)
  {
    var phishlets := map["acme" := Acme];
    assert CombineHost("www", "acme.com") == "www.acme.com" != "acme.com";
    assert SplitDot("acme.com") == ("", "acme.com");
    var back := lookup("acme.com", false).value;
    assert IsAnswer(phishlets, "acme.com", false, back);
    assert phishlets["acme"] == Acme && MatchesAt(Acme, "acme.com", false, 1);
    assert Resolves(phishlets, "acme.com", false);
    var m, k :| m in phishlets && FirstMatchAt(phishlets[m], "acme.com", false, k)
      && back.phishlet == ConvertPhishletToProto(phishlets[m]) && back.phishDomain == phishlets[m].hostname;
    assert back.phishlet.proxyHosts == AcmeHosts && back.phishDomain == "p.test";
    assert FirstBack(AcmeHosts, "acme.com", 0) == 0;
  }

  /** So without the third condition of `Reversible` the round trip can fail. */
  lemma BareDomainBreaksRoundTrip(lookup: Lookup)
    requires ServedBy(lookup, map["acme" := Acme])
    requires lookup("login.p.test", true).Ok? && lookup("acme.com", false).Ok?
    ensures ToPhished(lookup, ToOriginal(lookup, "login.p.test").0) != ("login.p.test", true)
  {
    AcmeToOriginal(lookup);
    AcmeToPhished(lookup);
    assert "p.test" != "login.p.test";
  }

  /** The responses `handleRequest` can short-circuit with. */
  datatype Response = Response(status: int, body: string)

  const Forbidden := Response(403, "Access denied")
  const NotFoundPage := Response(404, "404 Not Found")

  /** The parts of an `http.Request` the handler rewrites. */
  class Request {
    var host: string
    var urlHost: string

    constructor (host: string, urlHost: string)
      ensures this.host == host && this.urlHost == urlHost
    {
      this.host := host;
      this.urlHost := urlHost;
    }
  }

  /**
   * Admit or block a request: the traffic filter's verdict first (403), then
   * the evasion engine's (404 with its decoy), then the control plane's
   * front-host check (404); an admitted request has its host rewritten to the
   * origin host. A verdict that failed lets the request through.
   */
  method HandleRequest(req: Request, filter: Result<bool>, evasion: Result<bool>, decoy: string,
                       validate: Validator, lookup: Lookup) returns (resp: Option<Response>)
    modifies req
    ensures filter == Ok(true) ==> resp == Some(Forbidden)
    ensures filter != Ok(true) && evasion == Ok(true) ==> resp == Some(Response(404, decoy))
    ensures filter != Ok(true) && evasion != Ok(true) ==>
      var h := HostWithoutPort(old(req.host));
      if validate(h) != Ok(true) then resp == Some(NotFoundPage)
      else resp == None
    ensures resp.Some? ==> req.host == old(req.host) && req.urlHost == old(req.urlHost)
    ensures resp.None? ==>
      var (o, replaced) := ToOriginal(lookup, HostWithoutPort(old(req.host)));
      if replaced then req.host == o && req.urlHost == o
      else req.host == old(req.host) && req.urlHost == old(req.urlHost)
  {
    if filter.Ok? && filter.value {
      return Some(Forbidden);
    }
    if evasion.Ok? && evasion.value {
      return Some(Response(404, decoy));
    }
    var hostname := req.host;
    if Strings.Contains(hostname, ":") {
      assert ':' in hostname by {
        var i :| 0 <= i <= |hostname| - 1 && Strings.OccursAt(hostname, ":", i);
        assert hostname[i] == ':';
      }
      hostname := Strings.Split(hostname, ':')[0];
    } else {
      if ':' in hostname {
        var i :| 0 <= i < |hostname| && hostname[i] == ':';
        assert Strings.OccursAt(hostname, ":", i);
      }
    }
    var shouldHandle := validate(hostname);
    if shouldHandle.Err? {
      return Some(NotFoundPage);
    }
    if !shouldHandle.value {
      return Some(NotFoundPage);
    }
    var originalHost, replaced := ReplaceHostWithOriginal(lookup, hostname);
    if replaced {
      req.host := originalHost;
      req.urlHost := originalHost;
    }
    return None;
  }

  /**
   * Over a faithful control plane, a request reaches the origin only when its
   * host (without the port) is the front host of an enabled campaign, and it
   * then goes to the origin host of a proxy host serving it.
   */
  lemma AdmittedRequestsAreRewritten(validate: Validator, lookup: Lookup, phishlets: map<string, Phishlet>, host: string)
    requires ValidatedBy(validate, phishlets) && ServedBy(lookup, phishlets)
    requires validate(HostWithoutPort(host)) == Ok(true)
    requires HostWithoutPort(host) != "" && HostWithoutPort(host)[0] != '.'
    requires lookup(HostWithoutPort(host), true).Ok?
    ensures Resolves(phishlets, HostWithoutPort(host), true)
    ensures ToOriginal(lookup, HostWithoutPort(host)).1
    ensures exists n, i :: (n in phishlets && MatchesAt(phishlets[n], HostWithoutPort(host), true, i)
                            && ToOriginal(lookup, HostWithoutPort(host)).0 == OrigHost(phishlets[n].proxyHosts[i]))
  {
    var h := HostWithoutPort(host);
    assert validate(h).Ok?;
    assert SplitDot(h) == ("", h);
    ToOriginalResolves(lookup, phishlets, h);
  }
}
