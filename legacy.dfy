/**
 * The bridge to the legacy session database (internal/bridge/legacy.go):
 * converters between legacy and current session records, the next free
 * session index, and the sync loops. The storage interface and the legacy
 * database are parameters: a listing is a `Result`, and a write is a
 * function giving the error it would report for each record, if any.
 */
module Legacy {
  import opened Wrappers
  import opened Models

  datatype LegacyCookieToken = LegacyCookieToken(name: string, value: string, path: string, httpOnly: bool)

  /** A session of the legacy database; times are Unix seconds. */
  datatype LegacySession = LegacySession(
    id: int,
    phishlet: string,
    landingURL: string,
    username: string,
    password: string,
    custom: map<string, string>,
    bodyTokens: map<string, string>,
    httpTokens: map<string, string>,
    cookieTokens: map<string, map<string, LegacyCookieToken>>,
    sessionId: string,
    userAgent: string,
    remoteAddr: string,
    createTime: int,
    updateTime: int)

  /** `time.Unix(sec, 0)`. */
  function FromUnix(sec: int): Time
  {
    sec * NanosPerSecond
  }

  /** `Time.Unix`: whole seconds, rounded down. */
  function ToUnix(t: Time): int
  {
    t / NanosPerSecond
  }

  /** Each token copied field by field: name, value, path and the HttpOnly flag. */
  function TokenFromLegacy(t: LegacyCookieToken): CookieToken
  {
    CookieToken(t.name, t.value, t.path, t.httpOnly)
  }

  function TokenToLegacy(t: CookieToken): LegacyCookieToken
  {
    LegacyCookieToken(t.name, t.value, t.path, t.httpOnly)
  }

  /** The tokens of one domain, each converted. */
  function MapTokens<A, B>(tokens: map<string, A>, conv: A -> B): (r: map<string, B>)
    ensures r.Keys == tokens.Keys
    ensures forall n :: n in r ==> r[n] == conv(tokens[n])
  {
    map n | n in tokens :: conv(tokens[n])
  }

  /** Cookie tokens by domain and name, each converted; no domain or name is added or lost. */
  function MapNested<A, B>(tokens: map<string, map<string, A>>, conv: A -> B): (r: map<string, map<string, B>>)
    ensures r.Keys == tokens.Keys
    ensures forall d :: d in r ==> r[d].Keys == tokens[d].Keys
  {
    map d | d in tokens :: MapTokens(tokens[d], conv)
  }

  function CookiesFromLegacy(tokens: map<string, map<string, LegacyCookieToken>>): map<string, map<string, CookieToken>>
  {
    MapNested(tokens, TokenFromLegacy)
  }

  function CookiesToLegacy(tokens: map<string, map<string, CookieToken>>): map<string, map<string, LegacyCookieToken>>
  {
    MapNested(tokens, TokenToLegacy)
  }

  /**
   * The copy loops of both converters: a fresh map per domain, filled name
   * by name, in the order the maps are ranged over.
   */
  method CopyCookieTokens<A, B>(tokens: map<string, map<string, A>>, conv: A -> B)
    returns (r: map<string, map<string, B>>)
    ensures r == MapNested(tokens, conv)
  {
    r := map[];
    var domains := tokens.Keys;
    while domains != {}
      invariant domains <= tokens.Keys
      invariant r.Keys == tokens.Keys - domains
      invariant forall d :: d in r ==> r[d] == MapTokens(tokens[d], conv)
      decreases domains
    {
      var d :| d in domains;
      var inner: map<string, B> := map[];
      var names := tokens[d].Keys;
      while names != {}
        invariant names <= tokens[d].Keys
        invariant inner.Keys == tokens[d].Keys - names
        invariant forall n :: n in inner ==> inner[n] == conv(tokens[d][n])
        decreases names
      {
        var n :| n in names;
        inner := inner[n := conv(tokens[d][n])];
        names := names - {n};
      }
      r := r[d := inner];
      domains := domains - {d};
    }
  }

  /** `convertLegacySession`: always active, no redirect URL, times in whole seconds. */
  function ConvertLegacySession(l: LegacySession): (s: Session)
    ensures s.isActive && s.redirectURL == ""
    ensures s.id == l.sessionId && s.index == l.id
    ensures s.createTime % NanosPerSecond == 0 && s.updateTime % NanosPerSecond == 0
  {
    Session(l.sessionId, l.id, l.phishlet, l.landingURL, l.username, l.password,
            l.custom, l.bodyTokens, l.httpTokens, CookiesFromLegacy(l.cookieTokens),
            l.userAgent, l.remoteAddr, FromUnix(l.createTime), FromUnix(l.updateTime), true, "")
  }

  /** `convertToLegacySession`. */
  function ConvertToLegacySession(s: Session): (l: LegacySession)
    ensures l.sessionId == s.id && l.id == s.index
  {
    LegacySession(s.index, s.phishletName, s.landingURL, s.username, s.password,
                  s.custom, s.bodyTokens, s.httpTokens, CookiesToLegacy(s.cookieTokens),
                  s.id, s.userAgent, s.remoteAddr, ToUnix(s.createTime), ToUnix(s.updateTime))
  }

  lemma CookiesRoundTripLegacy(tokens: map<string, map<string, LegacyCookieToken>>)
    ensures CookiesToLegacy(CookiesFromLegacy(tokens)) == tokens
  {
    var back := CookiesToLegacy(CookiesFromLegacy(tokens));
    forall d | d in tokens
      ensures back[d] == tokens[d]
    {
      assert back[d].Keys == tokens[d].Keys;
    }
  }

  lemma CookiesRoundTrip(tokens: map<string, map<string, CookieToken>>)
    ensures CookiesFromLegacy(CookiesToLegacy(tokens)) == tokens
  {
    var back := CookiesFromLegacy(CookiesToLegacy(tokens));
    forall d | d in tokens
      ensures back[d] == tokens[d]
    {
      assert back[d].Keys == tokens[d].Keys;
    }
  }

  /** Legacy to current and back gives the legacy record unchanged. */
  lemma LegacyRoundTrip(l: LegacySession)
    ensures ConvertToLegacySession(ConvertLegacySession(l)) == l
  {
    CookiesRoundTripLegacy(l.cookieTokens);
  }

  /**
   * Current to legacy and back keeps every field except that the session
   * becomes active, loses its redirect URL, and its times lose the part
   * below a second.
   */
  lemma CurrentRoundTrip(s: Session)
    ensures ConvertLegacySession(ConvertToLegacySession(s)) ==
      s.(isActive := true, redirectURL := "",
         createTime := s.createTime - s.createTime % NanosPerSecond,
         updateTime := s.updateTime - s.updateTime % NanosPerSecond)
  {
    CookiesRoundTrip(s.cookieTokens);
  }

  /** The largest index of the sessions, and 0 for none or only non-positive ones. */
  function MaxIndex(sessions: seq<Session>): (r: int)
    ensures r >= 0
    ensures forall i :: 0 <= i < |sessions| ==> sessions[i].index <= r
    ensures r == 0 || exists i :: 0 <= i < |sessions| && sessions[i].index == r
  {
    if |sessions| == 0 then 0
    else
      var m := MaxIndex(sessions[..|sessions| - 1]);
      assert forall i :: 0 <= i < |sessions| - 1 ==> sessions[..|sessions| - 1][i] == sessions[i];
      var last := sessions[|sessions| - 1].index;
      if last > m then last else m
  }

  /** `GetNextSessionIndex`: one past the largest index; 1, with the error, when listing fails. */
  method GetNextSessionIndex(listed: Result<seq<Session>>) returns (index: int, err: Option<string>)
    ensures listed.Err? ==> index == 1 && err == Some(listed.error)
    ensures listed.Ok? ==> err.None? && index == MaxIndex(listed.value) + 1
  {
    if listed.Err? {
      return 1, Some(listed.error);
    }
    var sessions := listed.value;
    var maxIndex := 0;
    var k := 0;
    while k < |sessions|
      invariant 0 <= k <= |sessions|
      invariant maxIndex == MaxIndex(sessions[..k])
    {
      assert sessions[..k + 1][..k] == sessions[..k];
      if sessions[k].index > maxIndex {
        maxIndex := sessions[k].index;
      }
      k := k + 1;
    }
    assert sessions[..k] == sessions;
    return maxIndex + 1, None;
  }

  /** The next index is positive and above every existing one. */
  lemma NextIndexIsFresh(sessions: seq<Session>)
    ensures MaxIndex(sessions) + 1 >= 1
    ensures forall i :: 0 <= i < |sessions| ==> sessions[i].index != MaxIndex(sessions) + 1
  {
  }

  /** The session `CreateSessionFromLegacy` builds. */
  function NewLegacySession(sessionId: string, phishlet: string, landingUrl: string,
                            userAgent: string, remoteAddr: string, index: int, now: Time): Session
  {
    Session(sessionId, index, phishlet, landingUrl, "", "", map[], map[], map[], map[],
            userAgent, remoteAddr, now, now, true, "")
  }

  /**
   * `CreateSessionFromLegacy`: a fresh, active session with empty maps and
   * the next index, or the error of listing or of storing.
   */
  method CreateSessionFromLegacy(sessionId: string, phishlet: string, landingUrl: string,
                                 userAgent: string, remoteAddr: string, now: Time,
                                 listed: Result<seq<Session>>, create: Session -> Option<string>)
    returns (r: Result<Session>)
    ensures listed.Err? ==> r == Err(listed.error)
    ensures listed.Ok? ==>
      (var s := NewLegacySession(sessionId, phishlet, landingUrl, userAgent, remoteAddr, MaxIndex(listed.value) + 1, now);
       r == if create(s).Some? then Err(create(s).value) else Ok(s))
    ensures r.Ok? ==> (r.value.isActive && r.value.custom == map[] && r.value.cookieTokens == map[]
      && forall i :: 0 <= i < |listed.value| ==> listed.value[i].index < r.value.index)
  {
    var index, err := GetNextSessionIndex(listed);
    if err.Some? {
      return Err(err.value);
    }
    var session := NewLegacySession(sessionId, phishlet, landingUrl, userAgent, remoteAddr, index, now);
    var stored := create(session);
    if stored.Some? {
      return Err(stored.value);
    }
    return Ok(session);
  }

  /** The converted sessions whose write succeeds, in order. */
  function Synced(items: seq<LegacySession>, create: Session -> Option<string>): seq<Session>
  {
    if |items| == 0 then []
    else
      var init := Synced(items[..|items| - 1], create);
      var s := ConvertLegacySession(items[|items| - 1]);
      if create(s).None? then init + [s] else init
  }

  /** The ids of the converted sessions whose write fails, in order. */
  function Failed(items: seq<LegacySession>, create: Session -> Option<string>): seq<string>
  {
    if |items| == 0 then []
    else
      var init := Failed(items[..|items| - 1], create);
      var s := ConvertLegacySession(items[|items| - 1]);
      if create(s).Some? then init + [s.id] else init
  }

  /**
   * `SyncSessionsFromLegacy`: every legacy session is converted and written;
   * a failed write is reported as a warning and the loop goes on.
   */
  method SyncSessionsFromLegacy(listed: Result<seq<LegacySession>>, create: Session -> Option<string>)
    returns (err: Option<string>, synced: seq<Session>, warnings: seq<string>)
    ensures listed.Err? ==> err == Some("failed to list legacy sessions: " + listed.error) && synced == [] && warnings == []
    ensures listed.Ok? ==> err.None? && synced == Synced(listed.value, create) && warnings == Failed(listed.value, create)
  {
    synced, warnings := [], [];
    if listed.Err? {
      return Some("failed to list legacy sessions: " + listed.error), synced, warnings;
    }
    var items := listed.value;
    var k := 0;
    while k < |items|
      invariant 0 <= k <= |items|
      invariant synced == Synced(items[..k], create) && warnings == Failed(items[..k], create)
    {
      assert items[..k + 1][..k] == items[..k];
      var session := ConvertLegacySession(items[k]);
      if create(session).Some? {
        warnings := warnings + [session.id];
      } else {
        synced := synced + [session];
      }
      k := k + 1;
    }
    assert items[..k] == items;
    err := None;
  }

  /** Every legacy session is accounted for: written, or reported. */
  lemma {:induction false} SyncAccountsForAll(items: seq<LegacySession>, create: Session -> Option<string>)
    ensures |Synced(items, create)| + |Failed(items, create)| == |items|
    ensures (forall i :: 0 <= i < |items| ==> create(ConvertLegacySession(items[i])).None?) ==>
      Synced(items, create) == seq(|items|, i requires 0 <= i < |items| => ConvertLegacySession(items[i]))
  {
    if |items| > 0 {
      var init := items[..|items| - 1];
      SyncAccountsForAll(init, create);
      assert forall i :: 0 <= i < |init| ==> init[i] == items[i];
    }
  }

  /** The fields of a session the legacy database's `CreateSession` takes. */
  datatype LegacyCreate = LegacyCreate(sessionId: string, phishlet: string, landingURL: string,
                                       userAgent: string, remoteAddr: string)

  function LegacyCreateOf(s: Session): (c: LegacyCreate)
    ensures c.sessionId == s.id && c.phishlet == s.phishletName
  {
    var l := ConvertToLegacySession(s);
    LegacyCreate(l.sessionId, l.phishlet, l.landingURL, l.userAgent, l.remoteAddr)
  }

  /** How many of the writes fail. */
  function Failures(cs: seq<LegacyCreate>, create: LegacyCreate -> Option<string>): (r: nat)
    ensures r <= |cs|
  {
    if |cs| == 0 then 0
    else Failures(cs[..|cs| - 1], create) + (if create(cs[|cs| - 1]).Some? then 1 else 0)
  }

  /** One more write counts one more failure exactly when it fails. */
  lemma FailuresSnoc(cs: seq<LegacyCreate>, c: LegacyCreate, create: LegacyCreate -> Option<string>)
    ensures Failures(cs + [c], create) == Failures(cs, create) + (if create(c).Some? then 1 else 0)
  {
    assert (cs + [c])[..|cs|] == cs;
  }

  /** No failures exactly when every write succeeds. */
  lemma {:induction false} NoFailures(cs: seq<LegacyCreate>, create: LegacyCreate -> Option<string>)
    ensures Failures(cs, create) == 0 <==> forall i :: 0 <= i < |cs| ==> create(cs[i]).None?
  {
    if |cs| > 0 {
      var init := cs[..|cs| - 1];
      NoFailures(init, create);
      assert forall i :: 0 <= i < |init| ==> init[i] == cs[i];
    }
  }

  /**
   * `SyncSessionsToLegacy`: each listed session is passed to the legacy
   * database; a failure is reported as a warning and the loop goes on.
   */
  method SyncSessionsToLegacy(listed: Result<seq<Session>>, create: LegacyCreate -> Option<string>)
    returns (err: Option<string>, attempted: seq<LegacyCreate>, warnings: nat)
    ensures listed.Err? ==> err == Some("failed to list sessions: " + listed.error) && attempted == [] && warnings == 0
    ensures listed.Ok? ==> (err.None? && |attempted| == |listed.value|
      && (forall i :: 0 <= i < |attempted| ==> attempted[i] == LegacyCreateOf(listed.value[i]))
      && warnings == Failures(attempted, create))
  {
    attempted, warnings := [], 0;
    if listed.Err? {
      return Some("failed to list sessions: " + listed.error), attempted, warnings;
    }
    var sessions := listed.value;
    var k := 0;
    while k < |sessions|
      invariant 0 <= k <= |sessions| && |attempted| == k
      invariant forall i :: 0 <= i < k ==> attempted[i] == LegacyCreateOf(sessions[i])
      invariant warnings == Failures(attempted, create)
    {
      var c := LegacyCreateOf(sessions[k]);
      FailuresSnoc(attempted, c, create);
      attempted := attempted + [c];
      if create(c).Some? {
        warnings := warnings + 1;
      }
      k := k + 1;
    }
    err := None;
  }
}
