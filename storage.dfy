/**
 * The key-value store (internal/storage/buntdb.go). The database is a map
 * from key to the record stored there; a record written by the store is read
 * back as the same record, and anything else under a key reads as
 * undecodable. The order in which an index visits its entries is chosen by
 * the database and is a parameter (`order`, the keys in index order). The
 * clock is the `now` parameter.
 */
module Storage {
  import opened Wrappers
  import opened Models
  import opened Strings
  import Maps

  const SessionTable: string := "sessions"
  const PhishletTable: string := "phishlets"
  const ConfigTable: string := "config"
  const VersionTable: string := "phishlet_version"
  const FlowTable: string := "flow_session"

  /** The error the database gives for a missing key. */
  const NotFound: string := "not found"
  /** The error of decoding a value that is not the expected record (its wording is not modelled). */
  const Undecodable: string := "cannot decode value"

  /** The general section of the stored configuration; the other sections are not modelled. */
  datatype GeneralConfig = GeneralConfig(
    domain: string,
    externalIPv4: string,
    bindIPv4: string,
    unauthURL: string,
    httpsPort: int,
    dnsPort: int,
    autocert: bool)

  datatype StoredConfig = StoredConfig(general: GeneralConfig, updateTime: Time)

  /** What a key holds. */
  datatype Record =
    | SessionRecord(session: Session)
    | PhishletRecord(phishlet: Phishlet)
    | ConfigRecord(config: StoredConfig)
    | VersionRecord(phishletVersion: PhishletVersion)
    | FlowRecord(flow: FlowSession)
    | Garbage(text: string)

  /** The filters of `ListSessions`: empty strings and absent times are ignored. */
  datatype SessionFilters = SessionFilters(
    phishletName: string,
    username: string,
    startTime: Option<Time>,
    endTime: Option<Time>,
    limit: int,
    offset: int)

  /** The filters of `ListPhishlets`: an absent `enabled` is ignored. */
  datatype PhishletFilters = PhishletFilters(name: string, enabled: Option<bool>, limit: int, offset: int)

  /** `genKey`. */
  function GenKey(table: string, id: string): (r: string)
    ensures |r| == |table| + 1 + |id|
    ensures r[..|table|] == table && r[|table|] == ':' && r[|table| + 1..] == id
  {
    table + ":" + id
  }

  /** Within one table, the key determines the id. */
  lemma GenKeyInjective(table: string, id1: string, id2: string)
    requires GenKey(table, id1) == GenKey(table, id2)
    ensures id1 == id2
  {
    assert id1 == GenKey(table, id1)[|table| + 1..];
  }

  /** Keys of two different tables (names without ':') never collide. */
  lemma GenKeyTablesApart(t1: string, t2: string, id1: string, id2: string)
    requires ':' !in t1 && ':' !in t2 && t1 != t2
    ensures GenKey(t1, id1) != GenKey(t2, id2)
  {
    IndexOfJoined(t1, ':', id1);
    IndexOfJoined(t2, ':', id2);
    var k1, k2 := GenKey(t1, id1), GenKey(t2, id2);
    if |t1| == |t2| {
      assert k1[..|t1|] == t1 && k2[..|t2|] == t2;
    } else {
      assert IndexOf(k1, ':') != IndexOf(k2, ':');
    }
  }

  /** The key of one version of a campaign. */
  function VersionKey(name: string, version: string): string
  {
    GenKey(VersionTable, name + ":" + version)
  }

  /** A campaign name containing ':' makes two different (name, version) pairs share a key. */
  lemma VersionKeyNotInjective()
    ensures VersionKey("a:b", "c") == VersionKey("a", "b:c")
  {
  }

  /** The `CreateTime` a `Create*` operation stores: the given one unless it is Go's zero time. */
  function CreateTimeFor(given: Time, now: Time): Time
  {
    if given == ZeroTime then now else given
  }

  /** `matchesSessionFilters`. */
  predicate MatchesSessionFilters(s: Session, f: SessionFilters): (r: bool)
    ensures f.phishletName == "" && f.username == "" && f.startTime.None? && f.endTime.None? ==> r
    ensures r && f.startTime.Some? ==> f.startTime.value <= s.createTime
    ensures r && f.endTime.Some? ==> s.createTime <= f.endTime.value
  {
    (f.phishletName == "" || s.phishletName == f.phishletName)
    && (f.username == "" || s.username == f.username)
    && (f.startTime.None? || !(s.createTime < f.startTime.value))
    && (f.endTime.None? || !(s.createTime > f.endTime.value))
  }

  /** `matchesPhishletFilters`. */
  predicate MatchesPhishletFilters(p: Phishlet, f: PhishletFilters): (r: bool)
    ensures f.name == "" && f.enabled.None? ==> r
    ensures f.enabled == Some(true) && r ==> p.isEnabled
  {
    (f.name == "" || p.name == f.name) && (f.enabled.None? || p.isEnabled == f.enabled.value)
  }

  /** With only a time window set, a session matches exactly when created within it, ends included. */
  lemma TimeWindowInclusive(s: Session, f: SessionFilters)
    requires f.phishletName == "" && f.username == "" && f.startTime.Some? && f.endTime.Some?
    ensures MatchesSessionFilters(s, f) <==> f.startTime.value <= s.createTime <= f.endTime.value
  {
  }

  /** The entries of `keys`, in order, that `pick` keeps. */
  function Selected<T>(keys: seq<string>, pick: string -> Option<T>): seq<T>
  {
    if |keys| == 0 then []
    else
      var init := Selected(keys[..|keys| - 1], pick);
      match pick(keys[|keys| - 1])
      case Some(x) => init + [x]
      case None => init
  }

  /** The first `limit` items, or all of them when `limit` is not positive. */
  function Truncate<T>(s: seq<T>, limit: int): (r: seq<T>)
    ensures limit > 0 ==> |r| <= limit
    ensures |r| <= |s| && r == s[..|r|]
    ensures |r| < |s| ==> |r| == limit
  {
    if limit > 0 && |s| > limit then s[..limit] else s
  }

  lemma {:induction false} SelectedAppend<T>(a: seq<string>, b: seq<string>, pick: string -> Option<T>)
    ensures Selected(a + b, pick) == Selected(a, pick) + Selected(b, pick)
    decreases |b|
  {
    if |b| > 0 {
      var b' := b[..|b| - 1];
      assert (a + b)[..|a + b| - 1] == a + b';
      SelectedAppend(a, b', pick);
    } else {
      assert a + b == a;
    }
  }

  /** Exactly the items `pick` gives for some key are selected. */
  lemma {:induction false} SelectedMembers<T>(keys: seq<string>, pick: string -> Option<T>, x: T)
    ensures x in Selected(keys, pick) <==> exists i :: 0 <= i < |keys| && pick(keys[i]) == Some(x)
  {
    if |keys| > 0 {
      var init := keys[..|keys| - 1];
      SelectedMembers(init, pick, x);
      assert forall i :: 0 <= i < |init| ==> init[i] == keys[i];
    }
  }

  /** The offset that `List*` skips: a non-positive or absent offset skips nothing. */
  function SkipCount(offset: Option<int>, n: nat): (r: nat)
    ensures r <= n
    ensures offset.None? || offset.value <= 0 ==> r == 0
    ensures offset.Some? && 0 < offset.value <= n ==> r == offset.value
  {
    match offset
    case None => 0
    case Some(o) => if o <= 0 then 0 else if o > n then n else o
  }

  /** The session stored under `key` when it passes the filters. */
  function SessionAt(db: map<string, Record>, key: string, filters: Option<SessionFilters>): Option<Session>
  {
    if key in db && db[key].SessionRecord? && (filters.None? || MatchesSessionFilters(db[key].session, filters.value))
    then Some(db[key].session)
    else None
  }

  /** The campaign stored under `key` when it passes the filters. */
  function PhishletAt(db: map<string, Record>, key: string, filters: Option<PhishletFilters>): Option<Phishlet>
  {
    if key in db && db[key].PhishletRecord? && (filters.None? || MatchesPhishletFilters(db[key].phishlet, filters.value))
    then Some(db[key].phishlet)
    else None
  }

  /** The version stored under `key` when the key has the campaign's prefix. */
  function VersionAt(db: map<string, Record>, key: string, prefix: string): Option<PhishletVersion>
  {
    if HasPrefix(key, prefix) && key in db && db[key].VersionRecord? then Some(db[key].phishletVersion) else None
  }

  function SessionPicker(db: map<string, Record>, filters: Option<SessionFilters>): string -> Option<Session>
  {
    k => SessionAt(db, k, filters)
  }

  function PhishletPicker(db: map<string, Record>, filters: Option<PhishletFilters>): string -> Option<Phishlet>
  {
    k => PhishletAt(db, k, filters)
  }

  function VersionPicker(db: map<string, Record>, prefix: string): string -> Option<PhishletVersion>
  {
    k => VersionAt(db, k, prefix)
  }

  /**
   * What one page of a listing holds: skip the first `offset` raw entries
   * (whatever they hold), keep the decodable ones that pass the filters, in
   * index order, and stop at `limit`.
   */
  function Page<T>(order: seq<string>, pick: string -> Option<T>, offset: Option<int>, limit: Option<int>): seq<T>
  {
    var start := SkipCount(offset, |order|);
    Truncate(Selected(order[start..], pick), if limit.Some? then limit.value else 0)
  }

  /** A page never exceeds a positive limit and only holds entries that pass. */
  lemma PageSound<T>(order: seq<string>, pick: string -> Option<T>, offset: Option<int>, limit: Option<int>, x: T)
    ensures limit.Some? && limit.value > 0 ==> |Page(order, pick, offset, limit)| <= limit.value
    ensures x in Page(order, pick, offset, limit) ==>
      exists i :: SkipCount(offset, |order|) <= i < |order| && pick(order[i]) == Some(x)
  {
    var start := SkipCount(offset, |order|);
    var rest := order[start..];
    if x in Page(order, pick, offset, limit) {
      SelectedMembers(rest, pick, x);
      var i :| 0 <= i < |rest| && pick(rest[i]) == Some(x);
      assert order[start + i] == rest[i];
    }
  }

  /** Stopping once the page is full gives the same page as selecting everything and truncating. */
  lemma StopWhenFull<T>(rest: seq<string>, k: nat, pick: string -> Option<T>, limit: int)
    requires k <= |rest| && limit > 0 && |Selected(rest[..k], pick)| >= limit
    requires |Selected(rest[..k], pick)| <= limit
    ensures Truncate(Selected(rest, pick), limit) == Selected(rest[..k], pick)
  {
    SelectedAppend(rest[..k], rest[k..], pick);
    assert rest[..k] + rest[k..] == rest;
  }

  /** The loop over `order` from `start`: the entry at `k` extends what the entries before it gave. */
  lemma PageStep<T>(order: seq<string>, start: nat, k: nat, pick: string -> Option<T>, acc: seq<T>, found: Option<T>)
    requires start <= k < |order|
    requires acc == Selected(order[start..][..k - start], pick)
    requires found == pick(order[k])
    ensures Selected(order[start..][..k + 1 - start], pick)
      == (match found case Some(x) => acc + [x] case None => acc)
  {
    SelectedStep(order[start..], k - start, pick);
    assert order[start..][k - start] == order[k];
  }

  /** One more key: what it contributes comes after what the keys before it gave. */
  lemma SelectedStep<T>(keys: seq<string>, k: nat, pick: string -> Option<T>)
    requires k < |keys|
    ensures Selected(keys[..k + 1], pick) ==
      Selected(keys[..k], pick) + (match pick(keys[k]) case Some(x) => [x] case None => [])
  {
    assert keys[..k + 1][..k] == keys[..k];
  }

  /**
   * A flow step: the step is set, the time stamped and the data merged into
   * `StepData`, new keys winning and the others kept; nothing else changes.
   */
  predicate FlowStepped(before: FlowSession, after: FlowSession, step: string, data: map<string, string>, now: Time)
  {
    after == before.(currentStep := step, updatedAt := now, stepData := after.stepData)
    && after.stepData.Keys == before.stepData.Keys + data.Keys
    && (forall k :: k in data ==> after.stepData[k] == data[k])
    && (forall k :: k in before.stepData && k !in data ==> after.stepData[k] == before.stepData[k])
  }

  class Store {
    var db: map<string, Record>

    constructor()
      ensures db == map[]
    {
      db := map[];
    }

    /** `CreateSession`: a zero `CreateTime` becomes `now`, `UpdateTime` becomes `now`, stored under the id. */
    method CreateSession(session: Session, now: Time) returns (saved: Session)
      modifies this
      ensures saved.createTime == CreateTimeFor(session.createTime, now) && saved.updateTime == now
      ensures saved == session.(createTime := saved.createTime, updateTime := now)
      ensures db == old(db)[GenKey(SessionTable, session.id) := SessionRecord(saved)]
    {
      saved := session.(createTime := CreateTimeFor(session.createTime, now), updateTime := now);
      db := db[GenKey(SessionTable, session.id) := SessionRecord(saved)];
    }

    /** `GetSession`. */
    function GetSession(id: string): (r: Result<Session>)
      reads this
      ensures r.Ok? <==> GenKey(SessionTable, id) in db && db[GenKey(SessionTable, id)].SessionRecord?
      ensures r.Ok? ==> db[GenKey(SessionTable, id)] == SessionRecord(r.value)
      ensures GenKey(SessionTable, id) !in db ==> r == Err("failed to get session: " + NotFound)
    {
      var key := GenKey(SessionTable, id);
      if key !in db then Err("failed to get session: " + NotFound)
      else match db[key]
        case SessionRecord(s) => Ok(s)
        case _ => Err("failed to get session: " + Undecodable)
    }

    /** `UpdateSession`: stamps `UpdateTime` and writes under the id, whether or not it existed. */
    method UpdateSession(session: Session, now: Time) returns (saved: Session)
      modifies this
      ensures saved == session.(updateTime := now)
      ensures db == old(db)[GenKey(SessionTable, session.id) := SessionRecord(saved)]
    {
      saved := session.(updateTime := now);
      db := db[GenKey(SessionTable, session.id) := SessionRecord(saved)];
    }

    /** `DeleteSession`: deleting a missing key is the database's "not found" error. */
    method DeleteSession(id: string) returns (err: Option<string>)
      modifies this
      ensures GenKey(SessionTable, id) in old(db) ==> err.None? && db == old(db) - {GenKey(SessionTable, id)}
      ensures GenKey(SessionTable, id) !in old(db) ==> err == Some(NotFound) && db == old(db)
    {
      var key := GenKey(SessionTable, id);
      if key !in db {
        return Some(NotFound);
      }
      db := db - {key};
      err := None;
    }

    /** `CreatePhishlet`: as for sessions, keyed by name. */
    method CreatePhishlet(phishlet: Phishlet, now: Time) returns (saved: Phishlet)
      modifies this
      ensures saved.createTime == CreateTimeFor(phishlet.createTime, now) && saved.updateTime == now
      ensures saved == phishlet.(createTime := saved.createTime, updateTime := now)
      ensures db == old(db)[GenKey(PhishletTable, phishlet.name) := PhishletRecord(saved)]
    {
      saved := phishlet.(createTime := CreateTimeFor(phishlet.createTime, now), updateTime := now);
      db := db[GenKey(PhishletTable, phishlet.name) := PhishletRecord(saved)];
    }

    /** `GetPhishlet`. */
    function GetPhishlet(name: string): (r: Result<Phishlet>)
      reads this
      ensures r.Ok? <==> GenKey(PhishletTable, name) in db && db[GenKey(PhishletTable, name)].PhishletRecord?
      ensures r.Ok? ==> db[GenKey(PhishletTable, name)] == PhishletRecord(r.value)
      ensures GenKey(PhishletTable, name) !in db ==> r == Err("failed to get phishlet: " + NotFound)
    {
      var key := GenKey(PhishletTable, name);
      if key !in db then Err("failed to get phishlet: " + NotFound)
      else match db[key]
        case PhishletRecord(p) => Ok(p)
        case _ => Err("failed to get phishlet: " + Undecodable)
    }

    /** `UpdatePhishlet`. */
    method UpdatePhishlet(phishlet: Phishlet, now: Time) returns (saved: Phishlet)
      modifies this
      ensures saved == phishlet.(updateTime := now)
      ensures db == old(db)[GenKey(PhishletTable, phishlet.name) := PhishletRecord(saved)]
    {
      saved := phishlet.(updateTime := now);
      db := db[GenKey(PhishletTable, phishlet.name) := PhishletRecord(saved)];
    }

    /** `DeletePhishlet`. */
    method DeletePhishlet(name: string) returns (err: Option<string>)
      modifies this
      ensures GenKey(PhishletTable, name) in old(db) ==> err.None? && db == old(db) - {GenKey(PhishletTable, name)}
      ensures GenKey(PhishletTable, name) !in old(db) ==> err == Some(NotFound) && db == old(db)
    {
      var key := GenKey(PhishletTable, name);
      if key !in db {
        return Some(NotFound);
      }
      db := db - {key};
      err := None;
    }

    /** `GetConfig`: without a stored configuration, ports 443 and 53 and the current time. */
    function GetConfig(now: Time): (r: Result<StoredConfig>)
      reads this
      ensures GenKey(ConfigTable, "main") !in db ==>
        r.Ok? && r.value.general.httpsPort == 443 && r.value.general.dnsPort == 53 && r.value.updateTime == now
      ensures GenKey(ConfigTable, "main") in db && db[GenKey(ConfigTable, "main")].ConfigRecord? ==>
        r == Ok(db[GenKey(ConfigTable, "main")].config)
    {
      var key := GenKey(ConfigTable, "main");
      if key !in db then Ok(StoredConfig(GeneralConfig("", "", "", "", 443, 53, false), now))
      else match db[key]
        case ConfigRecord(c) => Ok(c)
        case _ => Err("failed to get config: " + Undecodable)
    }

    /** `UpdateConfig`. */
    method UpdateConfig(config: StoredConfig, now: Time) returns (saved: StoredConfig)
      modifies this
      ensures saved == config.(updateTime := now)
      ensures db == old(db)[GenKey(ConfigTable, "main") := ConfigRecord(saved)]
    {
      saved := config.(updateTime := now);
      db := db[GenKey(ConfigTable, "main") := ConfigRecord(saved)];
    }

    /** `CreatePhishletVersion`. */
    method CreatePhishletVersion(name: string, version: PhishletVersion)
      modifies this
      ensures db == old(db)[VersionKey(name, version.version) := VersionRecord(version)]
    {
      db := db[VersionKey(name, version.version) := VersionRecord(version)];
    }

    /** `GetPhishletVersion`: the campaign record rebuilt from the stored version. */
    function GetPhishletVersion(name: string, version: string): (r: Result<Phishlet>)
      reads this
      ensures r.Ok? <==> VersionKey(name, version) in db && db[VersionKey(name, version)].VersionRecord?
      ensures r.Ok? ==> (r.value.name == name && r.value.version == version
        && r.value.author == db[VersionKey(name, version)].phishletVersion.author
        && r.value.createTime == r.value.updateTime == db[VersionKey(name, version)].phishletVersion.createdAt)
    {
      var key := VersionKey(name, version);
      if key !in db then Err("failed to get phishlet version: " + NotFound)
      else match db[key]
        case VersionRecord(v) => Ok(Phishlet(name, v.author, version, "", false, false, "", [], v.createdAt, v.createdAt))
        case _ => Err("failed to get phishlet version: " + Undecodable)
    }

    /** `CreateFlowSession`. */
    method CreateFlowSession(session: FlowSession)
      modifies this
      ensures db == old(db)[GenKey(FlowTable, session.id) := FlowRecord(session)]
    {
      db := db[GenKey(FlowTable, session.id) := FlowRecord(session)];
    }

    /** `GetFlowSession`. */
    function GetFlowSession(id: string): (r: Result<FlowSession>)
      reads this
      ensures r.Ok? <==> GenKey(FlowTable, id) in db && db[GenKey(FlowTable, id)].FlowRecord?
      ensures r.Ok? ==> db[GenKey(FlowTable, id)] == FlowRecord(r.value)
    {
      var key := GenKey(FlowTable, id);
      if key !in db then Err("failed to get flow session: " + NotFound)
      else match db[key]
        case FlowRecord(f) => Ok(f)
        case _ => Err("failed to get flow session: " + Undecodable)
    }

    /**
     * `UpdateFlowSession`: the step is set, the time stamped and the data
     * merged into `StepData` (new keys win, the others are kept); a missing
     * session is an error and nothing is written.
     */
    method UpdateFlowSession(id: string, step: string, data: map<string, string>, now: Time)
      returns (err: Option<string>)
      modifies this
      ensures old(GetFlowSession(id)).Err? ==> err == Some(old(GetFlowSession(id)).error) && db == old(db)
      ensures old(GetFlowSession(id)).Ok? ==>
        (var key := GenKey(FlowTable, old(GetFlowSession(id)).value.id);
         err.None? && key in db && db[key].FlowRecord? && db == old(db)[key := db[key]]
         && FlowStepped(old(GetFlowSession(id)).value, db[key].flow, step, data, now))
    {
      var got := GetFlowSession(id);
      if got.Err? {
        return Some(got.error);
      }
      var session := got.value;
      var merged := Maps.MergeInto(session.stepData, data);
      var updated := session.(currentStep := step, updatedAt := now, stepData := merged);
      assert FlowStepped(session, updated, step, data, now);
      CreateFlowSession(updated);
      err := None;
    }

    /** `DeleteFlowSession`. */
    method DeleteFlowSession(id: string) returns (err: Option<string>)
      modifies this
      ensures GenKey(FlowTable, id) in old(db) ==> err.None? && db == old(db) - {GenKey(FlowTable, id)}
      ensures GenKey(FlowTable, id) !in old(db) ==> err == Some(NotFound) && db == old(db)
    {
      var key := GenKey(FlowTable, id);
      if key !in db {
        return Some(NotFound);
      }
      db := db - {key};
      err := None;
    }

    /**
     * `ListSessions` over the keys of the id index in `order`: the first
     * `Offset` entries are skipped whatever they hold, then decodable
     * sessions that pass the filters are kept until `Limit` is reached.
     */
    method ListSessions(filters: Option<SessionFilters>, order: seq<string>) returns (sessions: seq<Session>)
      ensures sessions == Page(order, SessionPicker(db, filters),
                               if filters.Some? then Some(filters.value.offset) else None,
                               if filters.Some? then Some(filters.value.limit) else None)
    {
      ghost var pick := SessionPicker(db, filters);
      ghost var start := SkipCount(if filters.Some? then Some(filters.value.offset) else None, |order|);
      ghost var limit := if filters.Some? then filters.value.limit else 0;
      ghost var rest := order[start..];
      sessions := [];
      var count := 0;
      var k := 0;
      while k < |order|
        invariant 0 <= k <= |order| && count == k
        invariant k <= start ==> sessions == []
        invariant k >= start ==> sessions == Selected(rest[..k - start], pick)
        invariant limit > 0 ==> |sessions| <= limit
      {
        if filters.Some? && filters.value.offset > 0 && count < filters.value.offset {
          count := count + 1;
          k := k + 1;
          continue;
        }
        if filters.Some? && filters.value.limit > 0 && |sessions| >= filters.value.limit {
          StopWhenFull(rest, k - start, pick, limit);
          return;
        }
        // the entry decodes and passes the filters
        var found := SessionAt(db, order[k], filters);
        PageStep(order, start, k, pick, sessions, found);
        if found.Some? {
          sessions := sessions + [found.value];
        }
        count := count + 1;
        k := k + 1;
      }
      assert rest[..|order| - start] == rest;
    }

    /** `ListPhishlets` over the keys of the name index in `order`, paginated as `ListSessions`. */
    method ListPhishlets(filters: Option<PhishletFilters>, order: seq<string>) returns (phishlets: seq<Phishlet>)
      ensures phishlets == Page(order, PhishletPicker(db, filters),
                                if filters.Some? then Some(filters.value.offset) else None,
                                if filters.Some? then Some(filters.value.limit) else None)
    {
      ghost var pick := PhishletPicker(db, filters);
      ghost var start := SkipCount(if filters.Some? then Some(filters.value.offset) else None, |order|);
      ghost var limit := if filters.Some? then filters.value.limit else 0;
      ghost var rest := order[start..];
      phishlets := [];
      var count := 0;
      var k := 0;
      while k < |order|
        invariant 0 <= k <= |order| && count == k
        invariant k <= start ==> phishlets == []
        invariant k >= start ==> phishlets == Selected(rest[..k - start], pick)
        invariant limit > 0 ==> |phishlets| <= limit
      {
        if filters.Some? && filters.value.offset > 0 && count < filters.value.offset {
          count := count + 1;
          k := k + 1;
          continue;
        }
        if filters.Some? && filters.value.limit > 0 && |phishlets| >= filters.value.limit {
          StopWhenFull(rest, k - start, pick, limit);
          return;
        }
        // the entry decodes and passes the filters
        var found := PhishletAt(db, order[k], filters);
        PageStep(order, start, k, pick, phishlets, found);
        if found.Some? {
          phishlets := phishlets + [found.value];
        }
        count := count + 1;
        k := k + 1;
      }
      assert rest[..|order| - start] == rest;
    }

    /** `ListPhishletVersions` over all keys in key order: only keys under the campaign's prefix. */
    method ListPhishletVersions(name: string, order: seq<string>) returns (versions: seq<PhishletVersion>)
      ensures versions == Selected(order, VersionPicker(db, VersionTable + ":" + name + ":"))
    {
      var prefix := VersionTable + ":" + name + ":";
      ghost var pick := VersionPicker(db, prefix);
      versions := [];
      var k := 0;
      while k < |order|
        invariant 0 <= k <= |order|
        invariant versions == Selected(order[..k], pick)
      {
        SelectedStep(order, k, pick);
        var key := order[k];
        if HasPrefix(key, prefix) && key in db && db[key].VersionRecord? {
          versions := versions + [db[key].phishletVersion];
        }
        k := k + 1;
      }
      assert order[..k] == order;
    }
  }

  /** What `Create` writes, `Get` reads back, under the same key. */
  lemma GetAfterCreate(st: Store, s: Session)
    requires GenKey(SessionTable, s.id) in st.db && st.db[GenKey(SessionTable, s.id)] == SessionRecord(s)
    ensures st.GetSession(s.id) == Ok(s)
  {
  }

  /** A listed version comes from a key under the campaign's own prefix. */
  lemma ListedVersionsUnderPrefix(db: map<string, Record>, order: seq<string>, name: string, v: PhishletVersion)
    requires v in Selected(order, VersionPicker(db, VersionTable + ":" + name + ":"))
    ensures exists key :: (key in order && HasPrefix(key, VersionTable + ":" + name + ":")
      && key in db && db[key] == VersionRecord(v))
  {
    var pick := VersionPicker(db, VersionTable + ":" + name + ":");
    SelectedMembers(order, pick, v);
    var i :| 0 <= i < |order| && pick(order[i]) == Some(v);
    assert order[i] in order;
  }

  /** Create then Get, as one call sequence. */
  method CreateThenGet(st: Store, s: Session, now: Time) returns (r: Result<Session>)
    modifies st
    ensures r.Ok? && r.value.id == s.id && r.value.updateTime == now
  {
    var saved := st.CreateSession(s, now);
    GetAfterCreate(st, saved);
    r := st.GetSession(s.id);
  }
}
