/**
 * The session-expiry sweeper (internal/cleanup/session_cleanup.go): a table
 * of live sessions with their creation and last-seen times, and a sweep that
 * removes those idle for longer than the timeout. The ticker goroutine that
 * runs the sweep is not modelled; the clock is the `now` parameter.
 */
module Cleanup {
  import opened Models

  datatype SessionInfo = SessionInfo(id: string, createdAt: Time, lastSeen: Time, active: bool)

  /** What `GetSessionStats` reports; the timeout is given as a duration, not as its text. */
  datatype SessionStats = SessionStats(totalSessions: nat, activeSessions: nat, oldestSession: Time, cleanupTimeout: int)

  /** A session idle for strictly longer than the timeout. */
  predicate Expired(info: SessionInfo, now: Time, timeout: int)
  {
    now - info.lastSeen > timeout
  }

  /** The ids of the sessions in `m` that are active. */
  function ActiveIds(m: map<string, SessionInfo>): set<string>
  {
    set id | id in m && m[id].active
  }

  class SessionCleanup {
    var sessions: map<string, SessionInfo>
    const sessionTimeout: int

    /** Every entry is filed under its own id and was added as active. */
    ghost predicate Valid()
      reads this
    {
      forall id :: id in sessions ==> sessions[id].id == id && sessions[id].active
    }

    /** `NewSessionCleanup`. */
    constructor(timeout: int)
      ensures sessions == map[] && sessionTimeout == timeout && Valid()
    {
      sessions := map[];
      sessionTimeout := timeout;
    }

    /** `AddSession`: a fresh entry, created and last seen now, replacing any earlier one. */
    method AddSession(id: string, now: Time)
      requires Valid()
      modifies this
      ensures Valid()
      ensures sessions == old(sessions)[id := SessionInfo(id, now, now, true)]
    {
      sessions := sessions[id := SessionInfo(id, now, now, true)];
    }

    /** `UpdateSession`: only the last-seen time of an existing entry changes. */
    method UpdateSession(id: string, now: Time)
      requires Valid()
      modifies this
      ensures Valid()
      ensures id in old(sessions) ==> sessions == old(sessions)[id := old(sessions)[id].(lastSeen := now)]
      ensures id !in old(sessions) ==> sessions == old(sessions)
    {
      if id in sessions {
        sessions := sessions[id := sessions[id].(lastSeen := now)];
      }
    }

    /** `RemoveSession`. */
    method RemoveSession(id: string)
      requires Valid()
      modifies this
      ensures Valid()
      ensures sessions == old(sessions) - {id}
    {
      sessions := sessions - {id};
    }

    /**
     * `cleanupExpiredSessions`: collect the expired ids, then delete them.
     * Exactly the expired entries go; the others stay unchanged.
     */
    method CleanupExpiredSessions(now: Time)
      requires Valid()
      modifies this
      ensures Valid()
      ensures forall id :: id in sessions <==> id in old(sessions) && !Expired(old(sessions)[id], now, sessionTimeout)
      ensures forall id :: id in sessions ==> sessions[id] == old(sessions)[id]
    {
      var expired: seq<string> := [];
      var todo := sessions.Keys;
      while todo != {}
        invariant todo <= sessions.Keys
        invariant forall id :: id in expired <==> id in sessions && id !in todo && Expired(sessions[id], now, sessionTimeout)
        decreases todo
      {
        var id :| id in todo;
        if now - sessions[id].lastSeen > sessionTimeout {
          expired := expired + [id];
        }
        todo := todo - {id};
      }
      ghost var before := sessions;
      var i := 0;
      while i < |expired|
        invariant 0 <= i <= |expired|
        invariant forall id :: id in sessions <==> id in before && id !in expired[..i]
        invariant forall id :: id in sessions ==> sessions[id] == before[id]
      {
        sessions := sessions - {expired[i]};
        assert expired[..i + 1] == expired[..i] + [expired[i]];
        i := i + 1;
      }
      assert expired[..i] == expired;
    }

    /** `GetActiveSessionCount`: the number of entries. */
    function GetActiveSessionCount(): (r: nat)
      reads this
      ensures r == |sessions.Keys|
    {
      |sessions|
    }

    /**
     * `GetSessionStats`: the totals, and the earliest creation time, which
     * starts from `now` and so is `now` for an empty table.
     */
    method GetSessionStats(now: Time) returns (stats: SessionStats)
      ensures stats.totalSessions == |sessions|
      ensures stats.activeSessions == |ActiveIds(sessions)| <= stats.totalSessions
      ensures Valid() ==> stats.activeSessions == stats.totalSessions
      ensures stats.oldestSession <= now
      ensures forall id :: id in sessions ==> stats.oldestSession <= sessions[id].createdAt
      ensures stats.oldestSession == now || exists id :: id in sessions && stats.oldestSession == sessions[id].createdAt
      ensures stats.cleanupTimeout == sessionTimeout
    {
      var activeCount := 0;
      var oldestSession := now;
      var todo := sessions.Keys;
      while todo != {}
        invariant todo <= sessions.Keys
        invariant activeCount == |ActiveIds(sessions) - todo|
        invariant oldestSession <= now
        invariant forall id :: id in sessions && id !in todo ==> oldestSession <= sessions[id].createdAt
        invariant oldestSession == now || exists id :: id in sessions && oldestSession == sessions[id].createdAt
        decreases todo
      {
        var id :| id in todo;
        var session := sessions[id];
        ActiveStep(sessions, todo, id);
        if session.active {
          activeCount := activeCount + 1;
        }
        if session.createdAt < oldestSession {
          oldestSession := session.createdAt;
        }
        todo := todo - {id};
      }
      ActiveIdsBound(sessions);
      if Valid() {
        AllActive(sessions);
      }
      stats := SessionStats(|sessions|, activeCount, oldestSession, sessionTimeout);
    }
  }

  /** Counting one more id of the table counts it as active exactly when it is. */
  lemma ActiveStep(m: map<string, SessionInfo>, todo: set<string>, id: string)
    requires id in todo && id in m
    ensures |ActiveIds(m) - (todo - {id})| == |ActiveIds(m) - todo| + (if m[id].active then 1 else 0)
  {
    if m[id].active {
      assert ActiveIds(m) - (todo - {id}) == (ActiveIds(m) - todo) + {id};
    } else {
      assert ActiveIds(m) - (todo - {id}) == ActiveIds(m) - todo;
    }
  }

  /** When every session is active, every id is counted. */
  lemma AllActive(m: map<string, SessionInfo>)
    requires forall id :: id in m ==> m[id].active
    ensures |ActiveIds(m)| == |m|
  {
    assert ActiveIds(m) == m.Keys;
  }

  lemma ActiveIdsBound(m: map<string, SessionInfo>)
    ensures |ActiveIds(m)| <= |m|
  {
    assert ActiveIds(m) <= m.Keys;
    SubsetCard(ActiveIds(m), m.Keys);
  }

  lemma {:induction false} SubsetCard(a: set<string>, b: set<string>)
    requires a <= b
    ensures |a| <= |b|
    decreases |b|
  {
    if a != {} {
      var x :| x in a;
      SubsetCard(a - {x}, b - {x});
    }
  }

  /** A sweep just after a session was seen keeps it, for a non-negative timeout. */
  method SweepKeepsFreshSession(sc: SessionCleanup, id: string, now: Time)
    requires sc.Valid() && sc.sessionTimeout >= 0
    modifies sc
    ensures id in sc.sessions && sc.sessions[id].lastSeen == now
  {
    sc.AddSession(id, now);
    sc.CleanupExpiredSessions(now);
  }
}
