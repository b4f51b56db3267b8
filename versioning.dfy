/**
 * Phishlet version publishing and flow-step tracking
 * (internal/phishlet/versioning.go). The repository reads and writes one
 * text value per key through the storage interface: the version list of a
 * campaign under `phishlet_versions:<name>` and each flow session under
 * `flow_session:<id>`. A value the repository wrote is read back as what it
 * wrote; any other text fails to decode. A write can fail, which is the
 * `setErr` parameter; the clock is `now`.
 */
module Versioning {
  import opened Wrappers
  import opened Models
  import Maps

  /** What a key of the key-value store holds. */
  datatype Stored =
    | Versions(list: seq<PhishletVersion>)
    | Flow(session: FlowSession)
    | Text(text: string)

  /** The error of decoding text that is not the expected value (its wording is not modelled). */
  const Undecodable: string := "cannot decode value"

  function VersionsKey(name: string): string
  {
    "phishlet_versions:" + name
  }

  function FlowKey(id: string): string
  {
    "flow_session:" + id
  }

  /** The index of the first entry with this version string, or -1. */
  function FindVersion(versions: seq<PhishletVersion>, version: string): (r: int)
    ensures -1 <= r < |versions|
    ensures r >= 0 ==> versions[r].version == version && forall j :: 0 <= j < r ==> versions[j].version != version
    ensures r == -1 <==> forall j :: 0 <= j < |versions| ==> versions[j].version != version
  {
    if |versions| == 0 then -1
    else
      var k := FindVersion(versions[..|versions| - 1], version);
      if k >= 0 then k
      else if versions[|versions| - 1].version == version then |versions| - 1
      else -1
  }

  const HexDigits: string := "0123456789abcdef"

  /** `%x` of a byte string: two lower-case hex digits per byte. */
  function Hex(s: string): (r: string)
    requires forall i :: 0 <= i < |s| ==> s[i] as int < 256
    ensures |r| == 2 * |s|
    ensures forall i :: 0 <= i < |r| ==> r[i] in HexDigits
  {
    if |s| == 0 then ""
    else
      var b := s[0] as int;
      [HexDigits[b / 16], HexDigits[b % 16]] + Hex(s[1..])
  }

  /** `generateHash`: the first eight hex digits, so the first four bytes; shorter input makes the slice panic. */
  function GenerateHash(input: string): (r: string)
    requires |input| >= 4
    requires forall i :: 0 <= i < |input| ==> input[i] as int < 256
    ensures |r| == 8 && forall i :: 0 <= i < 8 ==> r[i] in HexDigits
    ensures r == Hex(input[..4])
  {
    HexPrefix(input, 4);
    Hex(input)[..8]
  }

  /** The hex text of a prefix is the prefix of the hex text. */
  lemma {:induction false} HexPrefix(s: string, n: nat)
    requires n <= |s|
    requires forall i :: 0 <= i < |s| ==> s[i] as int < 256
    ensures Hex(s)[..2 * n] == Hex(s[..n])
  {
    if n > 0 {
      HexPrefix(s[1..], n - 1);
      assert s[..n][1..] == s[1..][..n - 1];
    }
  }

  class PhishletRepository {
    var store: map<string, Stored>

    constructor()
      ensures store == map[]
    {
      store := map[];
    }

    /** `ListVersions`: a missing key is an empty list, not an error. */
    function ListVersions(name: string): (r: Result<seq<PhishletVersion>>)
      reads this
      ensures VersionsKey(name) !in store ==> r == Ok([])
      ensures VersionsKey(name) in store && store[VersionsKey(name)].Versions? ==> r == Ok(store[VersionsKey(name)].list)
      ensures r.Err? ==> r.error == "failed to unmarshal versions: " + Undecodable
    {
      var key := VersionsKey(name);
      if key !in store then Ok([])
      else match store[key]
        case Versions(list) => Ok(list)
        case _ => Err("failed to unmarshal versions: " + Undecodable)
    }

    /** `GetVersion`: the first entry with this version, as a campaign record. */
    function GetVersion(name: string, version: string): (r: Result<Phishlet>)
      reads this
      ensures ListVersions(name).Err? ==> r == Err(ListVersions(name).error)
      ensures ListVersions(name).Ok? && FindVersion(ListVersions(name).value, version) == -1 ==>
        r == Err("version not found: " + version)
      ensures r.Ok? ==> (ListVersions(name).Ok?
        && var i := FindVersion(ListVersions(name).value, version);
           i >= 0 && r.value.name == name && r.value.version == version
           && r.value.author == ListVersions(name).value[i].author)
    {
      match ListVersions(name)
      case Err(e) => Err(e)
      case Ok(versions) =>
        var i := FindVersion(versions, version);
        if i < 0 then Err("version not found: " + version)
        else Ok(Phishlet(name, versions[i].author, version, "", false, false, "", [], ZeroTime, ZeroTime))
    }

    /**
     * `PublishVersion`: a version string already present is refused and
     * nothing changes; otherwise one entry is appended and the list written
     * back. On that append path only, the hash needs `name + version` to be
     * at least four bytes.
     */
    method PublishVersion(phishlet: Phishlet, version: string, description: string, now: Time, setErr: Option<string>)
      returns (err: Option<string>)
      requires ListVersions(phishlet.name).Ok? && FindVersion(ListVersions(phishlet.name).value, version) == -1 ==>
        |phishlet.name + version| >= 4
        && forall i :: 0 <= i < |phishlet.name + version| ==> (phishlet.name + version)[i] as int < 256
      modifies this
      ensures old(ListVersions(phishlet.name)).Err? ==> err == Some(old(ListVersions(phishlet.name)).error) && store == old(store)
      ensures old(ListVersions(phishlet.name)).Ok? && FindVersion(old(ListVersions(phishlet.name)).value, version) >= 0 ==>
        err == Some("version already exists: " + version) && store == old(store)
      ensures old(ListVersions(phishlet.name)).Ok? && FindVersion(old(ListVersions(phishlet.name)).value, version) == -1 ==>
        err == setErr
        && (setErr.None? ==> store == old(store)[VersionsKey(phishlet.name) := Versions(old(ListVersions(phishlet.name)).value
             + [PhishletVersion(version, phishlet.author, description, now, GenerateHash(phishlet.name + version), "")])])
        && (setErr.Some? ==> store == old(store))
    {
      var listed := ListVersions(phishlet.name);
      if listed.Err? {
        return Some(listed.error);
      }
      var versions := listed.value;
      var i := 0;
      while i < |versions|
        invariant 0 <= i <= |versions|
        invariant forall j :: 0 <= j < i ==> versions[j].version != version
      {
        if versions[i].version == version {
          return Some("version already exists: " + version);
        }
        i := i + 1;
      }
      var newVersion := PhishletVersion(version, phishlet.author, description, now, GenerateHash(phishlet.name + version), "");
      versions := versions + [newVersion];
      if setErr.Some? {
        return setErr;
      }
      store := store[VersionsKey(phishlet.name) := Versions(versions)];
      err := None;
    }

    /** `CreateFlowSession`: both time stamps are set to now before writing. */
    method CreateFlowSession(session: FlowSession, now: Time, setErr: Option<string>)
      returns (err: Option<string>, saved: FlowSession)
      modifies this
      ensures saved == session.(createdAt := now, updatedAt := now)
      ensures err == setErr
      ensures setErr.None? ==> store == old(store)[FlowKey(session.id) := Flow(saved)]
      ensures setErr.Some? ==> store == old(store)
    {
      saved := session.(createdAt := now, updatedAt := now);
      if setErr.Some? {
        return setErr, saved;
      }
      store := store[FlowKey(session.id) := Flow(saved)];
      err := None;
    }

    /** `GetFlowSession`. */
    function GetFlowSession(id: string): (r: Result<FlowSession>)
      reads this
      ensures FlowKey(id) !in store ==> r == Err("flow session not found: " + id)
      ensures r.Ok? <==> FlowKey(id) in store && store[FlowKey(id)].Flow?
      ensures r.Ok? ==> r.value == store[FlowKey(id)].session
    {
      var key := FlowKey(id);
      if key !in store then Err("flow session not found: " + id)
      else match store[key]
        case Flow(s) => Ok(s)
        case _ => Err("failed to unmarshal flow session: " + Undecodable)
    }

    /**
     * `UpdateFlowSession`: the step is set and the data merged into
     * `StepData`, new keys winning and the others kept; the session is then
     * written through `CreateFlowSession`, which stamps `CreatedAt` again.
     */
    method UpdateFlowSession(id: string, step: string, data: map<string, string>, now: Time, setErr: Option<string>)
      returns (err: Option<string>)
      modifies this
      ensures old(GetFlowSession(id)).Err? ==> err == Some(old(GetFlowSession(id)).error) && store == old(store)
      ensures old(GetFlowSession(id)).Ok? && setErr.Some? ==> err == setErr && store == old(store)
      ensures old(GetFlowSession(id)).Ok? && setErr.None? ==>
        (var before := old(GetFlowSession(id)).value;
         var key := FlowKey(before.id);
         err.None? && key in store && store[key].Flow? && store == old(store)[key := store[key]]
         && var after := store[key].session;
            after == before.(currentStep := step, createdAt := now, updatedAt := now, stepData := after.stepData)
            && after.stepData.Keys == before.stepData.Keys + data.Keys
            && (forall k :: k in data ==> after.stepData[k] == data[k])
            && (forall k :: k in before.stepData && k !in data ==> after.stepData[k] == before.stepData[k]))
    {
      var got := GetFlowSession(id);
      if got.Err? {
        return Some(got.error);
      }
      var session := got.value;
      var merged := Maps.MergeInto(session.stepData, data);
      session := session.(currentStep := step, updatedAt := now, stepData := merged);
      var saved;
      err, saved := CreateFlowSession(session, now, setErr);
    }
  }

  /** A published version can be found again, with the author of the campaign that published it. */
  lemma PublishedIsFound(r: PhishletRepository, name: string, before: seq<PhishletVersion>, v: PhishletVersion)
    requires VersionsKey(name) in r.store && r.store[VersionsKey(name)] == Versions(before + [v])
    requires FindVersion(before, v.version) == -1
    ensures r.GetVersion(name, v.version).Ok?
    ensures r.GetVersion(name, v.version).value.author == v.author
  {
    assert (before + [v])[..|before|] == before;
  }

  /** Two updates of the same flow session: each one stamps `CreatedAt` afresh. */
  method UpdateTwice(r: PhishletRepository, s: FlowSession, t1: Time, t2: Time)
    returns (final: Result<FlowSession>)
    requires FlowKey(s.id) in r.store && r.store[FlowKey(s.id)] == Flow(s)
    modifies r
    ensures final.Ok? && final.value.createdAt == t2 && final.value.currentStep == "second"
  {
    var e1 := r.UpdateFlowSession(s.id, "first", map[], t1, None);
    var e2 := r.UpdateFlowSession(s.id, "second", map[], t2, None);
    final := r.GetFlowSession(s.id);
  }
}
