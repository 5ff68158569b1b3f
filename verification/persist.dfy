/** Persistence of the registry (index.js): the record `sync` writes, the
    constructor that rebuilds a store from a loaded record, the two-file
    commit protocol and `open`.

    The registry directory holds `profiles.json` (slot `main`) and the
    write-ahead file `profiles-next.json` (slot `next`). The JSON codec is
    taken to be reliable, so a slot holds either a structured record, nothing,
    or something unreadable. */
module Persist {
  import opened Wrappers
  import opened Paths
  import opened Registry

  /** A persisted profile: everything but the derived storage path. */
  datatype ProfileRecord = ProfileRecord(id: nat, name: Option<string>, active: bool, created: int)

  /** A persisted pending-deletion entry. */
  datatype GcRecord = GcRecord(id: nat, name: Option<string>, created: int, removed: int)

  /** A parsed registry file; any of its keys may be missing. */
  datatype Config = Config(version: Option<int>, profiles: Option<seq<ProfileRecord>>, gc: Option<seq<GcRecord>>)

  datatype Slot = Missing | Unreadable | Holds(config: Config)

  /** The two registry files: `profiles.json` and `profiles-next.json`. */
  datatype Disk = Disk(main: Slot, next: Slot)

  /** What the platform does during a commit: whether it is Windows, whether
      the best-effort delete of `profiles.json` succeeds there, and whether
      the best-effort rename succeeds. */
  datatype CommitEnv = CommitEnv(isWindows: bool, unlinkOk: bool, renameOk: bool)

  datatype OpenError = UnknownVersion(version: int)

  // ---------------------------------------------------------------------
  // The persisted record

  function ToRecord(p: Profile): ProfileRecord {
    ProfileRecord(p.id, p.name, p.active, p.created)
  }

  function ToGcRecord(e: GcEntry): GcRecord {
    GcRecord(e.id, e.name, e.created, e.removed)
  }

  /** The record `sync` writes: the version and both lists, without the
      storage paths. Every key is present, so `open` never falls back to a
      default for a record `sync` wrote; ids and order are kept. */
  function Serialize(s: Store): (c: Config)
    ensures c.version == Some(s.version) && c.profiles.Some? && c.gc.Some?
    ensures |c.profiles.value| == |s.profiles| && |c.gc.value| == |s.gc|
    ensures forall i :: 0 <= i < |s.profiles| ==> c.profiles.value[i].id == s.profiles[i].id
    ensures forall j :: 0 <= j < |s.gc| ==> c.gc.value[j].id == s.gc[j].id
  {
    Config(Some(s.version),
           Some(seq(|s.profiles|, i requires 0 <= i < |s.profiles| => ToRecord(s.profiles[i]))),
           Some(seq(|s.gc|, j requires 0 <= j < |s.gc| => ToGcRecord(s.gc[j]))))
  }

  /** The constructor: copies each record's fields and derives every storage
      path from the directory and the id. It is the exact right inverse of
      `Serialize`: serialising what it builds gives back the records. */
  function Construct(dir: Path, version: int, profiles: seq<ProfileRecord>, gc: seq<GcRecord>): (s: Store)
    ensures s.directory == dir
    ensures StorageDerived(s)
    ensures Serialize(s) == Config(Some(version), Some(profiles), Some(gc))
  {
    var s := Store(dir, version,
                   seq(|profiles|, i requires 0 <= i < |profiles| =>
                       var r := profiles[i];
                       Profile(r.id, r.name, r.active, r.created, Storage(dir, r.id))),
                   seq(|gc|, j requires 0 <= j < |gc| =>
                       var r := gc[j];
                       GcEntry(r.id, r.name, r.created, r.removed, Storage(dir, r.id))));
    assert Serialize(s).profiles.value == profiles;
    assert Serialize(s).gc.value == gc;
    s
  }

  /** Serialising a store and constructing it again gives the same store,
      provided its storage paths are the derived ones. */
  lemma ConstructInvertsSerialize(s: Store)
    requires StorageDerived(s)
    ensures var c := Serialize(s);
            Construct(s.directory, s.version, c.profiles.value, c.gc.value) == s
  {
    var c := Serialize(s);
    var t := Construct(s.directory, s.version, c.profiles.value, c.gc.value);
    assert t.profiles == s.profiles;
    assert t.gc == s.gc;
  }

  /** With derived storage paths in one directory, the written record
      determines the store: two stores write the same record exactly when
      they are equal. */
  lemma SerializeInjective(s: Store, t: Store)
    requires StorageDerived(s) && StorageDerived(t) && s.directory == t.directory
    ensures Serialize(s) == Serialize(t) <==> s == t
  {
    if Serialize(s) == Serialize(t) {
      ConstructInvertsSerialize(s);
      ConstructInvertsSerialize(t);
    }
  }

  datatype ConstructError = NonStringPathSegment

  /** The constructor as index.js:28 writes it: the storage path of a
      pending entry is joined from the raw numeric id, which `path.join`
      rejects with a type error. Any record with a pending entry therefore
      fails to construct; without one it agrees with `Construct`. */
  function ConstructAsWritten(dir: Path, version: int, profiles: seq<ProfileRecord>, gc: seq<GcRecord>): (r: Result<Store, ConstructError>)
    ensures r.Failure? <==> |gc| > 0
    ensures r.Success? ==> r.value == Construct(dir, version, profiles, gc)
  {
    if |gc| > 0 then Failure(NonStringPathSegment)
    else Success(Construct(dir, version, profiles, gc))
  }

  /** What `remove` followed by `sync` writes cannot be constructed again
      by the constructor as written, while `Construct` rebuilds it. */
  lemma PendingEntryBreaksConstructAsWritten(s: Store)
    requires StorageDerived(s) && |s.gc| > 0
    ensures var c := Serialize(s);
            && ConstructAsWritten(s.directory, s.version, c.profiles.value, c.gc.value).Failure?
            && Construct(s.directory, s.version, c.profiles.value, c.gc.value) == s
  {
    ConstructInvertsSerialize(s);
  }

  // ---------------------------------------------------------------------
  // Loading and committing

  /** The record `open` starts from: `profiles.json` if readable, else
      `profiles-next.json` if readable, else none. */
  function Load(d: Disk): (r: Option<Config>)
    ensures d.main.Holds? ==> r == Some(d.main.config)
    ensures !d.main.Holds? && d.next.Holds? ==> r == Some(d.next.config)
    ensures r.None? <==> !d.main.Holds? && !d.next.Holds?
  {
    if d.main.Holds? then Some(d.main.config)
    else if d.next.Holds? then Some(d.next.config)
    else None
  }

  /** The files after each step of `sync`'s commit: write the whole record
      to `profiles-next.json`; on Windows, try to delete `profiles.json`;
      try to rename `profiles-next.json` onto `profiles.json`.
      Crash safety: after every step, loading yields either what loaded
      before the commit or the new record, never anything else. */
  function CommitSteps(d: Disk, data: Config, env: CommitEnv): (steps: seq<Disk>)
    ensures |steps| == 3
    ensures forall k :: 0 <= k < |steps| ==> Load(steps[k]) in {Load(d), Some(data)}
  {
    var written := d.(next := Holds(data));
    var unlinked := if env.isWindows && env.unlinkOk then written.(main := Missing) else written;
    var renamed := if env.renameOk then Disk(unlinked.next, Missing) else unlinked;
    [written, unlinked, renamed]
  }

  /** The files after a completed `sync`. What it wrote is what the next
      load sees exactly when the rename went through, the old
      `profiles.json` was deleted, or there was no readable `profiles.json`
      to shadow the write-ahead file (or it already held the same record);
      otherwise the next load still sees the old `profiles.json`. */
  function Commit(d: Disk, data: Config, env: CommitEnv): (r: Disk)
    ensures Load(r) == Some(data) <==>
              || env.renameOk
              || (env.isWindows && env.unlinkOk)
              || !d.main.Holds?
              || d.main.config == data
    ensures Load(r) != Some(data) ==> Load(r) == Load(d)
  {
    CommitSteps(d, data, env)[2]
  }

  /** A crash while `writeFileSync` rewrites `profiles-next.json` leaves it
      truncated, which `JSON.parse` rejects. */
  function TornWrite(d: Disk): (r: Disk)
    ensures r.main == d.main && !r.next.Holds?
  {
    d.(next := Unreadable)
  }

  /** The write is not atomic: after a Windows commit whose delete succeeded
      and whose rename failed, `profiles.json` is gone, and a crash during
      the next commit's write leaves no readable file. `open` then yields an
      empty registry, whatever the earlier commit held. */
  lemma TornWriteAfterWindowsCommit(dir: Path, d: Disk, data: Config, requested: Option<int>)
    ensures var env := CommitEnv(true, true, false);
            var r := TornWrite(Commit(d, data, env));
            && Load(Commit(d, data, env)) == Some(data)
            && Load(r).None?
            && (requested.GetOr(LatestVersion) <= LatestVersion ==>
                  Open(dir, r, requested) == Success(Store(dir, requested.GetOr(LatestVersion), [], [])))
  {
  }

  // ---------------------------------------------------------------------
  // open

  /** `MultiProfileStore.open(dir, {version})`: loads the record, defaults a
      missing version to the requested one (itself defaulting to the latest),
      rejects any version above the latest, defaults missing lists to empty
      and constructs the store. */
  function Open(dir: Path, d: Disk, requested: Option<int>): (r: Result<Store, OpenError>)
    ensures r.Success? ==> r.value.directory == dir && StorageDerived(r.value)
    ensures r.Success? ==> r.value.version <= LatestVersion
    ensures r.Failure? ==> r.error.version > LatestVersion
    ensures Load(d).None? ==>
              var v := requested.GetOr(LatestVersion);
              r == if v <= LatestVersion then Success(Store(dir, v, [], [])) else Failure(UnknownVersion(v))
    ensures Load(d).Some? && Load(d).value.version.Some? ==>
              (r.Success? <==> Load(d).value.version.value <= LatestVersion)
    ensures r.Success? && Load(d).Some? && Load(d).value.profiles.None? ==> r.value.profiles == []
    ensures r.Success? && Load(d).Some? && Load(d).value.gc.None? ==> r.value.gc == []
    ensures var c := Load(d).GetOr(Config(None, None, None));
            var v := c.version.GetOr(requested.GetOr(LatestVersion));
            && (r.Success? <==> v <= LatestVersion)
            && (r.Failure? ==> r.error == UnknownVersion(v))
            && (r.Success? ==> Serialize(r.value) == Config(Some(v), Some(c.profiles.GetOr([])), Some(c.gc.GetOr([]))))
  {
    var config := Load(d).GetOr(Config(None, None, None));
    var version := config.version.GetOr(requested.GetOr(LatestVersion));
    if !(version <= LatestVersion) then Failure(UnknownVersion(version))
    else Success(Construct(dir, version, config.profiles.GetOr([]), config.gc.GetOr([])))
  }

  /** Round trip: opening files whose loaded record is what `sync` wrote
      for a store gives that store back, storage paths re-derived. */
  lemma OpenAfterSync(s: Store, d: Disk, requested: Option<int>)
    requires StorageDerived(s) && s.version <= LatestVersion
    requires Load(d) == Some(Serialize(s))
    ensures Open(s.directory, d, requested) == Success(s)
  {
    ConstructInvertsSerialize(s);
  }

  /** A durable commit followed by `open` reproduces the committed store. */
  lemma CommitThenOpen(s: Store, d: Disk, env: CommitEnv, requested: Option<int>)
    requires StorageDerived(s) && s.version <= LatestVersion
    requires env.renameOk || (env.isWindows && env.unlinkOk)
    ensures Open(s.directory, Commit(d, Serialize(s), env), requested) == Success(s)
  {
    OpenAfterSync(s, Commit(d, Serialize(s), env), requested);
  }
}
