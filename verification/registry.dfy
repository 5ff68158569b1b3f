/** The in-memory registry of a multi-profile store (index.js, class
    `MultiProfileStore`): the live profiles, the entries pending deletion
    ("gc" entries), and the lifecycle operations over them.

    Every operation is a pure function from the store before the call to the
    store after it (and the call's return value). Each mutating operation of
    the source ends with a commit of the whole store; that commit is modelled
    in module Persist. */
module Registry {
  import opened Wrappers
  import opened Paths

  /** The newest registry format this build understands. */
  const LatestVersion: int := 1

  /** A live profile. `storage` is derived from the registry directory and
      the id (see StorageDerived); it is never persisted. */
  datatype Profile = Profile(id: nat, name: Option<string>, active: bool, created: int, storage: Path)

  /** A removed profile whose storage directory still awaits deletion. */
  datatype GcEntry = GcEntry(id: nat, name: Option<string>, created: int, removed: int, storage: Path)

  datatype Store = Store(directory: Path, version: int, profiles: seq<Profile>, gc: seq<GcEntry>)

  /** Options of `create`; a `None` field takes the source's default
      (active: true, id: the next free id, name: null, created: now). */
  datatype CreateOptions = CreateOptions(active: Option<bool>, id: Option<nat>, name: Option<string>, created: Option<int>)

  /** Options of `update`; `active` defaults to true. */
  datatype UpdateOptions = UpdateOptions(id: nat, active: Option<bool>)

  /** Options of `remove`; `removed` defaults to now. */
  datatype RemoveOptions = RemoveOptions(id: nat, removed: Option<int>)

  // ---------------------------------------------------------------------
  // Invariants

  /** At most one live profile is active. */
  predicate AtMostOneActive(ps: seq<Profile>) {
    forall i, j :: 0 <= i < |ps| && 0 <= j < |ps| && ps[i].active && ps[j].active ==> i == j
  }

  /** Exactly the profile at index k is active. */
  predicate OnlyActive(ps: seq<Profile>, k: int) {
    forall i :: 0 <= i < |ps| ==> (ps[i].active <==> i == k)
  }

  /** Every storage path is the one derived from the directory and the id. */
  predicate StorageDerived(s: Store) {
    && (forall i :: 0 <= i < |s.profiles| ==> s.profiles[i].storage == Storage(s.directory, s.profiles[i].id))
    && (forall j :: 0 <= j < |s.gc| ==> s.gc[j].storage == Storage(s.directory, s.gc[j].id))
  }

  /** No id occurs twice among the live profiles and the pending entries
      taken together. */
  predicate UniqueIds(s: Store) {
    && (forall i, j :: 0 <= i < j < |s.profiles| ==> s.profiles[i].id != s.profiles[j].id)
    && (forall i, j :: 0 <= i < j < |s.gc| ==> s.gc[i].id != s.gc[j].id)
    && (forall i, j :: 0 <= i < |s.profiles| && 0 <= j < |s.gc| ==> s.profiles[i].id != s.gc[j].id)
  }

  predicate Valid(s: Store) {
    AtMostOneActive(s.profiles) && StorageDerived(s)
  }

  /** The two profile lists agree except, possibly, on the active flags. */
  predicate SameButFlags(ps: seq<Profile>, qs: seq<Profile>) {
    && |ps| == |qs|
    && forall i :: 0 <= i < |ps| ==>
         qs[i].id == ps[i].id && qs[i].name == ps[i].name && qs[i].created == ps[i].created && qs[i].storage == ps[i].storage
  }

  // ---------------------------------------------------------------------
  // Linear scans

  /** The index of the first live profile with the given id. */
  function IndexOf(ps: seq<Profile>, id: nat): (r: Option<nat>)
    ensures r.Some? ==> r.value < |ps| && ps[r.value].id == id
    ensures r.Some? ==> forall j :: 0 <= j < r.value ==> ps[j].id != id
    ensures r.None? <==> forall j :: 0 <= j < |ps| ==> ps[j].id != id
  {
    if |ps| == 0 then None
    else if ps[0].id == id then Some(0)
    else match IndexOf(ps[1..], id)
      case None => None
      case Some(k) => Some(k + 1)
  }

  /** `exists({id})`: whether a live profile has the id. */
  function Exists(s: Store, id: nat): (b: bool)
    ensures b <==> exists i :: 0 <= i < |s.profiles| && s.profiles[i].id == id
  {
    IndexOf(s.profiles, id).Some?
  }

  /** The index of the first active live profile. */
  function FirstActive(ps: seq<Profile>): (r: Option<nat>)
    ensures r.Some? ==> r.value < |ps| && ps[r.value].active
    ensures r.Some? ==> forall j :: 0 <= j < r.value ==> !ps[j].active
    ensures r.None? <==> forall j :: 0 <= j < |ps| ==> !ps[j].active
  {
    if |ps| == 0 then None
    else if ps[0].active then Some(0)
    else match FirstActive(ps[1..])
      case None => None
      case Some(k) => Some(k + 1)
  }

  /** `active()`: the first active live profile, if any. */
  function Active(s: Store): (r: Option<Profile>)
    ensures r.None? <==> forall j :: 0 <= j < |s.profiles| ==> !s.profiles[j].active
    ensures r.Some? ==> r.value.active && r.value in s.profiles
    ensures r.Some? ==> FirstActive(s.profiles).Some? && r.value == s.profiles[FirstActive(s.profiles).value]
    ensures r.Some? && AtMostOneActive(s.profiles) ==>
              forall j :: 0 <= j < |s.profiles| && s.profiles[j] != r.value ==> !s.profiles[j].active
  {
    match FirstActive(s.profiles)
    case None => None
    case Some(k) => Some(s.profiles[k])
  }

  /** `list()`: the live profiles in persisted order. An id is listed
      exactly when `exists` reports it, and the active profile is listed. */
  function List(s: Store): (r: seq<Profile>)
    ensures forall id: nat :: Exists(s, id) <==> exists i :: 0 <= i < |r| && r[i].id == id
    ensures Active(s).Some? ==> Active(s).value in r
  {
    s.profiles
  }

  /** `_markAllInactive()`: clears every active flag and nothing else. */
  function MarkAllInactive(ps: seq<Profile>): (r: seq<Profile>)
    ensures SameButFlags(ps, r)
    ensures forall i :: 0 <= i < |r| ==> !r[i].active
  {
    seq(|ps|, i requires 0 <= i < |ps| => ps[i].(active := false))
  }

  // ---------------------------------------------------------------------
  // Id allocation

  /** Folds `acc := max(acc, id + 1)` over the ids, as each loop of
      `_next()` does over one list. */
  function NextAfter(acc: nat, ids: seq<nat>): (r: nat)
    ensures acc <= r
    ensures forall i :: 0 <= i < |ids| ==> ids[i] < r
    ensures r == acc || exists i :: 0 <= i < |ids| && r == ids[i] + 1
    decreases |ids|
  {
    if |ids| == 0 then acc
    else NextAfter(if acc < ids[0] + 1 then ids[0] + 1 else acc, ids[1..])
  }

  function ProfileIds(ps: seq<Profile>): (r: seq<nat>)
    ensures |r| == |ps| && forall i :: 0 <= i < |ps| ==> r[i] == ps[i].id
  {
    seq(|ps|, i requires 0 <= i < |ps| => ps[i].id)
  }

  function GcIds(gs: seq<GcEntry>): (r: seq<nat>)
    ensures |r| == |gs| && forall i :: 0 <= i < |gs| ==> r[i] == gs[i].id
  {
    seq(|gs|, i requires 0 <= i < |gs| => gs[i].id)
  }

  /** `_next()`: one more than the largest id among the live profiles and
      the pending entries, or 0 when both lists are empty. */
  function NextId(s: Store): (r: nat)
    ensures forall i :: 0 <= i < |s.profiles| ==> s.profiles[i].id < r
    ensures forall j :: 0 <= j < |s.gc| ==> s.gc[j].id < r
    ensures |s.profiles| == 0 && |s.gc| == 0 ==> r == 0
    ensures r == 0 || (exists i :: 0 <= i < |s.profiles| && r == s.profiles[i].id + 1)
                   || (exists j :: 0 <= j < |s.gc| && r == s.gc[j].id + 1)
  {
    var ids := ProfileIds(s.profiles);
    var acc := NextAfter(0, ids);
    var r := NextAfter(acc, GcIds(s.gc));
    assert r == acc || exists j :: 0 <= j < |s.gc| && r == s.gc[j].id + 1;
    assert acc == 0 || exists i :: 0 <= i < |ids| && acc == ids[i] + 1;
    r
  }

  // ---------------------------------------------------------------------
  // Lifecycle operations

  /** Appending a profile, after clearing every flag when it is active,
      keeps earlier profiles except for their flags, leaves the new one the
      only active one when it is active, and keeps the invariants. */
  lemma AppendKeepsValid(s: Store, p: Profile)
    requires p.storage == Storage(s.directory, p.id)
    ensures var ps := (if p.active then MarkAllInactive(s.profiles) else s.profiles) + [p];
            var n := |s.profiles|;
            && |ps| == n + 1 && ps[n] == p
            && SameButFlags(s.profiles, ps[..n])
            && (p.active ==> OnlyActive(ps, n))
            && (!p.active ==> ps[..n] == s.profiles)
            && (AtMostOneActive(s.profiles) ==> AtMostOneActive(ps))
            && (StorageDerived(s) ==> StorageDerived(s.(profiles := ps)))
  {
    var qs := if p.active then MarkAllInactive(s.profiles) else s.profiles;
    var ps := qs + [p];
    var n := |s.profiles|;
    assert ps[..n] == qs;
    if StorageDerived(s) {
      forall i | 0 <= i < |ps|
        ensures ps[i].storage == Storage(s.directory, ps[i].id)
      {
        if i < n {
          assert ps[i] == qs[i];
        }
      }
    }
  }

  /** `create(opts)`: refuses an id some live profile already has; otherwise
      clears every active flag when the new profile is active and appends
      the new profile. */
  function Create(s: Store, opts: CreateOptions, now: int): (r: (Store, Option<Profile>))
    ensures r.0.directory == s.directory && r.0.version == s.version && r.0.gc == s.gc
    ensures r.1.None? <==> opts.id.Some? && Exists(s, opts.id.value)
    ensures r.1.None? ==> r.0 == s
    ensures r.1.Some? ==>
              var p := r.1.value;
              && |r.0.profiles| == |s.profiles| + 1
              && r.0.profiles[|s.profiles|] == p
              && SameButFlags(s.profiles, r.0.profiles[..|s.profiles|])
              && p.name == opts.name
              && p.active == opts.active.GetOr(true)
              && p.created == opts.created.GetOr(now)
              && p.storage == Storage(s.directory, p.id)
              && (opts.id.Some? ==> p.id == opts.id.value)
              && (opts.id.None? ==> p.id == NextId(s))
              && (opts.id.None? ==>
                    && (forall i :: 0 <= i < |s.profiles| ==> s.profiles[i].id < p.id)
                    && (forall j :: 0 <= j < |s.gc| ==> s.gc[j].id < p.id))
              && (p.active ==> OnlyActive(r.0.profiles, |s.profiles|))
              && (!p.active ==> r.0.profiles[..|s.profiles|] == s.profiles)
    ensures AtMostOneActive(s.profiles) ==> AtMostOneActive(r.0.profiles)
    ensures StorageDerived(s) ==> StorageDerived(r.0)
  {
    var active := opts.active.GetOr(true);
    var id := opts.id.GetOr(NextId(s));
    var created := opts.created.GetOr(now);
    if Exists(s, id) then (s, None)
    else
      var p := Profile(id, opts.name, active, created, Storage(s.directory, id));
      var ps := if active then MarkAllInactive(s.profiles) else s.profiles;
      AppendKeepsValid(s, p);
      (s.(profiles := ps + [p]), Some(p))
  }

  /** Setting the flag of the profile at index k, after clearing every flag
      when activating, changes only flags, leaves k the only active profile
      when activating, changes nothing else when deactivating, and keeps the
      invariants. */
  lemma SetFlagKeepsValid(s: Store, k: nat, active: bool)
    requires k < |s.profiles|
    ensures var qs := if active then MarkAllInactive(s.profiles) else s.profiles;
            var ps := qs[k := qs[k].(active := active)];
            && SameButFlags(s.profiles, ps)
            && (active ==> OnlyActive(ps, k))
            && (!active ==> ps == s.profiles[k := s.profiles[k].(active := false)])
            && (AtMostOneActive(s.profiles) ==> AtMostOneActive(ps))
            && (StorageDerived(s) ==> StorageDerived(s.(profiles := ps)))
  {
    var qs := if active then MarkAllInactive(s.profiles) else s.profiles;
    var ps := qs[k := qs[k].(active := active)];
    if StorageDerived(s) {
      forall i | 0 <= i < |ps|
        ensures ps[i].storage == Storage(s.directory, ps[i].id)
      {
        assert ps[i].storage == s.profiles[i].storage && ps[i].id == s.profiles[i].id;
      }
    }
    if AtMostOneActive(s.profiles) && !active {
      forall i, j | 0 <= i < |ps| && 0 <= j < |ps| && ps[i].active && ps[j].active
        ensures i == j
      {
        assert i != k && j != k;
        assert s.profiles[i].active && s.profiles[j].active;
      }
    }
  }

  /** `update({id, active})`: sets the active flag of the first live profile
      with the id, clearing every other flag first when activating. */
  function Update(s: Store, opts: UpdateOptions): (r: (Store, Option<Profile>))
    ensures r.0.directory == s.directory && r.0.version == s.version && r.0.gc == s.gc
    ensures r.1.None? <==> !Exists(s, opts.id)
    ensures r.1.None? ==> r.0 == s
    ensures SameButFlags(s.profiles, r.0.profiles)
    ensures r.1.Some? ==>
              var k := IndexOf(s.profiles, opts.id).value;
              && r.0.profiles[k] == r.1.value
              && r.1.value.id == opts.id
              && r.1.value.active == opts.active.GetOr(true)
              && (r.1.value.active ==> OnlyActive(r.0.profiles, k))
              && (!r.1.value.active ==> r.0.profiles == s.profiles[k := r.1.value])
    ensures AtMostOneActive(s.profiles) ==> AtMostOneActive(r.0.profiles)
    ensures StorageDerived(s) ==> StorageDerived(r.0)
  {
    match IndexOf(s.profiles, opts.id)
    case None => (s, None)
    case Some(k) =>
      var active := opts.active.GetOr(true);
      var ps := if active then MarkAllInactive(s.profiles) else s.profiles;
      var p := ps[k].(active := active);
      SetFlagKeepsValid(s, k, active);
      (s.(profiles := ps[k := p]), Some(p))
  }

  /** Deleting index k shifts every later profile down by one. */
  lemma DeleteAt<T>(xs: seq<T>, k: nat)
    requires k < |xs|
    ensures |xs[..k] + xs[k + 1..]| == |xs| - 1
    ensures forall i :: 0 <= i < k ==> (xs[..k] + xs[k + 1..])[i] == xs[i]
    ensures forall i :: k < i < |xs| ==> (xs[..k] + xs[k + 1..])[i - 1] == xs[i]
  {
  }

  /** Taking the profile at index k out of the live list and appending an
      entry with its id and storage to the pending list keeps the active
      and storage invariants; if it was the active one, none is left. */
  lemma MoveToGcKeepsValid(s: Store, k: nat, e: GcEntry)
    requires k < |s.profiles| && e.id == s.profiles[k].id && e.storage == s.profiles[k].storage
    ensures var t := s.(profiles := s.profiles[..k] + s.profiles[k + 1..], gc := s.gc + [e]);
            && (AtMostOneActive(s.profiles) ==> AtMostOneActive(t.profiles))
            && (AtMostOneActive(s.profiles) && s.profiles[k].active ==>
                  forall j :: 0 <= j < |t.profiles| ==> !t.profiles[j].active)
            && (StorageDerived(s) ==> StorageDerived(t))
  {
    DeleteAt(s.profiles, k);
    var t := s.(profiles := s.profiles[..k] + s.profiles[k + 1..], gc := s.gc + [e]);
    forall j | 0 <= j < |t.profiles|
      ensures t.profiles[j] == s.profiles[if j < k then j else j + 1]
    {
    }
    if StorageDerived(s) {
      forall j | 0 <= j < |t.gc|
        ensures t.gc[j].storage == Storage(t.directory, t.gc[j].id)
      {
        if j < |s.gc| {
          assert t.gc[j] == s.gc[j];
        }
      }
    }
  }

  /** `remove({id, removed})`: deletes the first live profile with the id
      and queues its storage for deletion; no other profile is activated in
      its place. */
  function Remove(s: Store, opts: RemoveOptions, now: int): (r: (Store, bool))
    ensures r.0.directory == s.directory && r.0.version == s.version
    ensures r.1 <==> Exists(s, opts.id)
    ensures !r.1 ==> r.0 == s
    ensures r.1 ==>
              var k := IndexOf(s.profiles, opts.id).value;
              var p := s.profiles[k];
              && r.0.profiles == s.profiles[..k] + s.profiles[k + 1..]
              && r.0.gc == s.gc + [GcEntry(p.id, p.name, p.created, opts.removed.GetOr(now), p.storage)]
              && (p.active && AtMostOneActive(s.profiles) ==> Active(r.0).None?)
    ensures AtMostOneActive(s.profiles) ==> AtMostOneActive(r.0.profiles)
    ensures StorageDerived(s) ==> StorageDerived(r.0)
  {
    match IndexOf(s.profiles, opts.id)
    case None => (s, false)
    case Some(k) =>
      var p := s.profiles[k];
      var e := GcEntry(p.id, p.name, p.created, opts.removed.GetOr(now), p.storage);
      MoveToGcKeepsValid(s, k, e);
      (s.(profiles := s.profiles[..k] + s.profiles[k + 1..], gc := s.gc + [e]), true)
  }

  // ---------------------------------------------------------------------
  // Properties relating the operations

  /** Activating through `create` makes the new profile the one `active()`
      reports (test.js: an empty store, then `create({name})`). */
  lemma CreateThenActive(s: Store, opts: CreateOptions, now: int)
    requires opts.active.GetOr(true)
    requires Create(s, opts, now).1.Some?
    ensures Active(Create(s, opts, now).0) == Create(s, opts, now).1
  {
    var (t, p) := Create(s, opts, now);
    var k := FirstActive(t.profiles).value;
    assert OnlyActive(t.profiles, |s.profiles|);
    assert k == |s.profiles|;
  }

  /** On an empty store the default `create` yields profile 0, active, and
      `active()` returns it. */
  lemma EmptyStoreFirstProfile(dir: Path, version: int, name: Option<string>, now: int)
    ensures var s := Store(dir, version, [], []);
            var r := Create(s, CreateOptions(None, None, name, None), now);
            && Active(s).None?
            && r.1 == Some(Profile(0, name, true, now, Storage(dir, 0)))
            && Active(r.0) == r.1
  {
    var s := Store(dir, version, [], []);
    CreateThenActive(s, CreateOptions(None, None, name, None), now);
  }

  /** Appending a profile whose id exceeds every live and pending id, after
      changing only flags, keeps ids unique. */
  lemma AppendFreshKeepsIdsUnique(s: Store, ps: seq<Profile>, p: Profile)
    requires UniqueIds(s) && SameButFlags(s.profiles, ps)
    requires forall i :: 0 <= i < |s.profiles| ==> s.profiles[i].id < p.id
    requires forall j :: 0 <= j < |s.gc| ==> s.gc[j].id < p.id
    ensures UniqueIds(s.(profiles := ps + [p]))
  {
    var qs := ps + [p];
    forall i, j | 0 <= i < j < |qs|
      ensures qs[i].id != qs[j].id
    {
      assert qs[i].id == s.profiles[i].id;
    }
    forall i, j | 0 <= i < |qs| && 0 <= j < |s.gc|
      ensures qs[i].id != s.gc[j].id
    {
    }
  }

  /** A create with the default id keeps every id unique across the live
      and the pending lists: the new id exceeds all of them. */
  lemma DefaultCreateKeepsIdsUnique(s: Store, opts: CreateOptions, now: int)
    requires UniqueIds(s) && opts.id.None?
    ensures Create(s, opts, now).1.Some?
    ensures UniqueIds(Create(s, opts, now).0)
  {
    var id := NextId(s);
    var active := opts.active.GetOr(true);
    var p := Profile(id, opts.name, active, opts.created.GetOr(now), Storage(s.directory, id));
    var ps := if active then MarkAllInactive(s.profiles) else s.profiles;
    assert !Exists(s, id);
    AppendFreshKeepsIdsUnique(s, ps, p);
  }

  /** `update` only changes flags, so it keeps ids unique. */
  lemma UpdateKeepsIdsUnique(s: Store, opts: UpdateOptions)
    requires UniqueIds(s)
    ensures UniqueIds(Update(s, opts).0)
  {
    var t := Update(s, opts).0;
    assert forall i :: 0 <= i < |s.profiles| ==> t.profiles[i].id == s.profiles[i].id by {
      forall i | 0 <= i < |s.profiles|
        ensures t.profiles[i].id == s.profiles[i].id
      {
        assert t.profiles[i].(active := s.profiles[i].active) == s.profiles[i];
      }
    }
  }

  /** `remove` moves one id from the live list to the pending list, so ids
      stay unique. */
  lemma RemoveKeepsIdsUnique(s: Store, opts: RemoveOptions, now: int)
    requires UniqueIds(s)
    ensures UniqueIds(Remove(s, opts, now).0)
  {
    var (t, ok) := Remove(s, opts, now);
    if ok {
      var k := IndexOf(s.profiles, opts.id).value;
      MoveToGcKeepsIdsUnique(s, k, t.gc[|s.gc|]);
    }
  }

  lemma MoveToGcKeepsIdsUnique(s: Store, k: nat, e: GcEntry)
    requires UniqueIds(s) && k < |s.profiles| && e.id == s.profiles[k].id
    ensures UniqueIds(s.(profiles := s.profiles[..k] + s.profiles[k + 1..], gc := s.gc + [e]))
  {
    DeleteAt(s.profiles, k);
    var ps := s.profiles[..k] + s.profiles[k + 1..];
    var gs := s.gc + [e];
    forall i, j | 0 <= i < j < |ps|
      ensures ps[i].id != ps[j].id
    {
      var i' := if i < k then i else i + 1;
      var j' := if j < k then j else j + 1;
      assert ps[i] == s.profiles[i'] && ps[j] == s.profiles[j'];
    }
    forall i, j | 0 <= i < |ps| && 0 <= j < |gs|
      ensures ps[i].id != gs[j].id
    {
      var i' := if i < k then i else i + 1;
      assert ps[i] == s.profiles[i'];
      if j < |s.gc| {
        assert gs[j] == s.gc[j];
      }
    }
    forall i, j | 0 <= i < j < |gs|
      ensures gs[i].id != gs[j].id
    {
      assert gs[i] == s.gc[i];
      if j < |s.gc| {
        assert gs[j] == s.gc[j];
      }
    }
  }

  /** `create` with an explicit id checks only the live profiles, so it
      accepts the id of an entry still pending deletion: the two then share
      one storage directory. */
  lemma ExplicitIdMayReusePendingId(dir: Path, now: int)
    ensures var s := Store(dir, LatestVersion, [], [GcEntry(0, None, 0, 0, Storage(dir, 0))]);
            var r := Create(s, CreateOptions(None, Some(0), None, None), now);
            && UniqueIds(s)
            && r.1.Some?
            && r.1.value.storage == s.gc[0].storage
            && !UniqueIds(r.0)
  {
  }
}
