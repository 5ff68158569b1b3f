/** Sequences of lifecycle calls on one store, each with the clock reading
    it observes, and the invariants every such sequence keeps. */
module Traces {
  import opened Wrappers
  import opened Registry
  import opened Collect

  datatype Call =
    | CreateCall(createOpts: CreateOptions, now: int)
    | UpdateCall(updateOpts: UpdateOptions)
    | RemoveCall(removeOpts: RemoveOptions, now: int)
    | CollectCall(delay: int, now: int)

  /** The store after one call. */
  function Step(s: Store, c: Call): Store {
    match c
    case CreateCall(opts, now) => Create(s, opts, now).0
    case UpdateCall(opts) => Update(s, opts).0
    case RemoveCall(opts, now) => Remove(s, opts, now).0
    case CollectCall(delay, now) => Sweep(s, delay, now)
  }

  /** The store after the calls, in order. */
  function Replay(s: Store, calls: seq<Call>): Store
    decreases |calls|
  {
    if |calls| == 0 then s else Replay(Step(s, calls[0]), calls[1..])
  }

  /** No create in the sequence names its own id. */
  predicate DefaultIdsOnly(calls: seq<Call>) {
    forall k :: 0 <= k < |calls| && calls[k].CreateCall? ==> calls[k].createOpts.id.None?
  }

  /** After any sequence of create, update, remove and gc calls, at most one
      live profile is active and every storage path is the derived one. */
  lemma {:induction false} ReplayKeepsValid(s: Store, calls: seq<Call>)
    requires Valid(s)
    ensures Valid(Replay(s, calls))
    decreases |calls|
  {
    if |calls| > 0 {
      var t := Step(s, calls[0]);
      if calls[0].CollectCall? {
        SweepKeepsInvariants(s, calls[0].delay, calls[0].now);
      }
      assert Valid(t);
      ReplayKeepsValid(t, calls[1..]);
    }
  }

  /** When every create takes the default id, no id is ever shared between
      two live profiles, two pending entries, or a live profile and a
      pending entry. */
  lemma {:induction false} ReplayKeepsIdsUnique(s: Store, calls: seq<Call>)
    requires UniqueIds(s) && DefaultIdsOnly(calls)
    ensures UniqueIds(Replay(s, calls))
    decreases |calls|
  {
    if |calls| > 0 {
      var c := calls[0];
      match c {
        case CreateCall(opts, now) => DefaultCreateKeepsIdsUnique(s, opts, now);
        case UpdateCall(opts) => UpdateKeepsIdsUnique(s, opts);
        case RemoveCall(opts, now) => RemoveKeepsIdsUnique(s, opts, now);
        case CollectCall(delay, now) => SweepKeepsInvariants(s, delay, now);
      }
      assert DefaultIdsOnly(calls[1..]) by {
        forall k | 0 <= k < |calls[1..]| && calls[1..][k].CreateCall?
          ensures calls[1..][k].createOpts.id.None?
        {
          assert calls[1..][k] == calls[k + 1];
        }
      }
      ReplayKeepsIdsUnique(Step(s, c), calls[1..]);
    }
  }

  /** Two default creates on an empty store give profiles 0 and 1, the
      second one active. */
  lemma CreateTwoOnEmpty(dir: Paths.Path, now: int)
    ensures var s0 := Store(dir, LatestVersion, [], []);
            var (s1, a) := Create(s0, CreateOptions(None, None, Some("a"), None), now);
            var (s2, b) := Create(s1, CreateOptions(None, None, Some("b"), None), now);
            && a.Some? && b.Some? && a.value.id == 0 && b.value.id == 1
            && s2.profiles == [a.value.(active := false), b.value] && s2.gc == []
  {
    var s0 := Store(dir, LatestVersion, [], []);
    var pa := Profile(0, Some("a"), true, now, Paths.Storage(dir, 0));
    var s1 := s0.(profiles := [pa]);
    assert NextId(s0) == 0;
    assert Create(s0, CreateOptions(None, None, Some("a"), None), now) == (s1, Some(pa));
    var pb := Profile(1, Some("b"), true, now, Paths.Storage(dir, 1));
    assert NextId(s1) == 1;
    assert !Exists(s1, 1);
    assert MarkAllInactive(s1.profiles) == [pa.(active := false)];
    assert MarkAllInactive(s1.profiles) + [pb] == [pa.(active := false), pb];
    assert Create(s1, CreateOptions(None, None, Some("b"), None), now)
        == (s1.(profiles := [pa.(active := false), pb]), Some(pb));
  }

  /** Removing profile 0 from the store the two creates leave moves it to
      the pending list, which a delay-0 sweep then empties. */
  lemma RemoveFirstOfTwo(dir: Paths.Path, now: int)
    ensures var pa := Profile(0, Some("a"), false, now, Paths.Storage(dir, 0));
            var pb := Profile(1, Some("b"), true, now, Paths.Storage(dir, 1));
            var s2 := Store(dir, LatestVersion, [pa, pb], []);
            var e := GcEntry(0, Some("a"), now, now, Paths.Storage(dir, 0));
            && Remove(s2, RemoveOptions(0, None), now) == (s2.(profiles := [pb], gc := [e]), true)
            && Sweep(s2.(profiles := [pb], gc := [e]), 0, now).gc == []
  {
    var pa := Profile(0, Some("a"), false, now, Paths.Storage(dir, 0));
    var pb := Profile(1, Some("b"), true, now, Paths.Storage(dir, 1));
    var s2 := Store(dir, LatestVersion, [pa, pb], []);
    assert IndexOf(s2.profiles, 0) == Some(0);
    var e := GcEntry(0, Some("a"), now, now, Paths.Storage(dir, 0));
    assert s2.profiles[..0] + s2.profiles[1..] == [pb];
    assert s2.gc + [e] == [e];
    assert Remove(s2, RemoveOptions(0, None), now) == (s2.(profiles := [pb], gc := [e]), true);
    ZeroDelaySweepsAll([e], now);
  }

  /** Two profiles created on an empty store, then the first removed: the
      list holds only the second, and a gc with delay 0 empties the pending
      list. */
  lemma CreateTwoRemoveFirst(dir: Paths.Path, now: int)
    ensures var s0 := Store(dir, LatestVersion, [], []);
            var (s1, a) := Create(s0, CreateOptions(None, None, Some("a"), None), now);
            var (s2, b) := Create(s1, CreateOptions(None, None, Some("b"), None), now);
            var (s3, ok) := Remove(s2, RemoveOptions(a.value.id, None), now);
            && ok
            && List(s3) == [b.value]
            && |s3.gc| == 1 && s3.gc[0].id == a.value.id
            && Sweep(s3, 0, now).gc == []
  {
    CreateTwoOnEmpty(dir, now);
    RemoveFirstOfTwo(dir, now);
  }
}
