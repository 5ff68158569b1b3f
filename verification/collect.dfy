/** The garbage-collection sweep (`gc({delay})`, index.js): every pending
    entry whose grace delay has elapsed is taken off the list, its storage
    directory is deleted (best effort) and the store is committed; the rest
    stay pending, in order. The clock is the parameter `now`, read once per
    sweep. */
module Collect {
  import opened Paths
  import opened Registry

  /** An entry stays pending when a (non-zero) delay is given and
      `removed + delay` is still in the future. A zero delay sweeps all. */
  predicate Pending(e: GcEntry, delay: int, now: int): (b: bool)
    ensures delay == 0 ==> !b
    ensures delay != 0 ==> (b <==> now - e.removed < delay)
  {
    delay != 0 && e.removed + delay > now
  }

  /** The entries of `gc`, in order, whose pending status is `pending`. */
  function Select(gc: seq<GcEntry>, delay: int, now: int, pending: bool): (r: seq<GcEntry>)
    ensures |r| <= |gc|
  {
    if |gc| == 0 then []
    else (if Pending(gc[0], delay, now) == pending then [gc[0]] else [])
         + Select(gc[1..], delay, now, pending)
  }

  /** The selection holds only entries of the list with the asked status. */
  lemma {:induction false} SelectMembers(gc: seq<GcEntry>, delay: int, now: int, pending: bool)
    ensures forall e :: e in Select(gc, delay, now, pending) ==> e in gc && Pending(e, delay, now) == pending
  {
    if |gc| > 0 {
      SelectMembers(gc[1..], delay, now, pending);
    }
  }

  /** What the sweep leaves pending: entries of the list still within
      their delay. */
  function Kept(gc: seq<GcEntry>, delay: int, now: int): (r: seq<GcEntry>)
    ensures |r| <= |gc|
    ensures forall e :: e in r ==> e in gc && Pending(e, delay, now)
  {
    SelectMembers(gc, delay, now, true);
    Select(gc, delay, now, true)
  }

  /** What the sweep deletes: entries of the list past their delay. */
  function Expired(gc: seq<GcEntry>, delay: int, now: int): (r: seq<GcEntry>)
    ensures |r| <= |gc|
    ensures forall e :: e in r ==> e in gc && !Pending(e, delay, now)
  {
    SelectMembers(gc, delay, now, false);
    Select(gc, delay, now, false)
  }

  /** The store after a sweep: only the pending list changes, it loses
      entries and gains none, and what stays is still pending. */
  function Sweep(s: Store, delay: int, now: int): (r: Store)
    ensures r.directory == s.directory && r.version == s.version && r.profiles == s.profiles
    ensures multiset(r.gc) <= multiset(s.gc)
    ensures forall e :: e in r.gc ==> Pending(e, delay, now)
  {
    SweepPartitions(s.gc, delay, now);
    s.(gc := Kept(s.gc, delay, now))
  }

  lemma {:induction false} SelectAppend(gc: seq<GcEntry>, e: GcEntry, delay: int, now: int, pending: bool)
    ensures Select(gc + [e], delay, now, pending)
         == Select(gc, delay, now, pending) + (if Pending(e, delay, now) == pending then [e] else [])
  {
    if |gc| == 0 {
      assert gc + [e] == [e];
    } else {
      var head := if Pending(gc[0], delay, now) == pending then [gc[0]] else [];
      assert (gc + [e])[0] == gc[0];
      assert (gc + [e])[1..] == gc[1..] + [e];
      assert Select(gc + [e], delay, now, pending) == head + Select(gc[1..] + [e], delay, now, pending);
      SelectAppend(gc[1..], e, delay, now, pending);
      assert Select(gc, delay, now, pending) == head + Select(gc[1..], delay, now, pending);
    }
  }

  /** The kept and the deleted entries together are exactly the entries
      the sweep started with: nothing is lost or duplicated. */
  lemma {:induction false} SweepPartitions(gc: seq<GcEntry>, delay: int, now: int)
    ensures multiset(Kept(gc, delay, now)) + multiset(Expired(gc, delay, now)) == multiset(gc)
    ensures |Kept(gc, delay, now)| + |Expired(gc, delay, now)| == |gc|
  {
    if |gc| > 0 {
      SweepPartitions(gc[1..], delay, now);
      assert gc == [gc[0]] + gc[1..];
    }
  }

  /** With delay 0 the sweep empties the pending list. */
  lemma {:induction false} ZeroDelaySweepsAll(gc: seq<GcEntry>, now: int)
    ensures Kept(gc, 0, now) == []
    ensures Expired(gc, 0, now) == gc
  {
    if |gc| > 0 {
      ZeroDelaySweepsAll(gc[1..], now);
      assert gc == [gc[0]] + gc[1..];
    }
  }

  /** With a non-zero delay, an entry stays exactly when less than `delay`
      has passed since its removal. */
  lemma {:induction false} KeptWhileYoung(gc: seq<GcEntry>, delay: int, now: int)
    requires delay != 0
    ensures forall e :: e in Kept(gc, delay, now) <==> e in gc && now - e.removed < delay
    ensures forall e :: e in Expired(gc, delay, now) <==> e in gc && now - e.removed >= delay
  {
    if |gc| > 0 {
      KeptWhileYoung(gc[1..], delay, now);
      assert gc == [gc[0]] + gc[1..];
    }
  }

  /** A sweep keeps a subset of the pending entries, so it keeps ids unique
      and storage paths derived. */
  lemma SweepKeepsInvariants(s: Store, delay: int, now: int)
    ensures StorageDerived(s) ==> StorageDerived(Sweep(s, delay, now))
    ensures UniqueIds(s) ==> UniqueIds(Sweep(s, delay, now))
    ensures Sweep(s, delay, now).profiles == s.profiles
  {
    var t := Sweep(s, delay, now);
    SelectMembers(s.gc, delay, now, true);
    if StorageDerived(s) {
      forall j | 0 <= j < |t.gc|
        ensures t.gc[j].storage == Storage(t.directory, t.gc[j].id)
      {
        assert t.gc[j] in s.gc;
      }
    }
    if UniqueIds(s) {
      KeptIdsUnique(s.gc, delay, now);
      forall i, j | 0 <= i < |t.profiles| && 0 <= j < |t.gc|
        ensures t.profiles[i].id != t.gc[j].id
      {
        assert t.gc[j] in s.gc;
      }
    }
  }

  lemma {:induction false} KeptIdsUnique(gc: seq<GcEntry>, delay: int, now: int)
    requires forall i, j :: 0 <= i < j < |gc| ==> gc[i].id != gc[j].id
    ensures var k := Kept(gc, delay, now);
            forall i, j :: 0 <= i < j < |k| ==> k[i].id != k[j].id
  {
    if |gc| > 0 {
      var rest := Kept(gc[1..], delay, now);
      KeptIdsUnique(gc[1..], delay, now);
      SelectMembers(gc[1..], delay, now, true);
      forall e | e in rest
        ensures e.id != gc[0].id
      {
        var j :| 0 <= j < |gc[1..]| && gc[1..][j] == e;
        assert gc[j + 1] == e;
      }
    }
  }

  /** The state of the sweep loop after examining the first `n` entries of
      `src`: the list `gc` holds the kept ones before index `i` and the
      unexamined ones from `i` on; `deleted` and the commits record the
      others. */
  ghost predicate SweepInv(src: seq<GcEntry>, delay: int, now: int, n: int,
                           gc: seq<GcEntry>, i: int, deleted: seq<GcEntry>, commits: seq<seq<GcEntry>>)
  {
    && 0 <= n <= |src| && 0 <= i <= |gc|
    && gc[..i] == Select(src[..n], delay, now, true)
    && gc[i..] == src[n..]
    && deleted == Select(src[..n], delay, now, false)
    && |gc| + |deleted| == |src|
    && |commits| == |deleted|
    && (forall k :: 0 <= k < |commits| ==> |commits[k]| == |src| - (k + 1))
    && (|commits| > 0 ==> commits[|commits| - 1] == gc)
  }

  /** Every entry of `src` is accounted for, once: in the list or among
      the deleted entries, and likewise in each commit together with the
      entries deleted up to it. A crash after any commit loses no entry. */
  ghost predicate Accounted(src: seq<GcEntry>, gc: seq<GcEntry>, deleted: seq<GcEntry>, commits: seq<seq<GcEntry>>) {
    && |commits| == |deleted|
    && multiset(gc) + multiset(deleted) == multiset(src)
    && (forall k :: 0 <= k < |commits| ==> CommitAccounted(src, deleted, commits, k))
  }

  /** Commit k together with the first k + 1 deleted entries is exactly
      the original list. */
  ghost predicate CommitAccounted(src: seq<GcEntry>, deleted: seq<GcEntry>, commits: seq<seq<GcEntry>>, k: int)
    requires 0 <= k < |commits| <= |deleted|
  {
    multiset(commits[k]) + multiset(deleted[..k + 1]) == multiset(src)
  }

  /** Splicing out entry i and recording it as deleted keeps every entry
      accounted for, in the list itself and in each commit. */
  lemma DropAccounts(src: seq<GcEntry>, gc: seq<GcEntry>, i: nat, deleted: seq<GcEntry>, commits: seq<seq<GcEntry>>)
    requires i < |gc| && Accounted(src, gc, deleted, commits)
    ensures var next := gc[..i] + gc[i + 1..];
            Accounted(src, next, deleted + [gc[i]], commits + [next])
  {
    var next := gc[..i] + gc[i + 1..];
    var deleted' := deleted + [gc[i]];
    var commits' := commits + [next];
    assert gc == gc[..i] + [gc[i]] + gc[i + 1..];
    assert multiset(gc) == multiset(next) + multiset{gc[i]};
    assert multiset(next) + multiset(deleted') == multiset(src);
    forall k | 0 <= k < |commits'|
      ensures CommitAccounted(src, deleted', commits', k)
    {
      if k < |commits| {
        assert CommitAccounted(src, deleted, commits, k);
        assert deleted'[..k + 1] == deleted[..k + 1];
      } else {
        assert deleted'[..k + 1] == deleted';
      }
    }
  }

  /** One step of the sweep that leaves the entry at index i pending. */
  lemma KeepStep(src: seq<GcEntry>, delay: int, now: int, n: int,
                 gc: seq<GcEntry>, i: int, deleted: seq<GcEntry>, commits: seq<seq<GcEntry>>)
    requires SweepInv(src, delay, now, n, gc, i, deleted, commits) && i < |gc|
    requires Pending(gc[i], delay, now)
    ensures SweepInv(src, delay, now, n + 1, gc, i + 1, deleted, commits)
  {
    assert n < |src|;
    assert gc[i] == gc[i..][0] == src[n];
    assert src[..n + 1] == src[..n] + [src[n]];
    SelectAppend(src[..n], src[n], delay, now, true);
    SelectAppend(src[..n], src[n], delay, now, false);
    assert gc[..i + 1] == gc[..i] + [gc[i]];
    assert gc[i + 1..] == gc[i..][1..];
    assert src[n + 1..] == src[n..][1..];
  }

  /** One step of the sweep that splices out the entry at index i. */
  lemma DropStep(src: seq<GcEntry>, delay: int, now: int, n: int,
                 gc: seq<GcEntry>, i: int, deleted: seq<GcEntry>, commits: seq<seq<GcEntry>>)
    requires SweepInv(src, delay, now, n, gc, i, deleted, commits) && i < |gc|
    requires !Pending(gc[i], delay, now)
    ensures var next := gc[..i] + gc[i + 1..];
            SweepInv(src, delay, now, n + 1, next, i, deleted + [gc[i]], commits + [next])
  {
    assert n < |src|;
    assert gc[i] == gc[i..][0] == src[n];
    assert src[..n + 1] == src[..n] + [src[n]];
    SelectAppend(src[..n], src[n], delay, now, true);
    SelectAppend(src[..n], src[n], delay, now, false);
    var next := gc[..i] + gc[i + 1..];
    assert next[..i] == gc[..i];
    assert next[i..] == gc[i + 1..] == gc[i..][1..];
    assert src[n + 1..] == src[n..][1..];
  }

  /** Before the loop nothing is examined, kept or deleted. */
  lemma SweepStart(src: seq<GcEntry>, delay: int, now: int)
    ensures SweepInv(src, delay, now, 0, src, 0, [], [])
    ensures Accounted(src, src, [], [])
  {
    assert src[..0] == [];
  }

  /** One iteration of the sweep: the entry at index i either stays (the
      index advances) or is spliced out, recorded as deleted and committed
      (the index stays, so the next entry is examined at the same index). */
  method SweepEntry(ghost src: seq<GcEntry>, delay: int, now: int, ghost n: int,
                    gc: seq<GcEntry>, i: int, deleted: seq<GcEntry>, commits: seq<seq<GcEntry>>)
    returns (gc': seq<GcEntry>, i': int, deleted': seq<GcEntry>, commits': seq<seq<GcEntry>>)
    requires SweepInv(src, delay, now, n, gc, i, deleted, commits) && i < |gc|
    requires Accounted(src, gc, deleted, commits)
    ensures SweepInv(src, delay, now, n + 1, gc', i', deleted', commits')
    ensures Accounted(src, gc', deleted', commits')
    ensures 0 <= |gc'| - i' < |gc| - i
  {
    var p := gc[i];
    if delay != 0 && p.removed + delay > now {
      KeepStep(src, delay, now, n, gc, i, deleted, commits);
      gc', i', deleted', commits' := gc, i + 1, deleted, commits;
    } else {
      DropStep(src, delay, now, n, gc, i, deleted, commits);
      DropAccounts(src, gc, i, deleted, commits);
      var next := gc[..i] + gc[i + 1..];
      gc', i', deleted', commits' := next, i, deleted + [p], commits + [next];
    }
  }

  /** When the loop has examined every entry, the list is the kept filter,
      the deleted entries are the expired filter, and every commit accounts
      for all entries. */
  lemma SweepDone(src: seq<GcEntry>, delay: int, now: int, n: int,
                  gc: seq<GcEntry>, i: int, deleted: seq<GcEntry>, commits: seq<seq<GcEntry>>)
    requires SweepInv(src, delay, now, n, gc, i, deleted, commits) && i == |gc|
    requires Accounted(src, gc, deleted, commits)
    ensures gc == Kept(src, delay, now) && deleted == Expired(src, delay, now)
    ensures |commits| == |deleted|
    ensures forall k :: 0 <= k < |commits| ==> |commits[k]| == |src| - (k + 1)
    ensures |commits| > 0 ==> commits[|commits| - 1] == gc
    ensures forall k :: 0 <= k < |commits| ==>
              multiset(commits[k]) + multiset(deleted[..k + 1]) == multiset(src)
  {
    assert n == |src|;
    assert src[..n] == src;
    assert gc == gc[..i];
    forall k | 0 <= k < |commits|
      ensures multiset(commits[k]) + multiset(deleted[..k + 1]) == multiset(src)
    {
      assert CommitAccounted(src, deleted, commits, k);
    }
  }

  /** The sweep as written: walks the pending list by index, splicing out
      each expired entry and re-examining the same index, and commits the
      store after every removal. Returns the store after the sweep, the
      entries whose storage it deleted (in order) and the pending list each
      commit writes (the live profiles are the same in every commit). */
  method Collect(s: Store, delay: int, now: int) returns (r: Store, deleted: seq<GcEntry>, commits: seq<seq<GcEntry>>)
    ensures r.directory == s.directory && r.version == s.version && r.profiles == s.profiles
    ensures r.gc == Kept(s.gc, delay, now)
    ensures deleted == Expired(s.gc, delay, now)
    ensures |commits| == |deleted|
    ensures forall k :: 0 <= k < |commits| ==> |commits[k]| == |s.gc| - (k + 1)
    ensures |commits| > 0 ==> commits[|commits| - 1] == r.gc
    ensures forall k :: 0 <= k < |commits| ==>
              multiset(commits[k]) + multiset(deleted[..k + 1]) == multiset(s.gc)
  {
    var gc := s.gc;
    var i := 0;
    ghost var n := 0;
    deleted := [];
    commits := [];
    SweepStart(s.gc, delay, now);
    while i < |gc|
      invariant SweepInv(s.gc, delay, now, n, gc, i, deleted, commits)
      invariant Accounted(s.gc, gc, deleted, commits)
      decreases |gc| - i
    {
      gc, i, deleted, commits := SweepEntry(s.gc, delay, now, n, gc, i, deleted, commits);
      n := n + 1;
    }
    SweepDone(s.gc, delay, now, n, gc, i, deleted, commits);
    r := s.(gc := gc);
  }
}
