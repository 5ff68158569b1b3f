/** Migration of a legacy single-profile directory (`MultiProfileStore.migrate`,
    index.js): a directory marked by a `CORESTORE` file, holding `cores` and
    `db` at its root, becomes profile 0 of a multi-profile store.

    The directory tree is abstracted as the set of paths (relative to the
    registry directory) that exist; renaming a path moves its whole subtree. */
module Migrate {
  import opened Wrappers
  import opened Paths
  import opened Registry
  import opened Persist

  type Layout = set<Path>

  const Marker: Path := ["CORESTORE"]
  const Cores: Path := ["cores"]
  const Db: Path := ["db"]
  /** The destination directory, `0`: profile 0's storage. */
  const Dst: Path := ["0"]
  const DstCores: Path := ["0", "cores"]
  const DstDb: Path := ["0", "db"]

  /** The outcome of a migration: the store it returns and the files and
      layout it leaves behind. */
  datatype Migrated = Migrated(store: Store, disk: Disk, layout: Layout)

  /** Renames `src` to `dst`: every path under `src` reappears under `dst`
      with the same suffix; paths elsewhere stay. */
  function Move(l: Layout, src: Path, dst: Path): (r: Layout)
    ensures forall q :: q in l && !(src <= q) ==> q in r
    ensures forall q :: q in l && src <= q ==> dst + q[|src|..] in r
    ensures forall q :: q in r ==>
              (q in l && !(src <= q)) || (dst <= q && src + q[|dst|..] in l)
  {
    var moved := set q | q in l && src <= q :: dst + q[|src|..];
    assert forall q :: q in moved ==> dst <= q && src + q[|dst|..] in l by {
      forall q | q in moved
        ensures dst <= q && src + q[|dst|..] in l
      {
        var q0 :| q0 in l && src <= q0 && q == dst + q0[|src|..];
        assert q[|dst|..] == q0[|src|..];
        assert src + q0[|src|..] == q0;
      }
    }
    (set q | q in l && !(src <= q)) + moved
  }

  /** `mkdir 0` unless it exists. */
  function MakeDst(l: Layout): (r: Layout)
    ensures r == l + {Dst}
  {
    if Dst !in l then l + {Dst} else l
  }

  /** Renames `src` to `dst` only when `dst` is absent and `src` exists. */
  function MoveIfFree(l: Layout, src: Path, dst: Path): (r: Layout)
    ensures dst in l || src !in l ==> r == l
    ensures dst !in l && src in l ==> r == Move(l, src, dst)
    ensures src in l ==> dst in r
  {
    if dst !in l && src in l then
      assert dst == dst + src[|src|..];
      Move(l, src, dst)
    else l
  }

  /** The file-system half of a migration: create `0`, then move `cores`
      and `db` into it where possible. */
  function AdoptLayout(l: Layout): (r: Layout)
    ensures Dst in r
    ensures forall q :: q in r ==> q in l || Dst <= q
  {
    var m := MakeDst(l);
    var c := MoveIfFree(m, Cores, DstCores);
    assert forall q :: q in c ==> q in l || Dst <= q by {
      forall q | q in c
        ensures q in l || Dst <= q
      {
        if q !in m {
          assert DstCores <= q;
        }
      }
    }
    var r := MoveIfFree(c, Db, DstDb);
    assert Dst in r by {
      LegacyPathsDiffer();
    }
    assert forall q :: q in r ==> q in l || Dst <= q by {
      forall q | q in r
        ensures q in l || Dst <= q
      {
        if q !in c {
          assert DstDb <= q;
        }
      }
    }
    r
  }

  /** `MultiProfileStore.migrate(dir)`. Opens the registry with version 0 as
      the default; returns it untouched when a profile is active; otherwise,
      when the legacy marker exists and the version is 0, adopts the legacy
      layout, bumps the version, creates profile 0 (active, unnamed) and
      deletes the marker. The create commits only when it succeeds. */
  function Migrate(dir: Path, d: Disk, l: Layout, env: CommitEnv, now: int): (r: Result<Migrated, OpenError>)
    ensures r.Failure? <==> Open(dir, d, Some(0)).Failure?
    ensures r.Success? && Active(Open(dir, d, Some(0)).value).Some? ==>
              r.value == Migrated(Open(dir, d, Some(0)).value, d, l)
    ensures r.Success? && (Marker !in l || Open(dir, d, Some(0)).value.version != 0) ==>
              r.value == Migrated(Open(dir, d, Some(0)).value, d, l)
    ensures r.Success? ==> StorageDerived(r.value.store) && r.value.store.directory == dir
    ensures r.Success? ==> Load(r.value.disk) in {Load(d), Some(Serialize(r.value.store))}
  {
    match Open(dir, d, Some(0))
    case Failure(e) => Failure(e)
    case Success(p) =>
      if Active(p).Some? then Success(Migrated(p, d, l))
      else if Marker in l && p.version == 0 then
        var adopted := AdoptLayout(l);
        var (q, created) := Create(p.(version := LatestVersion), CreateOptions(None, Some(0), None, None), now);
        var d' := if created.Some? then Commit(d, Serialize(q), env) else d;
        Success(Migrated(q, d', adopted - {Marker}))
      else Success(Migrated(p, d, l))
  }

  // ---------------------------------------------------------------------
  // The layout steps

  lemma LegacyPathsDiffer()
    ensures !(Cores <= Dst) && !(Db <= Dst) && !(Cores <= DstDb) && !(Db <= DstCores)
    ensures !(Db <= Cores) && !(Cores <= Db) && !(DstDb <= Cores) && !(DstCores <= Db)
    ensures !(DstCores <= Cores) && !(DstDb <= Db) && !(Cores <= Marker) && !(Db <= Marker)
    ensures Marker !in {Dst, DstCores, DstDb}
  {
    assert Cores[0] != Dst[0] && Db[0] != Dst[0] && Cores[0] != Db[0];
    assert Cores[0] != Marker[0] && Db[0] != Marker[0];
  }

  /** After `mkdir 0` and the `cores` step, `0` exists and `cores` is
      settled: either `0/cores` exists or there is no `cores` to move. */
  lemma CoresSettled(l: Layout)
    ensures var c := MoveIfFree(MakeDst(l), Cores, DstCores);
            Dst in c && (DstCores in c || Cores !in c)
  {
    LegacyPathsDiffer();
    var m := MakeDst(l);
    if DstCores !in m && Cores in m {
      assert DstCores == DstCores + Cores[|Cores|..];
    }
  }

  /** After all three steps, `0` exists and both `cores` and `db` are
      settled. */
  lemma AllSettled(l: Layout)
    ensures var a := AdoptLayout(l);
            && Dst in a
            && (DstCores in a || Cores !in a)
            && (DstDb in a || Db !in a)
  {
    LegacyPathsDiffer();
    CoresSettled(l);
    var c := MoveIfFree(MakeDst(l), Cores, DstCores);
    if DstDb !in c && Db in c {
      assert DstDb == DstDb + Db[|Db|..];
      assert Cores in AdoptLayout(l) ==> Cores in c;
    }
  }

  /** Re-running the layout steps after they completed changes nothing. */
  lemma {:induction false} AdoptLayoutIdempotent(l: Layout)
    ensures AdoptLayout(AdoptLayout(l)) == AdoptLayout(l)
  {
    var a := AdoptLayout(l);
    AllSettled(l);
    assert MakeDst(a) == a;
    assert MoveIfFree(a, Cores, DstCores) == a;
  }

  /** A crash after any of the layout steps, followed by a fresh run, ends
      in the same layout as an uninterrupted run. */
  lemma AdoptLayoutResumable(l: Layout)
    ensures AdoptLayout(MakeDst(l)) == AdoptLayout(l)
    ensures AdoptLayout(MoveIfFree(MakeDst(l), Cores, DstCores)) == AdoptLayout(l)
    ensures AdoptLayout(AdoptLayout(l)) == AdoptLayout(l)
  {
    var c := MoveIfFree(MakeDst(l), Cores, DstCores);
    CoresSettled(l);
    assert MakeDst(c) == c;
    assert MoveIfFree(c, Cores, DstCores) == c;
    AdoptLayoutIdempotent(l);
  }

  /** A path of the layout survives a conditional rename, either in place
      (when it is not under the source) or re-rooted at the destination. */
  lemma MoveIfFreeKeeps(l: Layout, src: Path, dst: Path, q: Path)
    requires q in l
    ensures !(src <= q) ==> q in MoveIfFree(l, src, dst)
    ensures src <= q ==> q in MoveIfFree(l, src, dst) || dst + q[|src|..] in MoveIfFree(l, src, dst)
  {
  }

  /** One path of the legacy layout after all layout steps: a path outside
      `cores` and `db` stays; one under them stays or reappears under `0`. */
  lemma Relocated(l: Layout, q: Path)
    requires q in l
    ensures !(Cores <= q) && !(Db <= q) ==> q in AdoptLayout(l)
    ensures Cores <= q || Db <= q ==> q in AdoptLayout(l) || Dst + q in AdoptLayout(l)
  {
    LegacyPathsDiffer();
    var m := MakeDst(l);
    var c := MoveIfFree(m, Cores, DstCores);
    MoveIfFreeKeeps(m, Cores, DstCores, q);
    if Cores <= q {
      assert q == Cores + q[|Cores|..];
      assert DstCores + q[|Cores|..] == Dst + q;
      assert !(Db <= q) by { assert q[0] == Cores[0]; }
      assert !(Db <= Dst + q) by { assert (Dst + q)[0] == Dst[0]; }
      if q in c {
        MoveIfFreeKeeps(c, Db, DstDb, q);
      } else {
        MoveIfFreeKeeps(c, Db, DstDb, Dst + q);
      }
    } else if Db <= q {
      assert q == Db + q[|Db|..];
      assert DstDb + q[|Db|..] == Dst + q;
      MoveIfFreeKeeps(c, Db, DstDb, q);
    } else {
      MoveIfFreeKeeps(c, Db, DstDb, q);
    }
  }

  /** A legacy tree whose destination already exists is left in place. */
  lemma OccupiedDestinationsRespected(l: Layout)
    ensures DstCores in l ==> forall q :: q in l && Cores <= q ==> q in AdoptLayout(l)
    ensures DstDb in l ==> forall q :: q in l && Db <= q ==> q in AdoptLayout(l)
  {
    LegacyPathsDiffer();
    var m := MakeDst(l);
    var c := MoveIfFree(m, Cores, DstCores);
    if DstCores in l {
      assert c == m;
      forall q | q in l && Cores <= q
        ensures q in AdoptLayout(l)
      {
        assert !(Db <= q) by { assert q[0] == Cores[0]; }
        MoveIfFreeKeeps(c, Db, DstDb, q);
      }
    }
    if DstDb in l {
      assert DstDb in c;
      assert AdoptLayout(l) == c;
      forall q | q in l && Db <= q
        ensures q in AdoptLayout(l)
      {
        assert !(Cores <= q) by { assert q[0] == Db[0]; }
        MoveIfFreeKeeps(m, Cores, DstCores, q);
      }
    }
  }

  /** Nothing is lost: every path other than the legacy trees stays where it
      was, and every path under `cores` or `db` either stays or reappears
      under `0`. A tree moves only when its destination was absent, and a
      movable `cores` tree ends up only at `0/cores`. */
  lemma AdoptLayoutKeepsEverything(l: Layout)
    ensures forall q :: q in l && !(Cores <= q) && !(Db <= q) ==> q in AdoptLayout(l)
    ensures forall q :: q in l && (Cores <= q || Db <= q) ==> q in AdoptLayout(l) || Dst + q in AdoptLayout(l)
    ensures DstCores in l ==> forall q :: q in l && Cores <= q ==> q in AdoptLayout(l)
    ensures DstDb in l ==> forall q :: q in l && Db <= q ==> q in AdoptLayout(l)
    ensures Cores in l && DstCores !in l ==> DstCores in AdoptLayout(l) && Cores !in AdoptLayout(l)
  {
    forall q | q in l
      ensures !(Cores <= q) && !(Db <= q) ==> q in AdoptLayout(l)
      ensures Cores <= q || Db <= q ==> q in AdoptLayout(l) || Dst + q in AdoptLayout(l)
    {
      Relocated(l, q);
    }
    OccupiedDestinationsRespected(l);
    if Cores in l && DstCores !in l {
      LegacyPathsDiffer();
      var c := MoveIfFree(MakeDst(l), Cores, DstCores);
      assert DstCores == DstCores + Cores[|Cores|..];
      assert DstCores in c;
      assert Cores !in c;
      assert Cores in AdoptLayout(l) ==> Cores in c;
    }
  }

  // ---------------------------------------------------------------------
  // Migration as a whole

  /** The adopting branch, when the opened registry has no live profile 0:
      the result has version 1, a new active profile 0 whose storage is the
      directory `0` that received the legacy trees, every older profile
      unchanged, the marker gone, and the store committed. */
  lemma MigrateAdopts(dir: Path, d: Disk, l: Layout, env: CommitEnv, now: int)
    requires Open(dir, d, Some(0)).Success?
    requires var p := Open(dir, d, Some(0)).value;
             Active(p).None? && Marker in l && p.version == 0 && !Exists(p, 0)
    ensures var p := Open(dir, d, Some(0)).value;
            var r := Migrate(dir, d, l, env, now);
            && r.Success?
            && r.value.store.version == LatestVersion
            && r.value.store.profiles == p.profiles + [Profile(0, None, true, now, Join(dir, "0"))]
            && Active(r.value.store) == Some(Profile(0, None, true, now, Storage(dir, 0)))
            && r.value.layout == AdoptLayout(l) - {Marker}
            && r.value.disk == Commit(d, Serialize(r.value.store), env)
  {
    var p := Open(dir, d, Some(0)).value;
    var r := Migrate(dir, d, l, env, now);
    var t := r.value.store;
    var n := |p.profiles|;
    StorageOfZero(dir);
    assert t.profiles[..n] == p.profiles by {
      forall i | 0 <= i < n
        ensures t.profiles[i] == p.profiles[i]
      {
        assert t.profiles[..n][i] == t.profiles[i];
        assert !p.profiles[i].active;
      }
    }
    assert t.profiles == t.profiles[..n] + [t.profiles[n]];
    assert OnlyActive(t.profiles, n);
    assert FirstActive(t.profiles) == Some(n);
  }

  /** As written, when the opened registry already has an inactive profile
      0, the adopting branch still moves the trees and deletes the marker,
      but `create` refuses id 0: nothing is committed and no profile is
      active; only the returned store carries version 1. */
  lemma MigrateWithInactiveProfileZero(dir: Path, d: Disk, l: Layout, env: CommitEnv, now: int)
    requires Open(dir, d, Some(0)).Success?
    requires var p := Open(dir, d, Some(0)).value;
             Active(p).None? && Marker in l && p.version == 0 && Exists(p, 0)
    ensures var p := Open(dir, d, Some(0)).value;
            var r := Migrate(dir, d, l, env, now);
            && r.Success?
            && r.value.store == p.(version := LatestVersion)
            && Active(r.value.store).None?
            && r.value.disk == d
            && r.value.layout == AdoptLayout(l) - {Marker}
  {
  }

  /** Running `migrate` a second time changes neither the files nor the
      layout, and reports the same active profile whenever the first run's
      commit is durable; a first run that ended with an active profile is
      reproduced exactly. */
  lemma MigrateTwice(dir: Path, d: Disk, l: Layout, env: CommitEnv, env2: CommitEnv, now: int, now2: int)
    requires Migrate(dir, d, l, env, now).Success?
    ensures var r1 := Migrate(dir, d, l, env, now).value;
            var r2 := Migrate(dir, r1.disk, r1.layout, env2, now2);
            && r2.Success?
            && r2.value.disk == r1.disk
            && r2.value.layout == r1.layout
            && (env.renameOk || (env.isWindows && env.unlinkOk) ==>
                  && Active(r2.value.store) == Active(r1.store)
                  && (Active(r1.store).Some? ==> r2.value.store == r1.store))
  {
    var p := Open(dir, d, Some(0)).value;
    var r1 := Migrate(dir, d, l, env, now).value;
    if Active(p).None? && Marker in l && p.version == 0 {
      var q := r1.store;
      assert Marker !in r1.layout;
      if Exists(p, 0) {
        assert r1.disk == d;
        assert q.profiles == p.profiles;
      } else {
        CreateThenActive(p.(version := LatestVersion), CreateOptions(None, Some(0), None, None), now);
        assert Active(q).Some?;
        if Load(r1.disk) == Some(Serialize(q)) {
          OpenAfterSync(q, r1.disk, Some(0));
        } else {
          assert Load(r1.disk) == Load(d);
          assert Open(dir, r1.disk, Some(0)) == Open(dir, d, Some(0));
        }
      }
    }
  }

  /** A legacy directory with no registry file, holding the marker and a
      `cores` tree, becomes a store with the single active profile 0 whose
      storage directory now holds the `cores` tree. */
  lemma MigrateLegacyDirectory(dir: Path, env: CommitEnv, now: int)
    ensures var l := {Marker, Cores, Cores + ["x"]};
            var r := Migrate(dir, Disk(Missing, Missing), l, env, now);
            && r.Success?
            && r.value.store.version == LatestVersion
            && r.value.store.profiles == [Profile(0, None, true, now, Storage(dir, 0))]
            && DstCores in r.value.layout && DstCores + ["x"] in r.value.layout
            && Cores !in r.value.layout && Marker !in r.value.layout
  {
    var l := {Marker, Cores, Cores + ["x"]};
    var d := Disk(Missing, Missing);
    assert Open(dir, d, Some(0)) == Success(Store(dir, 0, [], []));
    MigrateAdopts(dir, d, l, env, now);
    AdoptLayoutKeepsEverything(l);
    LegacyPathsDiffer();
    assert Dst + (Cores + ["x"]) == DstCores + ["x"];
    assert Cores <= Cores + ["x"];
    assert DstCores + ["x"] !in l;
    assert (Cores + ["x"]) !in AdoptLayout(l) by {
      assert DstCores !in MakeDst(l);
      assert Cores + ["x"] !in Move(MakeDst(l), Cores, DstCores) by {
        assert !(DstCores <= Cores + ["x"]);
      }
      assert !(DstDb <= Cores + ["x"]);
    }
  }
}
