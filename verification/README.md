# multi-profile-store, modelled in Dafny

`MultiProfileStore` (index.js) is a durable registry of profiles. Each profile
owns a storage directory named after its id, and at most one profile is
active. Removing a profile does not delete its directory at once: it moves
the profile to a pending-deletion ("gc") list, and a later `gc` sweep deletes
directories whose grace delay has passed. Every mutation commits the whole
registry with a write-ahead protocol: write `profiles-next.json`, then rename
it onto `profiles.json`. `open` loads the registry and `migrate` turns a
legacy single-profile directory into profile 0.

The model is a set of pure functions over immutable values. There is one
module per responsibility:

- `Paths` (paths.dfy): abstract paths, the decimal form of an id, and the
  derived storage directory `Storage(dir, id)`.
- `Registry` (registry.dfy): profiles, gc entries and the store. It holds the
  invariants (at most one active profile, derived storage paths, unique ids),
  the linear scans (`exists`, `active()`), id allocation (`_next`), and
  `create`, `update` and `remove`.
- `Collect` (collect.dfy): the gc sweep. It has a reference filter
  (`Kept`/`Expired`) and the splice-while-iterating loop as written
  (`Collect.Collect`).
- `Persist` (persist.dfy): the record `sync` writes, the constructor, the
  two-file commit with its crash points, and `open`.
- `Migrate` (migrate.dfy): `migrate`. The directory tree is a set of
  relative paths, and renaming moves a whole subtree.
- `Traces` (traces.dfy): arbitrary call sequences and the invariants they
  keep.

Parameters stand in for the environment:

- The clock (`Date.now()`) is `now`.
- The platform test (`isWindows`) and the results of the best-effort unlink
  and rename are a `CommitEnv`.
- The two registry files are a `Disk` with slots `main` and `next`. Each
  slot is missing, unreadable, or holds a parsed record.

## Model

| member | source | states |
|---|---|---|
| Paths.Decimal | index.js:18 | the id's string form, as `id + ''` gives it: non-empty, digits only, no leading zero except for 0 itself |
| Paths.ParseDecimalInvertsDecimal | index.js:18 | reading the decimal form back gives the id |
| Paths.Storage | index.js:18 | a profile's storage directory is the registry directory joined with the id's decimal form, one name deeper |
| Paths.StorageInjective | index.js:131 | two ids share a storage directory exactly when they are equal |
| Paths.StorageOfZero | index.js:201 | the directory `0` that migration fills is profile 0's storage directory |
| Registry.IndexOf | index.js:90-100 | the index found is the first live profile with the id; none is found exactly when no live profile has it |
| Registry.Exists | index.js:83-88 | true exactly when some live profile has the id |
| Registry.FirstActive | index.js:165-170 | the index found is the first active profile; none is found exactly when no profile is active |
| Registry.Active | index.js:165-170 | no result exactly when no profile is active; otherwise the first active live profile (even when a loaded file marks several active), and under the invariant no other profile is active |
| Registry.List | index.js:161-163 | an id is listed exactly when `exists` reports it, and the profile `active()` returns is listed |
| Registry.MarkAllInactive | index.js:103-107 | every flag is cleared and every other field of every profile is kept |
| Registry.NextAfter | index.js:112-118 | the fold over one list is at least its start value, exceeds every id in the list, and is either the start value or some id plus one |
| Registry.NextId | index.js:109-121 | exceeds every live and pending id, is 0 when both lists are empty, and is otherwise some id plus one (the maximum plus one) |
| Registry.Create | index.js:123-138 | refused (store unchanged) exactly when an explicit id is already live; otherwise appends one profile with the given or default fields and derived storage, the default id being exactly `_next()`; earlier profiles change only in their flags, and only when the new one is active, which is then the only active one; a default id exceeds every live and pending id; keeps at most one active |
| Registry.Update | index.js:90-101 | unknown id: no result, store unchanged; otherwise only flags change, the first profile with the id gets the requested flag, and activating leaves exactly that profile active while deactivating changes nothing else; keeps at most one active |
| Registry.Remove | index.js:140-159 | returns true exactly when the id is live; deletes exactly the first profile with it, keeps the others in order with their flags, and appends one gc entry with its id, name, created, storage and the given or current removal time; removing the active profile leaves none active; an unknown id changes nothing |
| Registry.CreateThenActive | test.js:4-14 | after a successful activating create, `active()` returns the created profile |
| Registry.EmptyStoreFirstProfile | test.js:7-13 | on an empty store `active()` has no result, and the default create gives profile 0, active and named as asked, which `active()` then returns |
| Registry.DefaultCreateKeepsIdsUnique | index.js:123-124 | a default-id create always succeeds and keeps ids unique across live and pending lists |
| Registry.UpdateKeepsIdsUnique | index.js:90-101 | update keeps ids unique |
| Registry.RemoveKeepsIdsUnique | index.js:140-159 | remove keeps ids unique across live and pending lists |
| Registry.MoveToGcKeepsIdsUnique | index.js:145-152 | moving one live profile's id into the pending list keeps ids unique |
| Registry.ExplicitIdMayReusePendingId | index.js:123-124 | create with an explicit id that is only pending succeeds and shares that entry's storage directory, breaking id uniqueness |
| Collect.Pending | index.js:74 | a zero delay never keeps an entry; a non-zero delay keeps it exactly while less than the delay has passed since its removal |
| Collect.Select | index.js:74 | the selection is no longer than the list |
| Collect.SelectMembers | index.js:74 | every selected entry is an entry of the list with the asked pending status |
| Collect.SelectAppend | index.js:72-80 | filtering a list with one more entry at its end adds that entry exactly when its status is the asked one, after the filtered prefix |
| Collect.Kept | index.js:74-75 | what stays pending is a sub-list of entries of the list that are still pending |
| Collect.Expired | index.js:74-78 | what gets deleted is a sub-list of entries of the list that are no longer pending |
| Collect.Sweep | index.js:71-81 | only the pending list changes; it loses entries and gains none, and every entry left is still pending |
| Collect.SweepPartitions | index.js:72-80 | kept and deleted entries together are exactly the original entries, as a multiset and by count |
| Collect.ZeroDelaySweepsAll | index.js:71-75 | with delay 0 nothing is kept and everything is deleted |
| Collect.KeptWhileYoung | index.js:74 | with a non-zero delay an entry is kept exactly when less than the delay has passed since its removal, and deleted otherwise |
| Collect.KeptIdsUnique | index.js:75 | the kept entries keep distinct ids |
| Collect.SweepKeepsInvariants | index.js:71-81 | a sweep leaves the live profiles untouched and keeps derived storage paths and unique ids |
| Collect.Collect | index.js:71-81 | the splice-while-iterating loop leaves exactly the order-preserving filter of still-pending entries, deletes the others in order, and commits once per deletion with one fewer entry each time; each commit together with the entries deleted up to it is exactly the original pending list, so a crash after any commit loses no entry; the last commit is the final list |
| Collect.SweepEntry | index.js:72-79 | one iteration either keeps the entry and advances, or splices it out, records it as deleted and commits, keeping every entry accounted for |
| Persist.Serialize | index.js:33-52 | the written record has every key, one record per profile and per pending entry, with the same ids in the same order |
| Persist.SerializeInjective | index.js:33-52 | with derived storage paths in one directory, two stores write the same record exactly when they are equal |
| Persist.Construct | index.js:8-31 | the constructed store has derived storage paths, and serialising it gives back exactly the loaded version and records |
| Persist.ConstructAsWritten | index.js:22-30 | the constructor as written fails exactly when the record has a pending entry, and otherwise builds what `Construct` builds |
| Persist.PendingEntryBreaksConstructAsWritten | index.js:22-30 | a record `sync` wrote for a store with a pending entry fails the constructor as written, while `Construct` rebuilds the store |
| Persist.ConstructInvertsSerialize | index.js:33-52 | constructing from what `sync` writes gives back the store, when its storage paths are derived |
| Persist.Load | index.js:173-186 | reads `profiles.json` if readable, else `profiles-next.json` if readable, else nothing |
| Persist.CommitSteps | index.js:54-68 | after each step of the commit, a load sees either what it saw before or the new record, never anything else |
| Persist.TornWrite | index.js:55 | a crash during the write leaves `profiles.json` as it was and `profiles-next.json` unreadable |
| Persist.TornWriteAfterWindowsCommit | index.js:54-68 | after a Windows commit whose delete succeeded and whose rename failed, the commit is visible, but a torn next write leaves nothing readable and `open` returns an empty registry |
| Persist.Commit | index.js:54-68 | after the commit a load sees the new record exactly when the rename succeeded, the old file was deleted on Windows, or no readable `profiles.json` shadowed it; otherwise it still sees the old record |
| Persist.Open | index.js:172-195 | for the loaded record (or an empty one when no file is readable), the version is the record's own or else the requested one or else the latest; it fails, reporting that version, exactly when it is above the latest; on success the store's record is that version with the loaded lists, missing ones empty, and storage paths are derived |
| Persist.OpenAfterSync | index.js:172-194 | opening files that load what `sync` wrote for a store gives that store back |
| Persist.CommitThenOpen | index.js:54-68 | a commit whose rename or Windows delete succeeded, followed by `open`, reproduces the committed store |
| Migrate.AdoptLayout | index.js:203-212 | afterwards `0` exists and every path that was not there before lies under `0` |
| Migrate.Move | index.js:207-212 | a rename keeps every path outside the source, re-roots every path under it at the destination, and adds nothing else |
| Migrate.MakeDst | index.js:204-206 | afterwards `0` exists and nothing else was added |
| Migrate.MoveIfFree | index.js:207-212 | moves only when the destination is absent and the source exists, and otherwise changes nothing; whenever the source existed, the destination exists afterwards |
| Migrate.Migrate | index.js:197-219 | fails exactly when `open` fails; with an active profile, or without the marker, or at a non-zero version, returns the opened store and touches nothing; the result has derived storage and its files load either as before or as the returned store |
| Migrate.CoresSettled | index.js:204-209 | after `mkdir 0` and the `cores` step, `0` exists and either `0/cores` exists or there is no `cores` |
| Migrate.AllSettled | index.js:204-212 | after all layout steps, `0` exists and both `cores` and `db` are settled |
| Migrate.AdoptLayoutIdempotent | index.js:203-212 | running the layout steps again changes nothing |
| Migrate.AdoptLayoutResumable | index.js:203-212 | a crash after any layout step followed by a fresh run ends in the same layout as an uninterrupted run |
| Migrate.AdoptLayoutKeepsEverything | index.js:207-212 | no path is lost; `cores` and `db` paths stay or reappear under `0`; a tree whose destination exists is not moved; a movable `cores` ends up only at `0/cores` |
| Migrate.MigrateAdopts | index.js:203-216 | with the marker, version 0, no active and no live profile 0: version 1, the old profiles plus a new active unnamed profile 0 whose storage is `0`, the marker gone, and the store committed |
| Migrate.MigrateWithInactiveProfileZero | index.js:213-215 | when an inactive profile 0 is already live, the trees move and the marker goes, but nothing is committed and no profile is active |
| Migrate.MigrateTwice | index.js:197-219 | a second run succeeds and leaves files and layout as the first left them; after a durable commit it reports the same active profile, and the same store when one is active |
| Migrate.MigrateLegacyDirectory | index.js:197-219 | an unregistered legacy directory with the marker and a `cores` tree ends with the single active profile 0, version 1, the tree under `0/cores` and no marker |
| Traces.ReplayKeepsValid | index.js:123-159 | any sequence of create, update, remove and gc calls keeps at most one profile active and storage paths derived |
| Traces.ReplayKeepsIdsUnique | index.js:109-159 | any such sequence whose creates use default ids keeps ids unique across live and pending lists |
| Traces.CreateTwoOnEmpty | index.js:103-138 | two default creates on an empty store give profiles 0 and 1, the first now inactive and the second active, and no pending entries |
| Traces.RemoveFirstOfTwo | index.js:140-163 | removing profile 0 from that store leaves only profile 1 live and one pending entry with the removal time `now`, which a delay-0 sweep removes |
| Traces.CreateTwoRemoveFirst | index.js:140-163 | two creates then removing the first: the list holds only the second, the pending list holds the first, and a delay-0 sweep empties it |

## Design notes

- Id uniqueness across the live and pending lists holds only for default ids.
  `create` checks only live profiles before accepting an explicit id
  (index.js:124). So an id whose gc entry is still pending can be reused, and
  the new profile then shares that entry's directory
  (`Registry.ExplicitIdMayReusePendingId`). `migrate` creates id 0
  explicitly.
- `remove` activates no other profile, so removing the active profile leaves
  none active.
- The commit is not crash-safe on Windows. When the delete of
  `profiles.json` succeeds and the rename fails, only `profiles-next.json`
  remains, and the next commit rewrites that very file in place. A crash
  during that write leaves no readable registry, and `open` starts from
  an empty one (`Persist.TornWriteAfterWindowsCommit`).
- In `migrate`, if an inactive profile 0 already exists, `create` refuses it
  (index.js:214). The marker is still deleted and the version bump stays in
  memory only. A later run sees no marker and no active profile.

## Left out

- Real file-system effects (`mkdirSync`, `writeFileSync`, `renameSync`,
  `unlinkSync`, `rmSync`, `existsSync`): the registry files are two slots and
  the directory tree is a set of paths.
- Failures in writing `profiles-next.json`, creating the directory, or the
  renames inside `migrate`: these are taken to succeed.
- Creating the registry directory in `sync` (index.js:54): not modelled.
- The gc sweep's best-effort recursive delete: `Collect.Collect` returns the
  deleted entries and ignores errors, as the source does.
- JSON text encoding and parsing: a slot holds a structured record or is
  unreadable. A file that parses to a falsy value (`null`, `0`) counts as
  unreadable, which matches `if (!config)`.
- `path.join` platform rules: paths are sequences of names and `Join`
  appends one name.
- index.js:28 passes the numeric id itself to `path.join` for gc entries,
  where line 18 and line 131 pass its string form. Node's `path.join` throws
  a type error on a non-string segment, so as written the constructor throws
  for every loaded pending entry, and `open` and `migrate` fail on any
  registry that still has one. `Persist.ConstructAsWritten` models that
  failure (see Findings below); `Persist.Construct`, `Persist.OpenAfterSync`,
  `Persist.CommitThenOpen` and the rest of the model use the evidently
  intended string form.
- JavaScript number semantics: ids are natural numbers, and versions and
  timestamps are integers. Fractional, negative or non-numeric values are
  not modelled. Neither is the exponent notation `id + ''` uses for very
  large ids.
- `null` versus `undefined` names: both are `None`. A stored version of
  `null` is not `undefined`, so `open` keeps it (and `null <= 1` holds);
  the model's missing version is only the absent key.
- Persist.CommitSteps: the write of `profiles-next.json` is one atomic step
  there. `writeFileSync` truncates and then writes, so a crash mid-write
  leaves a file `JSON.parse` rejects; `Persist.TornWrite` and
  `Persist.TornWriteAfterWindowsCommit` model that case, in which a load
  sees neither record and the registry opens empty.
- Non-boolean `active` values in a loaded record: the model's flag is a
  boolean, so `!!p.active` is the identity.
- Object identity: `create` and `update` return the stored object itself, so
  later mutation shows through it. The model returns values. `list()`
  returns the live list by value.
- Collect.Collect: reads the clock once per sweep (`now`). The source calls
  `Date.now()` for each entry it examines.
- The test harness (`brittle`, temporary directories).

## Findings

| source | as written | input that shows it | evidently intended | confidence | as-written member | corrected member |
|---|---|---|---|---|---|---|
| index.js:28 | `storage: path.join(dir, p.id)` with the numeric id | any registry file with one pending entry, for example after `create` then `remove` | `path.join(dir, p.id + '')`, as line 18 does | not executed; Node's `path.join` rejects non-string segments | Persist.PendingEntryBreaksConstructAsWritten | Persist.Construct |
