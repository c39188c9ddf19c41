# Delta-aware directory synchroniser, modelled in Dafny

This project models `syncDirectory` from `search-tools/sync.js`. It walks a
source tree and makes a destination tree mirror it. Each entry below the
source root gets one decision:

- an excluded entry is skipped together with its whole subtree;
- a symlink is replaced at the destination by a symlink with the same literal
  target, and failures of that step are ignored;
- a directory is created at the destination, with any missing parents, and
  then walked;
- a regular file is skipped when its stat signature (size and mtime) says the
  destination is current; otherwise it is copied through `copyWithRetry`, a
  bounded retry loop with a linear backoff.

Modules, one per component:

- `Wrappers` (`wrappers.dfy`): `Option` and `Outcome`.
- `Fs` (`fs.dfy`): the filesystem as a map from paths (sequences of names) to
  `File(mtime, size, content)`, `Dir` or `Symlink(target)`. Class
  `FileSystem` is the destination. Its methods are the `fs/promises` calls the
  walk makes on it: `mkdir` with `recursive`, `rm` with `force`, `symlink`,
  `copyFile` and `stat`.
- `Retry` (`retry.dfy`): `CopyWithRetry`, the loop itself, and `Run`, a
  recursive reference definition of the loop. The loop is proved equal to
  `Run`, and the promised properties are lemmas about `Run`.
- `Exclusion` (`exclusion.dfy`): `String.prototype.includes` as `Contains`, the
  relative path, and the `exclude.some(...)` test.
- `Delta` (`delta.dfy`): the skip predicate.
- `Sync` (`sync.dfy`): the walk. `SyncDir` is the inner `sync` function.
  `SyncEntry` is one task body, with its branches `ReplaceLink` and
  `SyncFile`. `SyncDirectory` is the entry point. The specification is an
  overlay: `Apply(d, S)` writes each entry's `Effect` at that entry's
  destination path. `Subtree` is the set of entries the walk visits.
  `NoneFails` says when the run succeeds.
- `SyncProperties` (`sync_properties.dfy`): what a successful run leaves,
  entry by entry, and idempotence.
- `SyncScenario` (`scenario.dfy`): a worked example. The source tree is
  `a.txt`, `sub/b.txt` and `link -> a.txt`, and the destination starts empty.

The source tree is an immutable snapshot, keyed by paths relative to the
source root; the key `[]` is the root itself. The destination is keyed by
absolute paths, and `[]` is the filesystem root. The environment is supplied
as parameters (`Sync.Env`):

- the clock reading that copies are stamped with;
- the result of each copy attempt, given per source entry and attempt number.

The walk is sequential. The order of the entries of one directory is left
open: the loop picks any remaining name.

Two details of the code shape the model.

- The symlink branch calls `rm` with `force` but without `recursive`, so a
  directory at the destination is not removed. The following `symlink` call
  then fails with EEXIST, and both failures are ignored. The model keeps the
  directory (`Sync.Effect`, `SyncProperties.SymlinkMirrored`).
- The exclusion test checks the bare name as well as the relative path. The
  name is the last part of the relative path, so the name test can never
  exclude anything the path test misses (`Exclusion.NameTestSubsumed`).

## Model

| member | source | states |
|---|---|---|
| `Fs.MkdirAll` | search-tools/sync.js:27 | a recursive mkdir makes every prefix of the path a directory, keeps every existing entry and touches nothing but those prefixes |
| `Fs.MkdirChild` | search-tools/sync.js:27-30 | when a directory's parents already exist, the recursive mkdir of a child succeeds exactly when the child's path is free or already a directory, and then only that path becomes a directory |
| `Fs.MkdirExisting` | search-tools/sync.js:27 | a recursive mkdir of a path whose prefixes are all directories succeeds and changes nothing |
| `Fs.FileSystem.Stat` | search-tools/sync.js:52 | `stat(destPath).catch(() => null)`: the size and mtime of a regular file at the path, and no signature for a missing path (nor, in this model, for a directory or a symlink); its use in the skip test is stated by `SyncProperties.FileMirrored` |
| `Fs.FileSystem.MkdirRecursive` | search-tools/sync.js:27 | `mkdir(p, {recursive: true})` fails, changing nothing, when a prefix is a non-directory; otherwise it creates the missing prefixes |
| `Fs.FileSystem.Remove` | search-tools/sync.js:42 | `rm(p, {force: true})` succeeds on a missing path or a non-directory and removes it; it refuses a directory |
| `Fs.FileSystem.Symlink` | search-tools/sync.js:43 | `symlink(target, p)` creates a link to the literal target when p is free, and fails otherwise |
| `Fs.FileSystem.CopyFile` | search-tools/sync.js:10 | one `copyFile` attempt writes the source's size and bytes, stamped with the clock, only when the attempt reports success |
| `Retry.CopyWithRetry` | search-tools/sync.js:7-20 | the loop's status, attempt count and waits equal those of the reference run `Run`; the destination holds the copy exactly when the status is `Copied`, and is unchanged otherwise |
| `Retry.Run` | search-tools/sync.js:8-19 | the reference definition of the retry loop from counter value i: status, attempt count and waits. `Retry.CopyWithRetry` is proved equal to it, and the lemmas below state its properties |
| `Retry.Transient` | search-tools/sync.js:13 | an error is retried only when its code is exactly "EBUSY" or "EACCES"; success and every other code are not; `Retry.RunShape` and `Retry.FailureCause` state its use |
| `Retry.Backoff` | search-tools/sync.js:14 | the wait after failed attempt i is `100 * (i + 1)` ms; `Retry.WaitSchedule` proves the waits of a run are 100, 200, ... ms |
| `Retry.RunShape` | search-tools/sync.js:8-18 | from any counter value: at most maxRetries attempts, a wait of `100*(i+1)` after each retried attempt, every attempt but the last transient, success on the last attempt. A failure carries the last attempt's error, which is non-transient or came on the final attempt |
| `Retry.AttemptsBounded` | search-tools/sync.js:8-20 | between 1 and maxRetries attempts when maxRetries > 0; with maxRetries <= 0 no attempt is made and the call returns normally |
| `Retry.WaitSchedule` | search-tools/sync.js:12-16 | waits are 100, 200, ... ms, one per retried attempt, none after the last attempt; only EBUSY/EACCES failures precede the last attempt |
| `Retry.FailureCause` | search-tools/sync.js:12-17 | a thrown error is the last attempt's error; an EBUSY or EACCES error is thrown only on attempt maxRetries |
| `Retry.StopsAtFirstSuccess` | search-tools/sync.js:10-11 | if attempt k succeeds after transient failures, the run stops there with k+1 attempts |
| `Retry.CopiedIff` | search-tools/sync.js:8-18 | the copy succeeds exactly when some attempt k < maxRetries succeeds and every attempt before it failed with EBUSY or EACCES |
| `Retry.RetryThenSucceed` | search-tools/sync.js:7-17 | with the default of 3: two transient failures then success give 3 attempts and waits of 100 and 200 ms |
| `Retry.RetryExhausted` | search-tools/sync.js:7-17 | with the default of 3: three transient failures throw the third error after waits of 100 and 200 ms |
| `Exclusion.Contains` | search-tools/sync.js:35 | `String.prototype.includes`, by scanning the string's suffixes; `Exclusion.ContainsIff` proves it equals the slice definition |
| `Exclusion.RelativePath` | search-tools/sync.js:32-33 | `path.relative(rootSrc, srcPath)`: the entry's names from the source root joined with `/`; `Exclusion.NameInRelativePath` proves the entry name ends it |
| `Exclusion.Excluded` | search-tools/sync.js:35 | the `exclude.some(...)` test on the name or the relative path; `Exclusion.NameTestSubsumed` and `Exclusion.ExclusionInherited` state its properties |
| `Exclusion.ContainsAt` | search-tools/sync.js:35 | `includes` finds every slice of the string that equals the pattern |
| `Exclusion.ContainsWitness` | search-tools/sync.js:35 | when `includes` holds, the pattern is a slice of the string |
| `Exclusion.ContainsIff` | search-tools/sync.js:35 | `includes(p)` holds exactly when p is a slice of the string |
| `Exclusion.ContainsInSlice` | search-tools/sync.js:35 | a pattern found in a slice of a string is found in the string |
| `Exclusion.NameInRelativePath` | search-tools/sync.js:32-35 | a pattern found in an entry's name is found in its relative path |
| `Exclusion.NameTestSubsumed` | search-tools/sync.js:35 | an entry is excluded exactly when its relative path contains one of the substrings |
| `Exclusion.ExclusionInherited` | search-tools/sync.js:33-35 | when a directory is excluded, each of its children is excluded too |
| `Delta.Skip` | search-tools/sync.js:54 | the skip test: a destination signature exists, the source mtime is at most the destination's, and the sizes are equal; `Delta.CopyIsCurrent` and `SyncProperties.FileMirrored` state its use |
| `Delta.CopyIsCurrent` | search-tools/sync.js:54 | a copy stamped `now` passes the skip test exactly when the source is no newer than `now` |
| `Sync.Children` | search-tools/sync.js:28 | `readdir` lists exactly the names n for which rel/n is a source entry |
| `Sync.DestPath` | search-tools/sync.js:37 | the destination of a source entry is the destination root followed by the entry's names below the source root; `Sync.Image` and `SyncProperties.SyncedAt` state its use |
| `Sync.Subtree` | search-tools/sync.js:28-48 | the entries a walk of a directory visits: exactly the source entries below it whose every step down is a listed, non-excluded entry and whose every ancestor below it is a directory; `Sync.ClosureShape`, `Sync.SubtreeCovered` and `SyncProperties.ExcludedNotVisited` state its shape |
| `Sync.ClosureShape` | search-tools/sync.js:35-48 | the walk visits nothing under an excluded child. It visits a non-excluded child itself, and for a directory also that child's whole subtree |
| `Sync.SubtreeCovered` | search-tools/sync.js:28-30 | every entry the walk of a directory visits lies under one of its listed children |
| `Sync.ToCopy` | search-tools/sync.js:49-56 | a regular file entry is copied when its destination fails the skip test |
| `Sync.Fails` | search-tools/sync.js:27-59 | an entry fails the run when it is a directory whose destination path is a non-directory (mkdir fails), or a file that needs a copy whose retry run throws; a symlink never fails |
| `Sync.Effect` | search-tools/sync.js:37-59 | what an entry that does not fail leaves at its destination path: a directory, the link (or the directory already there), a fresh copy or the unchanged current file; the walk methods are proved to leave exactly these |
| `Sync.Image` | search-tools/sync.js:37 | the destination paths of a set of entries are exactly the paths destRoot + q for q in the set |
| `Sync.ApplyAt` | search-tools/sync.js:37 | at the destination path of an entry of S, the overlay holds that entry's effect on what was there |
| `Sync.ApplyOutside` | search-tools/sync.js:37 | the destination paths of entries outside S keep their old content |
| `Sync.ApplyStep` | search-tools/sync.js:37 | adding one entry to the overlay writes only that entry's destination path |
| `Sync.ApplyTwice` | search-tools/sync.js:30-37 | applying two disjoint sets of entries one after the other equals applying their union |
| `Sync.ApplyPreserves` | search-tools/sync.js:37 | applying one set of entries does not change whether a disjoint set fails or what it copies |
| `Sync.ApplyKeepsDirs` | search-tools/sync.js:27-37 | entries deeper than a directory never touch that directory or its parents at the destination |
| `Sync.BelowShrinks` | search-tools/sync.js:47-48 | a subdirectory has strictly fewer source paths below it than its parent, so the recursion terminates |
| `Sync.ReplaceLink` | search-tools/sync.js:40-44 | the symlink branch leaves a link to the literal target at the destination, or keeps the directory there, and never fails |
| `Sync.SyncFile` | search-tools/sync.js:49-59 | the file branch copies exactly when the skip test fails. It fails exactly when that copy's retry run throws; on success it writes the entry's effect, on failure it leaves the destination as it was |
| `Sync.SyncEntry` | search-tools/sync.js:31-61 | one task needs its destination directory and the parents to exist. It visits exactly the entry's closure, succeeds exactly when no entry there fails, and leaves the overlay of what it completed |
| `Sync.SyncDir` | search-tools/sync.js:26-65 | `sync(srcDir, destDir)` fails at mkdir or readdir, or walks all children. It succeeds exactly when no visited entry fails, and then the destination is the overlay of the whole subtree and the copies are those the skip test calls for |
| `Sync.SyncDirectory` | search-tools/sync.js:22-68 | the run succeeds exactly when the destination root can be made, the source root listed and no visited entry fails. On success the destination is `Synced` and the copied set is `CopiedBy` |
| `SyncProperties.MkdirAllOutside` | search-tools/sync.js:27 | a recursive mkdir does not touch any path that is not a prefix of its argument |
| `SyncProperties.SyncedAt` | search-tools/sync.js:37 | after a run, the destination path of each visited entry holds that entry's effect on its old content |
| `SyncProperties.ExcludedNotVisited` | search-tools/sync.js:35-48 | no visited entry lies at or below an excluded entry, because the exclusion return comes before any recursion |
| `SyncProperties.ExcludedUntouched` | search-tools/sync.js:33-35 | a run, successful or failed, changes nothing at or below the destination path of an excluded entry: this holds for the root's directories overlaid with any set of visited entries the run completed |
| `SyncProperties.UnlistedUntouched` | search-tools/sync.js:37 | a run, successful or failed, changes nothing outside the destination root, nor at a path below it that the source does not have (no pruning) |
| `SyncProperties.DirsMirrored` | search-tools/sync.js:27-48 | after a run the destination root and its parents, and every visited source directory's destination, are directories |
| `SyncProperties.SymlinkMirrored` | search-tools/sync.js:40-44 | a visited symlink leaves a symlink with the same literal target, unless a directory stood there, and it never fails the run |
| `SyncProperties.FileMirrored` | search-tools/sync.js:50-59 | a visited file is copied exactly when the destination has no file signature, the source is strictly newer or the sizes differ. A copy holds the source's size and bytes stamped `now`; a skipped file is unchanged |
| `SyncProperties.EffectSettled` | search-tools/sync.js:50-59 | once an entry's effect is in place, and copies are stamped no earlier than their source, the entry needs no copy, cannot fail and keeps its content |
| `SyncProperties.SecondRunIsNoOp` | search-tools/sync.js:50-59 | idempotence: a second run over the unchanged source succeeds, copies nothing and leaves the destination as the first run left it |
| `SyncScenario.ScenarioVisits` | search-tools/sync.js:28-48 | in the worked tree the walk visits `a.txt`, `sub`, `sub/b.txt` and `link` |
| `SyncScenario.ScenarioRoot` | search-tools/sync.js:27 | making `dst` in an empty destination creates exactly `dst` |
| `SyncScenario.ScenarioAt` | search-tools/sync.js:37-59 | in the worked tree each visited entry's destination holds its expected node |
| `SyncScenario.ScenarioElsewhere` | search-tools/sync.js:37 | in the worked tree every other path holds what is expected: `dst` itself and nothing else |
| `SyncScenario.ScenarioSynced` | search-tools/sync.js:26-65 | the worked run leaves exactly `dst`, `dst/a.txt` and `dst/sub/b.txt` as fresh copies, `dst/sub` and `dst/link -> a.txt`, and nothing else |
| `SyncScenario.EndToEnd` | search-tools/sync.js:22-68 | the worked run succeeds and leaves `dst/a.txt`, `dst/sub/b.txt` and `dst/link -> a.txt`. It copies the two files, and a second run copies nothing |

## Left out

- Concurrency: the `p-limit` cap and the `Promise.all` fan-out (search-tools/sync.js:24, 31, 64) are not modelled. The walk is sequential, and every task writes only its own destination path. `Request.concurrency` is carried but unused, and the validation `p-limit` performs on it is not part of this model. The model assumes that every queued task eventually gets a slot, which the source does not guarantee. A directory task keeps its slot while it awaits `sync` of that directory (search-tools/sync.js:31, 48), and that call queues the children's tasks on the same limiter and awaits them (search-tools/sync.js:30-31, 64). When every slot is held by a directory task waiting on queued children, the run never settles. Examples are `concurrency: 1` with any non-empty subdirectory, or a chain of more than `concurrency` nested non-empty directories. The sequential model always terminates.
- Sync.SyncDirectory: after a failure it states only that each destination path is unchanged or already holds its synced content. The model stops at the first failure. In the source, neither the `Promise.all` rejection nor `p-limit` cancels anything, so every task already queued still runs, and the directories among them queue and walk their own subtrees. Only the subtree of a directory whose `mkdir` or `readdir` failed goes unwalked. When several entries fail, which error is reported depends on the order.
- Timers: each backoff is a recorded wait in `Retry.Trace.waits`, not a sleep.
- Real `fs/promises` semantics:
  - `stat` of a destination that is a directory or a symlink gives no signature, so a copy is forced. The real `stat` reads the directory's metadata, or that of the link's target.
  - Symlinks on the destination are never followed. A recursive mkdir through a symlink fails in the model.
  - `rm` and `symlink` fail only as described above; other OS errors are not modelled.
  - A failed `copyFile` attempt leaves the destination unchanged; partial writes are not modelled.
  - Whether a copy attempt succeeds is given by `Env.outcome`, whatever occupies the destination.
- The source tree is an immutable snapshot that is separate from the destination: concurrent changes to the source and overlapping trees are not modelled. `readlink` and `stat` on the source never fail. `readdir` fails only for a root that is not a directory.
- Calls into the OS clock: one clock reading (`Env.now`) stamps every copy of a run.
- Floating-point `mtimeMs`: mtimes are integers.
- `path.join` and `path.relative` string semantics: paths are sequences of names, and the relative path joins the names with `/`. There is no normalisation and no Windows separator.
- Directory entries that are neither directories nor symlinks (fifos, sockets): the source treats them as regular files. The model has only the three node kinds.
- browser-tools/browser-start.js and browser-tools/platform.js are not part of this model: they only launch processes, shell out and look up platform paths.
