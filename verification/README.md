# A verified model of the tig repository engine

tig is a content-addressed version-control engine. This project models its core in Dafny and proves
what its design relies on.

**Objects and hashes.** A hash is represented by the object it was computed from, so it is injective
and the object graph is acyclic by construction; the hash function itself is not part of the model.
Nothing reads through a hash: every operation fetches from a store that may lack the object or hold a
corrupted file under its name. `Foreign` hashes stand for bytes that are not objects of the
repository, such as submodule commits.

**Names and paths** are byte strings and lists of byte strings; Rust compares strings bytewise.

The modules, bottom up:

- `Lex`, `Sorting`: byte order, paths, the stable sort.
- `Objects`, `Trees`: objects, the store, one sorted directory level.
- `TreeAlgebra`, `TreeEdit`: path writes and deletions, on whole trees and through the store.
- `Disk`, `Scan`, `Render`, `Decrypt`: the working directory as a value, scanning, rendering, restoring,
  rendering with decryption.
- `Diff`, `DiffWalk`: the change list as a function, and the filtered walk that computes it.
- `Refs`, `OpLog`, `LogFormat`: refs and captures, undo, the framing of the log file.
- `Repo`, `Gc`, `Machine`, `Effects`, `Commands`: the repository, the collector, the state machine of all
  commands with its invariant, what each command moves, and the commands as they run, each proved to take
  the machine's step.
- `Checkout`: what every run keeps, from the objects to the directories that can be had back.
- `Writers`: concurrent writers as an interleaving of single steps, proved to be a serial run of the machine.
- `Cbor`, `Canonical`: the canonical encoding, with examples of appendix A of RFC 8949.
- `LineCuts`, `Blame`, `BlameTexts`, `Grep`: lines, attribution, when its texts and credits are right, search.

Code that works step by step in the original is a method or a class here, proved against a function;
the theorems are lemmas about those functions.

Where the code and its comments differ, the model follows the code:

- The collector does not follow symlinks, its comment saying that their targets are inline, although a
  scan stores them as blobs. `Gc.SweepKeepsContentIff` says exactly what survives.
- The hash of a missing object is marked, although a comment says it is not.
- Comparison ignores changes of mode and visibility and shows nothing for empty directories.
- The path filter of the comparison also keeps paths of which a filter is only a textual continuation,
  so `sr` and `src` pass for the filter `src/a`.
- The default scan does not ignore the marker file of a secondary workspace, which a restore preserves.
- The sealed check before a restore is documented to keep the directory from being cleared in vain; it
  does not look for submodules and conflicts, on which the rendering fails.
- A per-file cap of zero still lets one match through.
- The bootstrap snapshot of a change created from nothing is described as having a stable hash, but
  carries its author and time (`Effects.BootstrapIsSharedIff`).
- Blame reports wrong line texts for some files with lone carriage returns, and for some, even where all
  texts are right, credits a line to a snapshot that did not touch it (`BlameTexts.WrongCreditsExist`).
  `BlameTexts.TextsAreLinesIff` and `BlameTexts.CreditsAreRightIff` say for which histories.
- A secondary workspace reads its manifest before the lock is taken, so that a snap can go to a change
  that is no longer checked out there (`Writers.StaleDiscoveryHappens`, `Effects.SeenSnapIsCurrentIff`).
- A restore without force is meant to refuse rather than to overwrite work, but the scan for unsaved work
  ignores `.tig` at every depth while clearing protects it only at the top: a nested repository is deleted
  (`Render.NestedRepositoryIsLost`).
- A log record that is too long for its length field is refused after the refs were written, so that the
  command fails and yet has taken effect without a record (`Commands.Takes`).

## Model

| member | source | states |
|---|---|---|
| `Machine.RunKeepsEverythingNamed` | crates/tig-store/src/gc.rs:112-218 | In every run of snap, change new, draft, transition, workspace make and drop, undo and default collection, whatever a live change or any log record names is stored with its closure of parents, trees and File, Sealed and Conflict targets. |
| `Machine.RunUndoIsExact` | crates/tig-store/src/oplog.rs:416-455 | In every run the refs are the replay of the `after` captures still in effect; continuing the run with `k` undo commands gives the refs from before the last `k` of them and keeps all objects; undo has nothing to do exactly when the refs are the initial ones; HEAD and manifests never dangle. |
| `Machine.RunUndoes` | crates/tig-store/src/oplog.rs:416-455 | Undo commands that continue a run, whoever issues them and whenever, are admissible while the log has room and do what the same number of undos of the log do. |
| `Machine.UndoReturnsToEarlierRefs` | crates/tig-store/src/oplog.rs:416-490 | If a run continues and `n` more operations are in effect on top of those it had, continuing it with `n` undo commands brings back exactly the refs it had, whatever else happened in between. |
| `Machine.SameStackSameRefs` | crates/tig-store/src/oplog.rs:409-455 | Two runs with the same operations in effect have the same refs. |
| `Machine.StepKeepsInv` | crates/tig-store/src/oplog.rs:227-259 | Every command keeps the invariant: an honest store, a log that explains the refs, and changes and captures whose histories are chains of stored snapshots ending in the current one. |
| `Machine.RunKeepsInv` | crates/tig-store/src/oplog.rs:416-490 | The invariant holds after every run of admissible commands from an empty repository. |
| `Machine.CommandsFailOnlyOnArguments` | crates/tig-cli/src/main.rs:708-758 | In a reachable repository a command fails exactly when an argument names something that does not exist or nothing is checked out: never because of a dangling ref or a collected object. |
| `Checkout.RunMaterializesIff` | crates/tig-fs/src/materialize.rs:115-139 | In every run, a snapshot that a live change or any log record names can be materialized, without decryption, exactly when its tree is plain and its symlinks still have their blobs; then it becomes just what the tree stands for. |
| `Checkout.SnappedComesBackIff` | crates/tig-store/src/gc.rs:13-40 | A directory whose snap was recorded comes back from every later state of every run, whatever was undone, dropped or collected since: it does, and is then exact up to ignored names, if and only if its symlinks still have their blobs, and always if it has no symlinks. |
| `Machine.CollectKeepsContentIff` | crates/tig-store/src/gc.rs:181-186 | After a collection a named snapshot that could be materialized still can be exactly when every symlink below it leads to a blob that is marked for another reason. |
| `Machine.VisibleSnapshotSet` | crates/tigd/src/handlers.rs:148-164 | The set is the union of the histories of the changes the caller may see. |
| `Machine.VisibleCoversCurrent` | crates/tigd/src/handlers.rs:148-164 | Collecting only histories covers the current snapshot of every visible change, in every run. |
| `Machine.AdvanceMoves` | crates/tig-core/src/change.rs:97-102 | A snapshot on top of the current one is never taken for a repetition: the history always gains it and it becomes current. |
| `Commands.SnapNow` | crates/tig-fs/src/snap.rs:69-156 | Snapping a workspace, with any handle, takes the step of the state machine for the scanned tree; an unscannable directory or unknown workspace changes neither refs nor log. In order, a sound repository stays sound for every directory and outcome. The answer says so: unchanged with the current change when nothing was recorded, else the recorded snapshot with its tree and the change as it now stands. |
| `Commands.SnapChangeDirectly` | crates/tig-fs/src/snap.rs:197-247 | Snapping an edited tree takes the step of the state machine, or leaves the repository alone. The record carries the id of the handle, and one that is too long is lost after everything else was written. The answer says what was recorded, as for `Commands.SnapNow`. |
| `Commands.EditPath` | crates/tigd/src/handlers.rs:441-494 | On any repository, patching or deleting a path ends in the snap of the tree that the edit through the store gives, or in the failure of the lookup, the edit or the snap, refs and log untouched. The answer says what was recorded, as for `Commands.SnapNow`. |
| `Commands.EditedTreeOk` | crates/tigd/src/handlers.rs:441-494 | In a sound repository that edit is the tree-level write or deletion, its tree is stored with its closure, and the snap succeeds exactly when the edit does. |
| `Commands.ChangeNewIn` | crates/tig-cli/src/main.rs:708-758 | `change new` and `draft` take the step of the state machine, or leave the repository alone. The record carries the id of the handle, and one that is too long is lost after everything else was written. The error is that of the step or of the log, and the answer is the new change as the refs hold it. |
| `Commands.ChangeCreate` | crates/tigd/src/handlers.rs:279-340 | Creating a change in the daemon, from another change or from the bootstrap snapshot, takes the step of the state machine, or leaves the repository alone. The record carries the id of the handle, and one that is too long is lost after everything else was written. The error is that of the step or of the log, and the answer is the new change as the refs hold it, with the requested state and visibility or the defaults. |
| `Commands.ChangeTransitionTo` | crates/tig-cli/src/main.rs:1193-1246 | A transition writes and records the flipped change, or leaves the repository alone. The record carries the id of the handle, and one that is too long is lost after everything else was written. The error is that of the step or of the log, and the answer is the change as the refs now hold it, with the state and visibility asked for and nothing else altered. |
| `Commands.WorkspaceMake` | crates/tig-cli/src/main.rs:868-901 | Registration writes the manifest and its record, or nothing when no change is checked out. The answer is the manifest as the refs hold it, with the given name, place and time. |
| `Commands.FindByName` | crates/tig-store/src/workspace.rs:127-134 | The result is the first manifest in id order with the name, and absent only if there is none. |
| `Commands.WorkspaceDrop` | crates/tig-cli/src/main.rs:973-1019 | Dropping removes the first manifest of that name and records it, refuses the workspace it runs in, and fails without effect when the name is unknown. The answer is the manifest that is gone. |
| `Commands.CaptureCurrent` | crates/tig-store/src/oplog.rs:327-370 | The captures are the live values of the refs, in order. |
| `Commands.RestoreRefs` | crates/tig-store/src/oplog.rs:462-490 | The refs become the result of writing every capture back in order. |
| `Commands.Undo` | crates/tig-store/src/oplog.rs:416-455 | One undo restores the captures of the top of the stack and records itself; it returns nothing exactly when the stack is empty. The record carries the id of the handle, and one that is too long is lost after everything else was written. The record is under the caller, at the present time, and names the undone operation. |
| `Effects.CheckoutMovesOne` | crates/tig-store/src/workspace.rs:248-266 | After checking a change out, the workspace reads that change as its current one, and no ref but HEAD, or the one manifest, reads differently. |
| `Commands.FileLog.constructor` | crates/tig-store/src/oplog.rs:178-191 | Opening the log computes the id that follows the greatest recorded one. |
| `Commands.FileLog.Append` | crates/tig-store/src/oplog.rs:227-259 | An append adds one record carrying the id cached in the handle and steps that id, or fails on a record too long for its length field and adds nothing. |
| `Commands.FreshHandleTakesTheStep` | crates/tig-store/src/repo.rs:200-209 | With a handle opened under the lock and records that fit, every command takes exactly the step of the state machine. |
| `Commands.CommandsAppendAtMostOne` | crates/tig-store/src/oplog.rs:227-289 | Every command of the machine leaves the log alone or adds one record under the next id. |
| `Commands.ScannedTreeOk` | crates/tig-fs/src/scan.rs:54-79 | A scanned and stored directory is a well-formed tree with its whole closure, which is what the machine asks of the tree of a snap. |
| `Effects.SnapExistingEffect` | crates/tig-fs/src/snap.rs:86-148 | Snapping an existing change always succeeds in a reachable repository and ends at the given tree: either nothing was to be snapped and no ref or record moved, or exactly that change gained one snapshot on top of its old one, with the given author and message, stored and recorded. |
| `Effects.SnapEffect` | crates/tig-fs/src/snap.rs:69-156 | After snapping, the workspace is on a change whose snapshot has the scanned tree, and no ref moved but that change and the workspace; a workspace without a change got a new one with a parentless first snapshot. |
| `Effects.NewEffect` | crates/tig-cli/src/main.rs:708-758 | A new change starts at the snapshot of the one checked out, or at an empty tree, is checked out where it was made, and nothing else moves; a draft is private. |
| `Effects.CreateEffect` | crates/tigd/src/handlers.rs:279-340 | Creating a change moves no ref but the new change, which has the requested state and visibility or the defaults. |
| `Effects.MakeEffect` | crates/tig-cli/src/main.rs:868-901 | Making a workspace adds just its manifest, on the change that is checked out where it was made, and records that. |
| `Effects.CommandCaptures` | crates/tig-store/src/oplog.rs:227-259 | The record of a command captures, before and after, exactly the refs the command is about. |
| `Effects.BootstrapIsSharedIff` | crates/tigd/src/handlers.rs:296-312 | Two changes made from nothing start at the same snapshot exactly when the same author made them at the same time. |
| `Effects.TransitionAndBack` | crates/tigd/src/handlers.rs:550-592 | Moving a change to another state and visibility and back gives all refs back and leaves two records that mirror each other. |
| `Effects.DropUndoesMake` | crates/tig-cli/src/main.rs:973-1019 | Dropping a workspace that was just made gives the refs back, and is refused from inside it. |
| `Effects.UndoRevertsCommand` | crates/tig-store/src/oplog.rs:416-455 | Undoing right after any command that recorded something gives exactly the refs from before it; a command that recorded nothing moved no ref. |
| `OpLog.PickIsStackTop` | crates/tig-store/src/oplog.rs:498-508 | For every operation sequence, surplus undos included, the backward counter finds the element that many below the top of the stack a forward fold builds. |
| `OpLog.PickOpToUndo` | crates/tig-store/src/oplog.rs:498-508 | The scan returns the top of that stack, or nothing when it is empty. |
| `OpLog.ComputeNextId` | crates/tig-store/src/oplog.rs:281-289 | The loop computes one more than the greatest id read as a signed number, starting from -1. |
| `OpLog.NextIdIsFreshIff` | crates/tig-store/src/oplog.rs:281-289 | The next id is above all recorded ids exactly when none of them is in the upper half of the 64-bit range; otherwise it is the greatest signed id plus one. |
| `OpLog.RecordExplains` | crates/tig-store/src/oplog.rs:227-259 | Recording an operation that captured both sides keeps the log explaining the refs and pushes it on the stack. |
| `OpLog.UndoExplains` | crates/tig-store/src/oplog.rs:416-455 | One undo gives exactly the refs from before the top operation, is recorded under its own caller and time as the undo of that operation, pops it, and restoring the undo's own `before` would bring the pre-undo refs back. |
| `OpLog.UndoTimesRewinds` | crates/tig-store/src/oplog.rs:416-455 | `k` undos leave the replay of the stack without its top `k` operations. |
| `Refs.RestoreTowards` | crates/tig-store/src/oplog.rs:462-490 | Restoring captures of a table moves exactly the captured refs to their values in it and no other ref. |
| `Refs.RestoreInverts` | crates/tig-store/src/oplog.rs:462-490 | Captures taken before an operation invert it when they cover the refs it wrote. |
| `LogFormat.ReadAllRecords` | crates/tig-store/src/oplog.rs:291-325 | The position loop computes the recursive reading of the file. |
| `LogFormat.HeaderOrder` | crates/tig-store/src/oplog.rs:253-311 | The bytewise order of length fields is the order of the lengths, which fixes them as big-endian. |
| `LogFormat.ReadBack` | crates/tig-store/src/oplog.rs:291-325 | Reading a file built by any number of appends returns exactly those records in order. |
| `LogFormat.TruncationIsDetected` | crates/tig-store/src/oplog.rs:291-325 | Every prefix of a log file either ends on a record boundary and reads as the records before it, or is reported as corrupt. |
| `LogFormat.OnlyWholeRecordsAreRead` | crates/tig-store/src/oplog.rs:291-325 | Any file that is accepted at all, not only one written by appends, is a framing of payloads that decode one by one to the records returned. |
| `LogFormat.LogFile.Append` | crates/tig-store/src/oplog.rs:227-259 | Appending a record to the file of some records gives the file of those records and it, or leaves the file alone when the payload does not fit the 32-bit length. |
| `Writers.WritersAreSerial` | crates/tig-store/src/repo.rs:200-209 | In every interleaving of whole commands with the single steps of any number of snapping writers, in any workspaces, at most one is past the lock, the ids are 0 to n-1 in file order at every moment, and whenever the lock is free the repository is that of a serial run of whole commands, a snap of a secondary workspace going to the change its manifest named at discovery. |
| `Writers.NoSnapshotIsLost` | crates/tig-fs/src/snap.rs:69-156 | Without undo, no interleaving shortens a history, and every snapshot in the log is in the history of a change. |
| `Writers.StepKeepsSerial` | crates/tig-cli/src/main.rs:478-485 | Each step of each writer keeps the repository at what a serial run left plus the progress of the one writer in the critical section. |
| `Effects.SeenSnapIsCurrentIff` | crates/tig-store/src/workspace.rs:241-246 | A recorded snap of a secondary workspace does what snapping the workspace under the lock would do exactly when its manifest still exists and names the change that was read at discovery. |
| `Writers.StaleDiscoveryHappens` | crates/tig-cli/src/main.rs:478-485 | There is an interleaving in which a writer holds the lock and goes by a manifest that was rewritten since it read it. |
| `Writers.StaleHandleRepeatsId` | crates/tigd/src/state.rs:15-32 | A log handle opened earlier appends with a proper id exactly when nothing was appended since; otherwise it repeats the id of an existing record. |
| `Gc.MarkedIsLeast` | crates/tig-store/src/gc.rs:144-193 | The marked set is the least set that contains the roots and is closed under the followed edges. |
| `Gc.MarkedIsReached` | crates/tig-store/src/gc.rs:144-193 | A hash is marked exactly when a chain of followed references leads to it from a root. |
| `Gc.PushRefs` | crates/tig-store/src/gc.rs:160-192 | One object pushes exactly the hashes it refers to, as far as the collector follows them. |
| `Gc.Visit` | crates/tig-store/src/gc.rs:147-192 | Visiting a hash keeps the worklist invariant; a missing object is marked but leads nowhere; any other read error, and nothing else, stops the collection with that error. |
| `Gc.Mark` | crates/tig-store/src/gc.rs:144-193 | The worklist loop terminates and computes the least set, whatever the order of the worklist; it fails exactly when some object of that set is stored but cannot be read. |
| `Gc.CollectLiveRoots` | crates/tig-store/src/gc.rs:113-122 | The loop collects what every live change names. |
| `Gc.CollectLogRoots` | crates/tig-store/src/gc.rs:124-142 | The loop collects what every log record names, in its kind and in both capture lists. |
| `Gc.RootsAre` | crates/tig-store/src/gc.rs:112-142 | The roots are exactly what live changes name and, with the log included, what its records name. |
| `Gc.Partition` | crates/tig-store/src/gc.rs:195-210 | Splits the stored hashes into a count of the marked ones and the unmarked ones, each once. |
| `Gc.RemoveAll` | crates/tig-store/src/gc.rs:211-218 | Removes exactly the listed objects unless it is a dry run, and counts them and their sizes either way. |
| `Gc.CollectGarbage` | crates/tig-store/src/gc.rs:112-221 | The store becomes its intersection with the least marked set, or stays as it is in a dry run; the summary reports roots, kept, removed and freed bytes of that split in both cases, kept and removed adding up to the old store; it fails exactly when a reachable object cannot be read, and then removes nothing. |
| `Gc.SecondSweepRemovesNothing` | crates/tig-store/src/gc.rs:195-218 | A second collection with the same roots removes nothing. |
| `Gc.SweepKeepsComplete` | crates/tig-store/src/gc.rs:144-218 | Whatever a marked hash reached over followed edges before the sweep it still reaches afterwards. |
| `Gc.SweepKeepsContentIff` | crates/tig-store/src/gc.rs:181-186 | A marked object that was stored with all its content, symlink targets included, still is exactly when every symlink below it leads to a marked blob. |
| `Gc.SymlinkTargetIsSwept` | crates/tig-fs/src/scan.rs:115-128 | A snapshot of a single symlink, stored the way a scan stores it, loses the blob that holds the symlink target. |
| `Objects.ObjectStore.Write` | crates/tig-store/src/objects.rs:195-216 | Storing adds the object under its hash and leaves an existing file alone. |
| `Objects.ObjectStore.Remove` | crates/tig-store/src/objects.rs:184-191 | Removes exactly the one file, if present. |
| `Objects.ReadsIff` | crates/tig-store/src/objects.rs:218-227 | A read succeeds exactly when the object is stored, hashes to its name and has the kind asked for, and its error says which of these fails, in that order. |
| `Objects.ExecutableIff` | crates/tig-core/src/tree.rs:35-37 | A mode is executable exactly when one of the three permission digits is odd. |
| `Objects.SnapshotIsNotItsParent` | crates/tig-core/src/change.rs:97-102 | A snapshot is never among its own parents. |
| `Trees.FromEntriesAccepts` | crates/tig-core/src/tree.rs:84-100 | Construction succeeds exactly on valid, pairwise distinct names, and yields the sorted arrangement of its input. |
| `Trees.InsertionOrderIsIrrelevant` | crates/tig-core/src/tree.rs:84-100 | The same entries in another order build the same tree, hence the same hash. |
| `Trees.SameLookups` | crates/tig-core/src/tree.rs:84-116 | Sorted vectors that agree on all lookups are equal, so a tree hash stands for a map. |
| `Trees.FindInsert` | crates/tig-core/src/tree.rs:102-109 | After an insertion the name finds the new entry and every other name what it found before. |
| `Trees.BinarySearch` | crates/tig-core/src/tree.rs:111-116 | Finds the slot of a name in a sorted vector, or the place where it belongs. |
| `Trees.Tree.Add` | crates/tig-core/src/tree.rs:102-109 | Inserts or replaces in place and keeps the vector sorted, or rejects an invalid name and changes nothing. |
| `Trees.Tree.Lookup` | crates/tig-core/src/tree.rs:111-116 | Binary search finds what a scan of the vector finds. |
| `TreeAlgebra.PutSucceedsIff` | crates/tig-fs/src/tree_edit.rs:202-251 | A path write succeeds exactly when every proper ancestor that exists is a tree. |
| `TreeAlgebra.PutThenLookup` | crates/tig-fs/src/tree_edit.rs:202-251 | After a write the path resolves to the new entry, each proper ancestor to a plain directory, everything below to nothing and every incomparable path to what it was. |
| `TreeAlgebra.WritesCommute` | crates/tig-fs/src/tree_edit.rs:202-251 | Writes at prefix-incomparable paths commute to the same root, including whether they fail. |
| `TreeAlgebra.RemoveSucceedsIff` | crates/tig-fs/src/tree_edit.rs:253-304 | A deletion succeeds exactly when the path resolves. |
| `TreeAlgebra.RemoveThenLookup` | crates/tig-fs/src/tree_edit.rs:253-304 | After a deletion the path and everything below resolve to nothing, a proper ancestor to nothing or a non-empty directory, and every incomparable path to what it was. |
| `TreeAlgebra.PutKeepsNoEmptyBelow` | crates/tig-fs/src/tree_edit.rs:202-251 | A write keeps all sub-trees non-empty. |
| `TreeAlgebra.RemoveKeepsNoEmptyBelow` | crates/tig-fs/src/tree_edit.rs:253-304 | A deletion keeps all sub-trees non-empty. |
| `TreeAlgebra.DeleteUndoesWriteIff` | crates/tig-fs/src/tree_edit.rs:253-304 | Deleting a path just written where it was absent never fails, and restores the original root exactly when each existing proper ancestor is a non-empty directory with mode DIR and no visibility tag. |
| `TreeAlgebra.TidyTreesAreRewritable` | crates/tig-fs/src/tree_edit.rs:253-304 | Trees whose directories all are non-empty and in rewritten form meet that condition on every writable path. |
| `TreeEdit.SplitOfPieces` | crates/tig-fs/src/tree_edit.rs:181-200 | Splitting a text gives its non-empty pieces between slashes; it fails on a text without any, and on pieces that are `.`, `..` or contain a zero byte. |
| `TreeEdit.ExtraSlashesDoNotMatter` | crates/tig-fs/src/tree_edit.rs:181-200 | Leading, trailing and repeated slashes do not change what a text splits into. |
| `TreeEdit.SplitJoin` | crates/tig-fs/src/tree_edit.rs:181-200 | Splitting a joined valid path gives the path back. |
| `TreeEdit.ResolveIsEntryAt` | crates/tig-fs/src/tree_edit.rs:123-150 | Looking an entry up through the store finds what the path names in the tree, and fails only for want of an entry or a tree. |
| `TreeEdit.LookupErrors` | crates/tig-fs/src/tree_edit.rs:123-150 | Where the trees are stored, a lookup that finds nothing reports that something above is not a tree exactly when a proper ancestor exists and is none, and otherwise that there is no such entry. |
| `TreeEdit.LookupEntry` | crates/tig-fs/src/tree_edit.rs:123-150 | The loop that reassigns the tree computes the recursive resolution, with its errors. |
| `TreeEdit.TryReadBlobAtPath` | crates/tig-fs/src/tree_edit.rs:75-103 | The loop computes the recursive lenient read, with its errors. |
| `TreeEdit.TryReadIsFileAt` | crates/tig-fs/src/tree_edit.rs:75-103 | In a complete store the lenient read never fails and returns the file content, or nothing when the path is no regular file. |
| `TreeEdit.RewriteInsertIsPutAt` | crates/tig-fs/src/tree_edit.rs:202-251 | Rewriting ancestors through the store computes the tree-level write and only adds objects, so the old root still resolves, and the new trees are all stored. |
| `TreeEdit.PutAtComplete` | crates/tig-fs/src/tree_edit.rs:202-251 | Completeness carries over from the old root and the written object to the new root. |
| `TreeEdit.InsertPath` | crates/tig-fs/src/tree_edit.rs:202-251 | The recursive rewrite computes its specification on every store, errors included. |
| `TreeEdit.WriteObjectAtPath` | crates/tig-fs/src/tree_edit.rs:26-63 | Writing a blob or sealed object stores it and rewrites the ancestors; where the trees are stored it is the tree-level write and keeps completeness. |
| `TreeEdit.RewriteRemoveIsRemoveAt` | crates/tig-fs/src/tree_edit.rs:253-304 | Deleting through the store computes the tree-level deletion, and the new trees are all stored. |
| `TreeEdit.RemovePath` | crates/tig-fs/src/tree_edit.rs:253-304 | The recursive deletion computes its specification on every store, errors included. |
| `TreeEdit.DeleteAtPath` | crates/tig-fs/src/tree_edit.rs:156-159 | Deleting a textual path is the tree-level deletion where the trees are stored, and keeps completeness. |
| `TreeEdit.ListTree` | crates/tig-fs/src/tree_edit.rs:163-177 | Listing trims slashes, treats the empty path as the root, and otherwise lists the tree at the path or fails. |
| `TreeEdit.ListIsOneStepDown` | crates/tig-fs/src/tree_edit.rs:163-177 | Listing succeeds exactly on directories, and its names are those a lookup one step further down finds. |
| `Scan.ReadNames` | crates/tig-fs/src/scan.rs:54-66 | Reading the directory in any order gives the names that are not ignored in strictly ascending order, so each once. |
| `Scan.ScanDir` | crates/tig-fs/src/scan.rs:54-79 | The scan returns the hash of the specified tree, fails exactly on what cannot be scanned, only adds objects, and leaves everything below the root stored. |
| `Scan.BuildEntry` | crates/tig-fs/src/scan.rs:81-135 | Each node becomes the specified entry, with its object stored. |
| `Disk.ScanLookup` | crates/tig-fs/src/scan.rs:54-79 | A scan is sorted and has exactly one entry for each name that is not ignored, whatever the order of the directory listing. |
| `Disk.ScanRecords` | crates/tig-fs/src/scan.rs:81-146 | A file is recorded as its bytes and executable bit, a symlink as its target, a directory as the scan of it, each with its mode and no visibility. |
| `Disk.ScanIsTidy` | crates/tig-fs/src/scan.rs:54-146 | Every scan is tidy: valid names, no visibility tags, scan-produced modes, only File, Tree and Symlink entries, at every level. |
| `Disk.ScanOfRendering` | crates/tig-fs/src/materialize.rs:236-340 | Rendering a tidy tree and scanning the result returns the same tree. |
| `Disk.RenderScanRoundTripIff` | crates/tig-fs/src/materialize.rs:236-340 | That round trip holds exactly on the tidy trees. |
| `Disk.RenderingOfScan` | crates/tig-fs/src/scan.rs:54-135 | Rendering a scan reproduces the file system without its ignored names. |
| `Disk.StoreWriteIsDiskWrite` | crates/tig-fs/src/tree_edit.rs:202-251 | Writing a blob through the store equals writing the file and scanning again, and both fail together. |
| `Disk.StoreDeleteIsDiskDelete` | crates/tig-fs/src/tree_edit.rs:253-304 | Deleting through the store equals deleting the path and its emptied ancestors on disk and scanning again, with the same errors. |
| `Disk.IgnoredWriteIsNeverScanned` | crates/tig-fs/src/scan.rs:32-45 | Without the condition on ignored names this fails for every path through one: no scan produces such a tree. |
| `Render.RenderTree` | crates/tig-fs/src/materialize.rs:236-340 | The loop over entries computes the specified rendering, statistics and first error. |
| `Render.RenderPlain` | crates/tig-fs/src/materialize.rs:236-340 | Rendering a stored plain tree, with valid names and symlink targets at every level, succeeds exactly when its names fit the directory, then writes one node per entry, leaves other names alone and counts files and bytes. |
| `Render.RenderOfScanIsStrip` | crates/tig-fs/src/materialize.rs:193-204 | Materializing a scanned directory elsewhere reproduces it without ignored names. |
| `Render.WalkForSealed` | crates/tig-fs/src/materialize.rs:208-234 | The walk computes the list of sealed paths, or the first error. |
| `Render.SealedCheckIsExact` | crates/tig-fs/src/materialize.rs:208-234 | On stored trees that list is empty exactly when no entry at any depth is sealed. |
| `Render.SealedPathsAre` | crates/tig-fs/src/materialize.rs:208-234 | On stored trees the list holds exactly the paths of the sealed entries. |
| `Render.RenderSucceedsIff` | crates/tig-fs/src/materialize.rs:236-340 | For trees with valid names, of which everything is stored that the collector follows, and without decryption, rendering into a directory free of the root names succeeds exactly on plain trees whose symlinks have their blobs. Plain trees are those without Sealed, Conflict or Submodule entries at any depth whose symlink targets are non-empty UTF-8 without zero bytes. |
| `Decrypt.RenderingUnseals` | crates/tig-fs/src/materialize.rs:236-340 | With a decryption routine, rendering a stored tree into a directory free of the root names succeeds exactly when every sealed entry decrypts, or may be skipped, and the rest is plain; it then gives what the tree of decrypted files stands for, and counts files, decrypted files, skipped entries and bytes. |
| `Render.MaterializeChangeInto` | crates/tig-fs/src/materialize.rs:115-139 | A snapshot is rendered into a directory that must not exist before, and what was rendered before an error stays. |
| `Render.MaterializesIff` | crates/tig-fs/src/materialize.rs:115-139 | Where everything is stored that the collector follows, that succeeds exactly on plain trees whose symlinks have their blobs, and gives just what the tree stands for. |
| `Render.Workdir.Clear` | crates/tig-fs/src/restore.rs:128-150 | Clearing keeps exactly the protected names and counts the others. |
| `Render.RestoreTreeInto` | crates/tig-fs/src/restore.rs:73-126 | A restore that a check stops leaves the directory as it was, with the error of that check: a target that cannot be read, sealed entries without a decryption routine, or unsaved work. Otherwise the directory is cleared and rendered over, and it succeeds exactly when the rendering does, reporting its tree, its statistics and the number of cleared names. |
| `Render.RestoreThenScanIff` | crates/tig-fs/src/restore.rs:128-150 | A restored directory scans back to the target tree exactly when there was no marker file or the tree has its own whose executable bit covers the old one. |
| `Render.ForeignMarkerSpoilsRestore` | crates/tig-fs/src/restore.rs:128-150 | There is a working directory with a marker file that, restored to a tree without one, does not scan back. |
| `Render.UnforcedRestoreLosesNothingIff` | crates/tig-fs/src/restore.rs:73-150 | Every entry that an unforced restore clears is, whole, in the rendering of the current snapshot exactly when no cleared entry has an ignored name below it. |
| `Render.NestedRepositoryIsLost` | crates/tig-fs/src/scan.rs:60-66 | A restore without force of the current snapshot itself deletes a nested repository. |
| `Render.SealedCheckIsNotEnough` | crates/tig-fs/src/restore.rs:73-126 | A submodule passes the sealed check although the rendering after the clearing then fails. |
| `Diff.DiffTransforms` | crates/tig-fs/src/diff.rs:95-239 | Applying the change list to the leaves of `from` gives the leaves of `to` at every path, a change of type replacing the whole subtree: pruning hides nothing. |
| `Diff.DiffReportsIff` | crates/tig-fs/src/diff.rs:171-237 | A change is reported exactly when it is what happened at its path and no proper ancestor changed its type. |
| `Diff.DiffInOrder` | crates/tig-fs/src/diff.rs:143-171 | Reported paths strictly increase by components and none lies below another, so none appears twice. |
| `Diff.DiffEmptyIff` | crates/tig-fs/src/diff.rs:101-107 | The change list is empty exactly when both trees hold the same leaves; modes, visibility and empty directories do not count. |
| `DiffWalk.DiffSubtree` | crates/tig-fs/src/diff.rs:110-239 | The recursive walk with the path filter appends the emitted part of the unfiltered list that passes the filter; with all trees stored it fails exactly when emitting does. |
| `DiffWalk.DiffTrees` | crates/tig-fs/src/diff.rs:95-108 | The filtered diff shows each change of the unfiltered list whose path agrees with a filter up to the end of the shorter of the two, or each change if there is no filter, and nothing else, in strict path order. With all trees stored it fails exactly when the content of such a change has to be read for hunks and cannot be; when the files are stored too it never fails. |
| `DiffWalk.EmissionFailsIff` | crates/tig-fs/src/diff.rs:241-303 | Emitting a change list fails exactly when some change of regular files has to be read for hunks and one of its contents cannot be. Otherwise each change is shown in order: with hunks of its two texts or the mark of a binary where it has contents and hunks are asked for, with neither elsewhere. |
| `DiffWalk.CompleteTreesAreShown` | crates/tig-fs/src/diff.rs:171-303 | Between two trees stored with their files, any filtered change list can be emitted with all its hunks. |
| `DiffWalk.PassesIffAgrees` | crates/tig-fs/src/diff.rs:158-169 | A path passes exactly when there is no filter or it agrees with one up to the end of the shorter of the two; so every directory above a passing path passes. |
| `DiffWalk.FilterShowsBelow` | crates/tig-fs/src/diff.rs:158-169 | Filtered by one path, a diff shows every change at or below that path. |
| `DiffWalk.DiffOfWrite` | crates/tig-fs/src/diff.rs:171-237 | Comparing a tree with the result of a path write reports that path alone, or nothing when it already held the same kind and object. |
| `Canonical.Canonicalize` | crates/tig-core/src/canonical.rs:56-94 | The recursive rewrite computes the canonical form. |
| `Canonical.CanonIsOrdered` | crates/tig-core/src/canonical.rs:79-103 | At every depth of the canonical form the encoded keys of a map ascend bytewise. |
| `Canonical.CanonicalIffOrdered` | crates/tig-core/src/canonical.rs:56-103 | The values that canonicalization leaves alone are exactly those whose encoded keys ascend at every depth. |
| `Canonical.CanonIsTheOrdered` | crates/tig-core/src/canonical.rs:56-103 | For a value without tied entries, the canonical form is the only value with ascending keys at every depth that differs from it at most by the order of map entries. |
| `Canonical.CanonKeepsValue` | crates/tig-core/src/canonical.rs:56-94 | The canonical form differs from the value at most by the order of map entries: arrays keep their order at every depth and nothing else changes. |
| `Canonical.CanonicalBytesIff` | crates/tig-core/src/canonical.rs:41-51 | For a value without tied entries, another value has the same canonical bytes exactly when it differs at most by the order of map entries, at any depth. |
| `Canonical.OrderIsForgottenIff` | crates/tig-core/src/canonical.rs:41-51 | The bytes forget the order of entries exactly when no map at any depth has two entries whose keys canonicalize alike and whose values do not. |
| `Cbor.EncodeIsPrefixFree` | crates/tig-core/src/canonical.rs:45-51 | The encoding is injective and no encoding continues another. |
| `Cbor.TextKeyOrder` | crates/tig-core/src/canonical.rs:96-103 | For text keys the bytewise order of section 4.2.1 of RFC 8949 is the order by length, then by content, across all header widths. |
| `Cbor.HeadIsShortest` | crates/tig-core/src/canonical.rs:45-51 | The head of an item carries its major type and argument as section 3 of RFC 8949 reads them, and no shorter head does. |
| `Sorting.LastSuppliedIsLast` | crates/tig-core/src/canonical.rs:79-80 | The sort is stable: among ties the element supplied last comes last. |
| `Sorting.SortForgetsOrder` | crates/tig-core/src/canonical.rs:79-80 | Two arrangements of the same elements without ties sort alike. |
| `Lex.LessIff` | crates/tig-core/src/canonical.rs:96-103 | A text is less than another exactly when it is a proper prefix of it or has the smaller byte where they first differ. |
| `LineCuts.LinesAgreeIff` | crates/tig-fs/src/blame.rs:155-170 | Cutting a text by `str::lines` and stripping the tokens of the line differ give the same lines exactly when every carriage return precedes a line feed. |
| `LineCuts.StripEolDropsLongestEnding` | crates/tig-fs/src/blame.rs:161-170 | Stripping removes from the end of the text the longest of: nothing, a line feed, a carriage return, both. |
| `LineCuts.LinesAreLaid` | crates/tig-fs/src/blame.rs:155-160 | Cutting lines out of terminated lines laid one after another, and a last unterminated one, gives those lines; every text is laid out so. |
| `LineCuts.TokensAreTheCut` | crates/tig-fs/src/blame.rs:93-97 | The tokens of the line differ are the only way to cut a text into pieces that end at each line feed, or at a carriage return without one. |
| `LineCuts.BinaryIff` | crates/tig-fs/src/diff.rs:306-309 | A text is binary exactly when one of its first 8192 bytes is zero. |
| `Blame.ApplyScript` | crates/tig-fs/src/blame.rs:93-131 | The loop over changes computes the recursive attribution. |
| `Blame.BlameAt` | crates/tig-fs/src/blame.rs:52-133 | The recursive method computes the specified attribution, errors included, and terminates. |
| `BlameTexts.BlameIsRightIff` | crates/tig-fs/src/blame.rs:52-133 | For every history: under every differ the texts are the lines of the file and each line credits, with its metadata, the snapshot to which equal edits carry it back, exactly when the history meets the conditions for texts and for credits. |
| `BlameTexts.CreditsAreRightIff` | crates/tig-fs/src/blame.rs:93-131 | For every history: the credits are right under every differ exactly when the file is not carried over from a parent, or each token of the first version beyond the number of its lines is missing from some version since. |
| `BlameTexts.WrongCreditsExist` | crates/tig-fs/src/blame.rs:98-110 | There is a sound repository in which the texts are right under every differ and some differ leads to a wrong credit: a file that held a lone carriage return between two letters and now holds the second. |
| `BlameTexts.BlameExplains` | crates/tig-fs/src/blame.rs:52-133 | A history without lone carriage returns meets both conditions. |
| `Blame.OriginHasToken` | crates/tig-fs/src/blame.rs:83-133 | On any history that snapshot is on the first-parent chain, its version has the very token, and there the token is inserted or the text file begins. |
| `Blame.OriginHasLine` | crates/tig-fs/src/blame.rs:83-133 | Without lone carriage returns its version has the very line. |
| `BlameTexts.TextsAreLinesIff` | crates/tig-fs/src/blame.rs:52-133 | For every history: the texts are the lines of the file under every differ exactly when the file is not carried over from a parent, or it has no lone carriage return and each token of the first version that is misaligned with its line is missing from some version since. |
| `BlameTexts.TextsAreSourced` | crates/tig-fs/src/blame.rs:93-131 | Under every differ each text is a stripped token of the target, or a line of the first version whose token lasted through every version since. |
| `BlameTexts.WrongTextsExist` | crates/tig-fs/src/blame.rs:93-131 | There is a sound repository, a file that was empty and now holds a lone carriage return, in which every differ leads to wrong texts. |
| `Blame.BlameSucceedsIff` | crates/tig-fs/src/blame.rs:52-82 | In a complete store blame succeeds exactly when the path is a text file at the target snapshot, and its error says whether there is no file or a binary one. |
| `Grep.SearchLines` | crates/tig-fs/src/grep.rs:190-219 | The line loop with its two early exits adds the first matches of the file up to the file cap, cut off at the total cap: with a file cap of c > 0 the first c of them or all, with a cap of zero the first one. |
| `Grep.Walk` | crates/tig-fs/src/grep.rs:168-236 | On every store, the recursive walk yields the matches of the search without a total cap cut at the cap, and its error exactly when the cap is not reached before it. |
| `Grep.GrepTree` | crates/tig-fs/src/grep.rs:81-95 | On a complete store the search succeeds with the first hits, at most the total cap of them, and leaves one out only when the cap is reached by hits before it. On every store it is the capped prefix of the uncapped search, or its error where that comes first; the empty pattern is rejected. |
| `Grep.FoundAreFirstHits` | crates/tig-fs/src/grep.rs:168-236 | In order of path and line, what a capped search keeps are the first hits, each once. |
| `Grep.GrepFindsExactly` | crates/tig-fs/src/grep.rs:152-236 | On a complete store the uncapped search finds exactly the hits: lines that match, of text files whose path continues a filter if there are any, with fewer earlier matches in the file than the file cap, a cap of zero acting as one. |
| `Grep.GrepInOrder` | crates/tig-fs/src/grep.rs:168-236 | Matches come in order of path, then of line, each once. |

## Left out

- `Machine.RunKeepsInv`: runs assume that every record fits its 32-bit length and that handles are opened under the lock; `Commands.Takes` says what a command does otherwise.
- `Writers.WritersAreSerial`: takes single steps of snaps only; the other locked commands take the lock in the same way and interleave as whole commands.
- `Grep.GrepFindsExactly`: takes the compiled line matcher as a parameter; pattern compilation is left out.
- Decoding a tree does not check its order; trees read from the store are assumed sorted where `Tree::get` and `Tree::insert` search them, but not in the comparison.
- Real file I/O, fsync, atomic renames and crashes in the middle of a command: each file write is one atomic map update.
- The copy engine, the file watcher, HTTP routing, the command line and all printing.
- Cryptography: the unsealer is a parameter. Identities, tokens and sealing are not part of the model.
- The bytes of BLAKE3, and the record codecs: serde, JSON and the CBOR layout of operations are an encode and decode pair.
- Floating-point numbers in CBOR.
- The internals of the `similar` and `regex` libraries: hunks and edit scripts are parameters. The line tokenizer of `similar` is modelled from its behaviour; its source is not part of the repository.
- Trees with names that `Tree::insert` would reject, which a corrupted object could hold: rendering them is stated only for valid names.
- Text decoding: contents are bytes, so the replacement of invalid UTF-8 by `from_utf8_lossy`, with its effect on blame and grep, is not modelled, nor are file names and symlink targets on disk that are not UTF-8.
- Bookmarks, which no command records, and the `op_id` field of snapshots, which is always empty.
- The scan option that follows symlinks, and writing through an existing symlink while rendering, which is modelled as an error.
- Collection without the log captures as a step of the machine: it may remove what a later undo needs. `Gc.CollectGarbage` covers the option itself.
- Log handles that the daemon and `watch` keep across lock releases: they are not steps of the machine; `Writers.StaleHandleRepeatsId` shows what they break.
- Visibility and ownership checks: who may see a change is a parameter.
- One command reads the clock once here; the code reads it separately for the snapshot and for the record.
- Identifiers drawn at random are assumed fresh, and the log is assumed to hold at most 2^63 records.
- Discovery of workspaces from a directory, and what commands other than snaps do with a manifest that went stale since. `Commands` goes by manifests as they are under the lock.
- Limits of the file system on the length of names, paths and symlink targets.
