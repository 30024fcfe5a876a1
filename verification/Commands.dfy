/** The commands as they run: each writes refs and objects step by step and then appends its record.
    Each is shown to take the repository where `Machine` says. */
module Commands {
  import opened Wrappers
  import opened Lex
  import opened Objects
  import opened TreeAlgebra
  import opened TreeEdit
  import opened Disk
  import opened Refs
  import opened OpLog
  import opened Repo
  import opened Machine
  import Scan

  /** An open handle on the log: the id it hands out next is read once, when it is opened. `fits` tells
      whether the encoding of a record is short enough for its 32-bit length. */
  class FileLog {
    const repo: Repository
    const fits: Op -> bool
    var nextId: nat

    constructor (r: Repository, fits: Op -> bool)
      ensures repo == r && this.fits == fits && nextId == NextId(r.ops)
    {
      repo := r;
      this.fits := fits;
      new;
      var next := ComputeNextId(r.ops);
      NextIdBounds(r.ops, -1);
      nextId := next;
    }

    method Append(op: OpInProgress, now: nat) returns (r: Result<Op, Error>)
      modifies this`nextId, repo`ops
      ensures var full := Finalize(op, old(nextId), now);
              if fits(full) then r == Success(full) && repo.ops == old(repo.ops) + [full] && nextId == old(nextId) + 1
              else r == Failure(TooLarge) && repo.ops == old(repo.ops) && nextId == old(nextId)
    {
      var full := Finalize(op, nextId, now);
      if !fits(full) {
        return Failure(TooLarge);
      }
      repo.ops := repo.ops + [full];
      nextId := nextId + 1;
      return Success(full);
    }
  }

  /** The record that takes `before` to `next`, if there is one, under the id that a handle gives it. */
  function RecordUnder(before: State, next: State, id: nat): Option<Op> {
    if |next.ops| == |before.ops| + 1 then Some(next.ops[|before.ops|].(id := id)) else None
  }

  function ErrorOf<T>(r: Result<T, Error>): Option<Error> {
    if r.Success? then None else Some(r.error)
  }

  /** How a command ends that is to take `before` to `next` and logs through a handle that hands out `id`:
      in which state and, if it fails, with which error. A command that fails by itself changes nothing. The
      record carries the id of the handle. A record that is too long is lost, after everything else was
      written. */
  ghost predicate Takes(before: State, next: Result<State, Error>, id: nat, fits: Op -> bool, after: State,
                        error: Option<Error>) {
    if next.Failure? then error == Some(next.error) && after == before
    else
      match RecordUnder(before, next.value, id)
      case None => error.None? && after == next.value
      case Some(op) =>
        && error == (if fits(op) then None else Some(TooLarge))
        && after == next.value.(ops := if fits(op) then before.ops + [op] else before.ops)
  }

  /** With a handle opened under the lock and records that fit, a command takes exactly the step of the
      state machine. */
  lemma FreshHandleTakesTheStep(before: State, next: Result<State, Error>, id: nat, fits: Op -> bool, after: State,
                                error: Option<Error>)
    requires Takes(before, next, id, fits, after, error) && id == NextId(before.ops)
    requires next.Success? ==> AppendsAtMostOne(before, next.value)
    requires forall op :: fits(op)
    ensures error == ErrorOf(next) && after == if next.Success? then next.value else before
  {
    if next.Success? && |next.value.ops| == |before.ops| + 1 {
      assert next.value.ops == before.ops + [next.value.ops[|before.ops|]];
    }
  }

  /** The log is as it was, or longer by one record that was given the next id. */
  ghost predicate AppendsAtMostOne(a: State, b: State) {
    b.ops == a.ops
    || (|b.ops| == |a.ops| + 1 && b.ops[..|a.ops|] == a.ops && b.ops[|a.ops|].id == NextId(a.ops))
  }

  lemma SnapAppends(st: State, ws: Workspace, stored: Store, tree: Hash, author: Text, message: Option<Text>,
                    force: bool, freshId: ChangeId, description: Text, now: nat)
    ensures var next := SnapIntoWorkspace(st, ws, stored, tree, author, message, force, freshId, description, now);
            next.Success? ==> AppendsAtMostOne(st, next.value)
  {
    var next := SnapIntoWorkspace(st, ws, stored, tree, author, message, force, freshId, description, now);
    if next.Success? && |next.value.ops| != |st.ops| {
      assert next.value.ops[..|st.ops|] == st.ops;
    }
  }

  /** Every command of the state machine leaves the log as it was or adds one record under the next id, so
      that for each of them a fresh handle takes the step. */
  lemma CommandsAppendAtMostOne(st: State, cmd: Cmd)
    requires Exec(st, cmd).Success?
    ensures AppendsAtMostOne(st, Exec(st, cmd).value)
  {
    match cmd
    case SnapWorkspace(ws, stored, tree, author, message, force, freshId, description, now) =>
      SnapAppends(st, ws, stored, tree, author, message, force, freshId, description, now);
    case _ =>
      OthersAppendAtMostOne(st, cmd);
  }

  lemma OthersAppendAtMostOne(st: State, cmd: Cmd)
    requires !cmd.SnapWorkspace? && Exec(st, cmd).Success?
    ensures AppendsAtMostOne(st, Exec(st, cmd).value)
  {
    var next := Exec(st, cmd).value;
    if |next.ops| != |st.ops| {
      assert next.ops[..|st.ops|] == st.ops;
    }
  }

  datatype SnapOutcome =
    | Snapped(snapshot: Hash, tree: Hash, change: Change, freshChange: bool)
    | Unchanged(change: Change)

  /** The change is stored under the id as it was answered. */
  predicate Stands(refs: RefTable, id: ChangeId, c: Change) {
    c.id == id && id in refs.changes && refs.changes[id] == c
  }

  /** The answer of a snap of `current`, or of a workspace without a change, fits what it did: `Unchanged` if
      nothing was recorded, and otherwise the recorded snapshot, its tree, and the change as it now stands. */
  ghost predicate Answers(before: State, after: State, current: Option<ChangeId>, tree: Hash, message: Option<Text>,
                          o: SnapOutcome)
  {
    match o
    case Unchanged(c) =>
      && after.refs == before.refs && after.ops == before.ops
      && current.Some? && current.value in before.refs.changes && c == before.refs.changes[current.value]
    case Snapped(snapshot, t, c, freshChange) =>
      && t == tree && (freshChange <==> current.None?)
      && |after.ops| == |before.ops| + 1 && after.ops[|before.ops|].kind == Snap(snapshot, message)
      && c.current == snapshot && Stands(after.refs, c.id, c)
      && IsSnap(snapshot) && snapshot.obj.snap.tree == tree
  }

  method SetCurrent(repo: Repository, ws: Workspace, id: ChangeId)
    requires WorkspaceKnown(repo.refs, ws)
    modifies repo`refs
    ensures repo.refs == SetCurrentChange(old(repo.refs), ws, id)
  {
    match ws
    case Main =>
      repo.refs := repo.refs.(head := Some(id));
    case Secondary(wid) =>
      var m := repo.refs.workspaces[wid].(changeId := id);
      repo.refs := repo.refs.(workspaces := repo.refs.workspaces[m.id := m]);
  }

  /** A scanned directory, stored, is a tree as the invariant asks for. */
  lemma ScannedTreeOk(s: Store, d: Node, ignore: seq<Text>)
    requires Scannable(d, ignore) && FullyStored(s, TreeHash(ScanEntries(d, ignore)))
    ensures TreeOk(s, TreeHash(ScanEntries(d, ignore)))
  {
    FullyStoredIsComplete(s, TreeHash(ScanEntries(d, ignore)));
    ScanIsTidy(d, ignore);
    TidyIsWellFormed(ScanEntries(d, ignore), ignore);
  }

  /** What the invariant needs of the surroundings of a snap: a fresh identifier, a handle opened under
      the lock, records that fit, and room in the log. */
  ghost predicate InOrder(before: State, freshId: ChangeId, id: nat, fits: Op -> bool) {
    && freshId !in before.refs.changes && |before.ops| <= 0x8000_0000_0000_0000
    && id == NextId(before.ops) && forall op :: fits(op)
  }

  lemma SnapKeepsInv(before: State, stored: Store, d: Node, ignore: seq<Text>, ws: Workspace, author: Text,
                     message: Option<Text>, force: bool, freshId: ChangeId, description: Text, now: nat, id: nat,
                     fits: Op -> bool, after: State, error: Option<Error>)
    requires Inv(before) && Scannable(d, ignore) && FullyStored(stored, TreeHash(ScanEntries(d, ignore)))
    requires Honest(stored) && Extends(before.objects, stored) && InOrder(before, freshId, id, fits)
    requires var next := SnapIntoWorkspace(before, ws, stored, TreeHash(ScanEntries(d, ignore)), author, message, force,
                                           freshId, description, now);
             Takes(before.(objects := stored), next, id, fits, after, error)
    ensures Inv(after)
  {
    var tree := TreeHash(ScanEntries(d, ignore));
    ScannedTreeOk(stored, d, ignore);
    var snap := SnapWorkspace(ws, stored, tree, author, message, force, freshId, description, now);
    assert Admissible(before, snap) && Admissible(before, StoreOnly(stored));
    var next := Exec(before, snap);
    if next.Success? {
      StepKeepsInv(before, snap);
      SnapAppends(before, ws, stored, tree, author, message, force, freshId, description, now);
    }
    StepKeepsInv(before, StoreOnly(stored));
    FreshHandleTakesTheStep(before.(objects := stored), next, id, fits, after, error);
  }

  /** Snapping a workspace. `stored` is the store as the scan left it. In a sound repository, and in
      order, the repository stays sound, whatever the directory and the outcome. */
  method SnapNow(repo: Repository, log: FileLog, ws: Workspace, dir: Node, extraIgnores: seq<Text>, author: Text,
                 message: Option<Text>, force: bool, freshId: ChangeId, description: Text, now: nat)
    returns (r: Result<SnapOutcome, Error>, ghost stored: Store)
    requires dir.Dir? && log.repo == repo
    modifies repo, repo.objects, log
    ensures Extends(old(repo.objects.files), stored)
    ensures Honest(old(repo.objects.files)) ==> Honest(stored)
    ensures var ignore := DEFAULT_IGNORE + extraIgnores;
            if !WorkspaceKnown(old(repo.refs), ws) || !Scannable(dir, ignore) then
              r.Failure? && repo.Abs() == old(repo.Abs()).(objects := stored)
            else
              var tree := TreeHash(ScanEntries(dir, ignore));
              && (Honest(old(repo.objects.files)) ==> FullyStored(stored, tree))
              && Takes(old(repo.Abs()).(objects := stored),
                       SnapIntoWorkspace(old(repo.Abs()), ws, stored, tree, author, message, force, freshId, description, now),
                       old(log.nextId), log.fits, repo.Abs(), ErrorOf(r))
    ensures Inv(old(repo.Abs())) && InOrder(old(repo.Abs()), freshId, old(log.nextId), log.fits) ==> Inv(repo.Abs())
    ensures r.Success? ==>
              && WorkspaceKnown(old(repo.refs), ws)
              && Answers(old(repo.Abs()), repo.Abs(), CurrentChange(old(repo.refs), ws),
                         TreeHash(ScanEntries(dir, DEFAULT_IGNORE + extraIgnores)), message, r.value)
  {
    stored := repo.objects.files;
    ghost var before := repo.Abs();
    if !WorkspaceKnown(repo.refs, ws) {
      return Failure(NoWorkspace), stored;
    }
    var scanned := Scan.ScanDir(repo.objects, dir, DEFAULT_IGNORE + extraIgnores);
    stored := repo.objects.files;
    if scanned.Failure? {
      if Inv(before) && |before.ops| <= 0x8000_0000_0000_0000 {
        StepKeepsInv(before, StoreOnly(stored));
      }
      return Failure(scanned.error), stored;
    }
    ghost var id := log.nextId;
    SnapForgetsStore(before, stored, ws, stored, scanned.value, author, message, force, freshId, description, now);
    r := SnapTree(repo, log, ws, scanned.value, author, message, force, freshId, description, now);
    if Inv(before) && InOrder(before, freshId, id, log.fits) {
      SnapKeepsInv(before, stored, dir, DEFAULT_IGNORE + extraIgnores, ws, author, message, force, freshId, description,
                   now, id, log.fits, repo.Abs(), ErrorOf(r));
    }
  }

  /** The scan alone changes the store, and what is recorded does not depend on the store before it. */
  lemma SnapForgetsStore(st: State, s: Store, ws: Workspace, stored: Store, tree: Hash, author: Text, message: Option<Text>,
                         force: bool, freshId: ChangeId, description: Text, now: nat)
    ensures SnapIntoWorkspace(st.(objects := s), ws, stored, tree, author, message, force, freshId, description, now)
            == SnapIntoWorkspace(st, ws, stored, tree, author, message, force, freshId, description, now)
  {
  }

  /** The part of a snap after the scan. */
  method SnapTree(repo: Repository, log: FileLog, ws: Workspace, treeHash: Hash, author: Text, message: Option<Text>,
                  force: bool, freshId: ChangeId, description: Text, now: nat)
    returns (r: Result<SnapOutcome, Error>)
    requires WorkspaceKnown(repo.refs, ws) && log.repo == repo
    modifies repo, repo.objects, log
    ensures Takes(old(repo.Abs()),
                  SnapIntoWorkspace(old(repo.Abs()), ws, old(repo.objects.files), treeHash, author, message, force,
                                    freshId, description, now),
                  old(log.nextId), log.fits, repo.Abs(), ErrorOf(r))
    ensures r.Success? ==>
              Answers(old(repo.Abs()), repo.Abs(), CurrentChange(old(repo.refs), ws), treeHash, message, r.value)
  {
    ghost var id := log.nextId;
    var current := CurrentChange(repo.refs, ws);
    var change: Change;
    var parents: seq<Hash>;
    var changeBefore: Option<Change>;
    match current {
      case Some(id) =>
        if id !in repo.refs.changes {
          return Failure(NotFound);
        }
        change := repo.refs.changes[id];
        parents := [change.current];
        changeBefore := Some(change);
      case None =>
        change := NewChange(freshId, description, author, Foreign(0));
        parents := [];
        changeBefore := None;
    }
    if current.Some? {
      var prev :- GetSnap(repo.objects.files, change.current);
      if prev.tree == treeHash && message.None? && !force {
        return Success(Unchanged(change));
      }
    }
    var snap := Snapshot(parents, treeHash, author, now, message);
    SnapRecords(repo.Abs(), ws, treeHash, author, message, force, freshId, description, now, changeBefore);
    ghost var before := repo.Abs();
    change :- StoreSnap(repo, log, ws, change, changeBefore, snap, freshId, description);
    SnapIsAnswered(before, repo.Abs(), ws, current, changeBefore, snap, change, freshId, description, log.fits, id);
    return Success(Snapped(change.current, treeHash, change, current.None?));
  }

  lemma SnapIsAnswered(before: State, after: State, ws: Workspace, current: Option<ChangeId>, changeBefore: Option<Change>,
                       snap: Snapshot, change: Change, freshId: ChangeId, description: Text, fits: Op -> bool, id: nat)
    requires WorkspaceKnown(before.refs, ws) && (current.None? <==> changeBefore.None?)
    requires change == ChangeAfterSnap(changeBefore, snap, freshId, description)
    requires changeBefore.Some? ==> snap.parents == [changeBefore.value.current]
    requires var refs' := RefsAfterSnap(before.refs, ws, change, changeBefore.None?);
             Takes(before,
                   Success(RecordSnap(before, Put(before.objects, SnapObj(snap)), refs',
                                      ([WorkspaceRefOf(before.refs, ws)], [WorkspaceRefOf(refs', ws)]), changeBefore, change,
                                      snap.author, snap.message, snap.timestamp)), id, fits, after, None)
    ensures Answers(before, after, current, snap.tree, snap.message, Snapped(change.current, snap.tree, change, current.None?))
  {
    if changeBefore.Some? {
      Machine.AdvanceMoves(changeBefore.value, snap);
    }
    assert after.refs.changes == PutChange(before.refs, change).changes;
  }

  /** The refs after a snap: a new change is checked out as well. */
  function RefsAfterSnap(refs: RefTable, ws: Workspace, change: Change, isNew: bool): RefTable
    requires WorkspaceKnown(refs, ws)
  {
    var saved := PutChange(refs, change);
    if isNew then SetCurrentChange(saved, ws, change.id) else saved
  }

  /** The change after a snap, and whether there was one to snap. */
  function ChangeAfterSnap(before: Option<Change>, snap: Snapshot, freshId: ChangeId, description: Text): Change {
    var h := Of(SnapObj(snap));
    if before.Some? then before.value.Advance(h)
    else NewChange(freshId, description, snap.author, Foreign(0)).(current := h, history := [h])
  }

  lemma SnapRecords(st: State, ws: Workspace, tree: Hash, author: Text, message: Option<Text>, force: bool,
                    freshId: ChangeId, description: Text, now: nat, before: Option<Change>)
    requires WorkspaceKnown(st.refs, ws)
    requires match CurrentChange(st.refs, ws)
             case None => before.None?
             case Some(id) =>
               && id in st.refs.changes && before == Some(st.refs.changes[id])
               && GetSnap(st.objects, before.value.current).Success?
               && !(GetSnap(st.objects, before.value.current).value.tree == tree && message.None? && !force)
    ensures var parents := if before.Some? then [before.value.current] else [];
            var snap := Snapshot(parents, tree, author, now, message);
            var change := ChangeAfterSnap(before, snap, freshId, description);
            var refs' := RefsAfterSnap(st.refs, ws, change, before.None?);
            SnapIntoWorkspace(st, ws, st.objects, tree, author, message, force, freshId, description, now)
            == Success(RecordSnap(st, Put(st.objects, SnapObj(snap)), refs',
                                  ([WorkspaceRefOf(st.refs, ws)], [WorkspaceRefOf(refs', ws)]), before, change, author,
                                  message, now))
  {
  }

  /** Stores the snapshot and moves the change to it, a new change starting with it. */
  method StoreSnap(repo: Repository, log: FileLog, ws: Workspace, loaded: Change, changeBefore: Option<Change>,
                   snap: Snapshot, ghost freshId: ChangeId, ghost description: Text)
    returns (r: Result<Change, Error>)
    requires WorkspaceKnown(repo.refs, ws) && log.repo == repo
    requires changeBefore.Some? ==> changeBefore.value == loaded && snap.parents == [loaded.current]
    requires changeBefore.None? ==> loaded == NewChange(freshId, description, snap.author, Foreign(0))
    modifies repo, repo.objects, log
    ensures var change := ChangeAfterSnap(changeBefore, snap, freshId, description);
            var refs' := RefsAfterSnap(old(repo.refs), ws, change, changeBefore.None?);
            && (r.Success? ==> r.value == change)
            && Takes(old(repo.Abs()),
                     Success(RecordSnap(old(repo.Abs()), Put(old(repo.objects.files), SnapObj(snap)), refs',
                                        ([WorkspaceRefOf(old(repo.refs), ws)], [WorkspaceRefOf(refs', ws)]),
                                        changeBefore, change, snap.author, snap.message, snap.timestamp)),
                     old(log.nextId), log.fits, repo.Abs(), ErrorOf(r))
  {
    var snapHash := repo.objects.Write(SnapObj(snap));
    var change := loaded;
    if changeBefore.None? {
      change := change.(current := snapHash, history := [snapHash]);
    } else {
      Machine.AdvanceMoves(change, snap);
      change := change.Advance(snapHash);
    }
    var _ :- FinishSnap(repo, log, ws, change, changeBefore, snap.author, snap.message, snap.timestamp);
    return Success(change);
  }

  /** Saves the change, checks a new one out, and records the snap. */
  method FinishSnap(repo: Repository, log: FileLog, ws: Workspace, change: Change, changeBefore: Option<Change>,
                    author: Text, message: Option<Text>, now: nat)
    returns (r: Result<(), Error>)
    requires WorkspaceKnown(repo.refs, ws) && log.repo == repo
    modifies repo, log
    ensures var refs' := RefsAfterSnap(old(repo.refs), ws, change, changeBefore.None?);
            Takes(old(repo.Abs()),
                  Success(RecordSnap(old(repo.Abs()), old(repo.objects.files), refs',
                                     ([WorkspaceRefOf(old(repo.refs), ws)], [WorkspaceRefOf(refs', ws)]),
                                     changeBefore, change, author, message, now)),
                  old(log.nextId), log.fits, repo.Abs(), ErrorOf(r))
  {
    var wsBefore := WorkspaceRefOf(repo.refs, ws);
    var changeRefBefore := ChangeRef(change.id, changeBefore);
    repo.PutChange(change);
    if changeBefore.None? {
      SetCurrent(repo, ws, change.id);
    }
    var op := OpInProgress(author, Snap(change.current, message), [wsBefore] + [changeRefBefore],
                           [WorkspaceRefOf(repo.refs, ws)] + [ChangeRef(change.id, Some(change))]);
    var _ :- log.Append(op, now);
    return Success(());
  }

  /** Snapping a change without a working directory, after its tree was edited in the store. */
  method SnapChangeDirectly(repo: Repository, log: FileLog, id: ChangeId, newTree: Hash, author: Text,
                            message: Option<Text>, force: bool, now: nat)
    returns (r: Result<SnapOutcome, Error>)
    requires log.repo == repo
    modifies repo, repo.objects, log
    ensures var next := SnapExisting(old(repo.Abs()), id, old(repo.objects.files), [], newTree, author, message, force, now);
            Takes(old(repo.Abs()), next, old(log.nextId), log.fits, repo.Abs(), ErrorOf(r))
    ensures r.Success? ==> Answers(old(repo.Abs()), repo.Abs(), Some(id), newTree, message, r.value)
  {
    var change :- repo.GetChange(id);
    var changeBefore := change;
    var prev :- GetSnap(repo.objects.files, change.current);
    if prev.tree == newTree && message.None? && !force {
      return Success(Unchanged(change));
    }
    var snap := Snapshot([change.current], newTree, author, now, message);
    var snapHash := repo.objects.Write(SnapObj(snap));
    Machine.AdvanceMoves(change, snap);
    change := change.Advance(snapHash);
    repo.PutChange(change);
    var _ :- log.Append(OpInProgress(author, Snap(snapHash, message), [] + [ChangeRef(change.id, Some(changeBefore))],
                                     [] + [ChangeRef(change.id, Some(change))]), now);
    return Success(Snapped(snapHash, newTree, change, false));
  }

  lemma EditedTreeIsWellFormed(tree: Hash, path: Text, write: Option<Text>)
    requires IsTree(tree) && WellFormed(tree.obj.entries)
    ensures var r := if write.Some? then WriteAt(tree, path, FileLeaf(write.value)) else DeleteAt(tree, path);
            r.Success? ==> IsTree(r.value) && WellFormed(r.value.obj.entries)
  {
    SplitYieldsValidPath(path);
    if SplitPath(path).Success? {
      var p := SplitPath(path).value;
      if write.Some? && PutAt(tree.obj.entries, p, FileLeaf(write.value)).Success? {
        PutWellFormed(tree.obj.entries, p, FileLeaf(write.value));
      } else if write.None? && RemoveAt(tree.obj.entries, p).Success? {
        RemoveWellFormed(tree.obj.entries, p);
      }
    }
  }

  /** The edit of a stored tree at a path: a write of a blob, or a deletion. */
  function EditTree(s: Store, root: Hash, path: Text, write: Option<Text>): (Store, Result<Hash, Error>) {
    match SplitPath(path)
    case Failure(e) => (s, Failure(e))
    case Success(p) =>
      if write.Some? then RewriteInsert(Put(s, BlobObj(write.value)), root, p, FileLeaf(write.value))
      else RewriteRemove(s, root, p)
  }

  /** What editing a path of a change comes to: the store after the edit, and the snap of the edited tree
      or the reason why there is none. */
  function PathEdited(st: State, id: ChangeId, path: Text, write: Option<Text>, author: Text, now: nat)
    : (Store, Result<State, Error>)
  {
    if id !in st.refs.changes then (st.objects, Failure(NotFound))
    else
      match GetSnap(st.objects, st.refs.changes[id].current)
      case Failure(e) => (st.objects, Failure(e))
      case Success(snap) =>
        var (stored, edited) := EditTree(st.objects, snap.tree, path, write);
        (stored,
         if edited.Failure? then Failure(edited.error)
         else SnapExisting(st, id, stored, [], edited.value, author, None, false, now))
  }

  /** `PATCH` and `DELETE` of a path: edit the tree of the current snapshot, then snap the change. */
  method EditPath(repo: Repository, log: FileLog, id: ChangeId, path: Text, write: Option<Text>, author: Text, now: nat)
    returns (r: Result<SnapOutcome, Error>)
    requires log.repo == repo
    modifies repo, repo.objects, log
    ensures var (stored, next) := PathEdited(old(repo.Abs()), id, path, write, author, now);
            Takes(old(repo.Abs()).(objects := stored), next, old(log.nextId), log.fits, repo.Abs(), ErrorOf(r))
    ensures r.Success? ==>
              && id in old(repo.refs.changes)
              && var snap := GetSnap(old(repo.objects.files), old(repo.refs.changes)[id].current);
              && snap.Success?
              && var (stored, edited) := EditTree(old(repo.objects.files), snap.value.tree, path, write);
              && edited.Success? && Answers(old(repo.Abs()), repo.Abs(), Some(id), edited.value, None, r.value)
  {
    var change :- repo.GetChange(id);
    var snap :- GetSnap(repo.objects.files, change.current);
    var edited;
    if write.Some? {
      edited := WriteObjectAtPath(repo.objects, snap.tree, path, BlobObj(write.value), FileKind);
    } else {
      edited := DeleteAtPath(repo.objects, snap.tree, path);
    }
    if edited.Failure? {
      return Failure(edited.error);
    }
    r := SnapChangeDirectly(repo, log, id, edited.value, author, None, false, now);
  }

  /** In a reachable repository the edit is the tree-level write or deletion, the edited tree is stored
      with its whole closure, and it is snapped unless the edit itself fails. */
  lemma EditedTreeOk(st: State, id: ChangeId, path: Text, write: Option<Text>, author: Text, now: nat)
    requires Inv(st) && id in st.refs.changes
    ensures var (stored, next) := PathEdited(st, id, path, write, author, now);
            && IsSnap(st.refs.changes[id].current) && IsTree(st.refs.changes[id].current.obj.snap.tree)
            && Honest(stored) && Extends(st.objects, stored)
            && var root := st.refs.changes[id].current.obj.snap.tree;
               var edited := if write.Some? then WriteAt(root, path, FileLeaf(write.value)) else DeleteAt(root, path);
               && (next.Success? <==> edited.Success?)
               && (edited.Success? ==> TreeOk(stored, edited.value)
                                       && next == SnapExisting(st, id, stored, [], edited.value, author, None, false, now))
  {
    var c := st.refs.changes[id];
    assert ChangeOk(st.objects, c);
    CurrentIsStored(st.objects, c);
    var root := c.current.obj.snap.tree;
    CompleteTreesAreStored(st.objects, root);
    EditIsTreeEdit(st.objects, root, path, write);
    var (stored, edited) := EditTree(st.objects, root, path, write);
    if edited.Success? {
      EditedTreeIsWellFormed(root, path, write);
      ChangeOkExtends(st.objects, stored, c);
      CurrentIsStored(stored, c);
    }
  }

  lemma EditIsTreeEdit(s: Store, root: Hash, path: Text, write: Option<Text>)
    requires Honest(s) && TreesStored(s, root) && Complete(s, root)
    ensures var (stored, edited) := EditTree(s, root, path, write);
            && Honest(stored) && Extends(s, stored)
            && edited == (if write.Some? then WriteAt(root, path, FileLeaf(write.value)) else DeleteAt(root, path))
            && (edited.Success? ==> Complete(stored, edited.value))
  {
    SplitYieldsValidPath(path);
    if SplitPath(path).Success? {
      var p := SplitPath(path).value;
      var (stored, edited) := EditTree(s, root, path, write);
      if write.Some? {
        var s1 := Put(s, BlobObj(write.value));
        TreesStoredExtends(s, s1, root);
        RewriteInsertIsPutAt(s1, root, p, FileLeaf(write.value));
        if edited.Success? {
          assert Complete(s1, Of(BlobObj(write.value)));
          CompleteExtends(s1, stored, Of(BlobObj(write.value)));
          PutAtComplete(s, stored, root.obj.entries, p, FileLeaf(write.value));
        }
      } else {
        RewriteRemoveIsRemoveAt(s, root, p);
        if edited.Success? {
          RemoveAtComplete(s, stored, root.obj.entries, p);
        }
      }
    }
  }

  /** `tig change new` and `tig draft`. */
  method ChangeNewIn(repo: Repository, log: FileLog, ws: Workspace, freshId: ChangeId, description: Text, author: Text,
                     draft: bool, now: nat)
    returns (r: Result<Change, Error>)
    requires log.repo == repo
    modifies repo, repo.objects, log
    ensures var next := StartNew(old(repo.Abs()), ws, freshId, description, author, draft, now);
            Takes(old(repo.Abs()), next, old(log.nextId), log.fits, repo.Abs(), ErrorOf(r))
    ensures r.Success? ==> Stands(repo.refs, freshId, r.value)
  {
    if !WorkspaceKnown(repo.refs, ws) {
      return Failure(NoWorkspace);
    }
    var current;
    match CurrentChange(repo.refs, ws) {
      case Some(id) =>
        var c :- repo.GetChange(id);
        current := c.current;
      case None =>
        var treeHash := repo.objects.Write(TreeObj([]));
        current := repo.objects.Write(SnapObj(Snapshot([], treeHash, author, now, Some(EMPTY_MESSAGE))));
    }
    var change := if draft then NewPrivateDraft(freshId, description, author, current)
                  else NewChange(freshId, description, author, current);
    var wsBefore := WorkspaceRefOf(repo.refs, ws);
    repo.PutChange(change);
    SetCurrent(repo, ws, change.id);
    var wsAfter := WorkspaceRefOf(repo.refs, ws);
    var _ :- log.Append(OpInProgress(author, ChangeNew(change.id, description), [wsBefore] + [ChangeRef(change.id, None)],
                                     [wsAfter] + [ChangeRef(change.id, Some(change))]), now);
    return Success(change);
  }

  /** Creating a change through the daemon, without checking it out anywhere. */
  method ChangeCreate(repo: Repository, log: FileLog, from: Option<ChangeId>, freshId: ChangeId, description: Text,
                      author: Text, state: Option<ChangeState>, visibility: Option<VisLabel>, now: nat)
    returns (r: Result<Change, Error>)
    requires log.repo == repo
    modifies repo, repo.objects, log
    ensures var next := Create(old(repo.Abs()), from, freshId, description, author, state, visibility, now);
            Takes(old(repo.Abs()), next, old(log.nextId), log.fits, repo.Abs(), ErrorOf(r))
    ensures r.Success? ==> Stands(repo.refs, freshId, r.value)
    ensures r.Success? ==> r.value.state == state.GetOr(Working) && r.value.visibility == visibility.GetOr(Public)
  {
    var parent;
    match from {
      case Some(id) =>
        var c :- repo.GetChange(id);
        parent := c.current;
      case None =>
        var treeHash := repo.objects.Write(TreeObj([]));
        parent := repo.objects.Write(SnapObj(Snapshot([], treeHash, author, now, Some(EMPTY_MESSAGE))));
    }
    var change := NewChange(freshId, description, author, parent);
    if visibility.Some? {
      change := change.(visibility := visibility.value);
    }
    if state.Some? {
      change := change.(state := state.value);
    }
    repo.PutChange(change);
    var _ :- log.Append(OpInProgress(author, ChangeNew(change.id, description), [] + [ChangeRef(change.id, None)],
                                     [] + [ChangeRef(change.id, Some(change))]), now);
    return Success(change);
  }

  method ChangeTransitionTo(repo: Repository, log: FileLog, id: ChangeId, state: Option<ChangeState>,
                            visibility: Option<VisLabel>, author: Text, now: nat)
    returns (r: Result<Change, Error>)
    requires log.repo == repo
    modifies repo, log
    ensures var next := Transit(old(repo.Abs()), id, state, visibility, author, now);
            Takes(old(repo.Abs()), next, old(log.nextId), log.fits, repo.Abs(), ErrorOf(r))
    ensures r.Success? ==>
              && id in old(repo.refs.changes)
              && var c := old(repo.refs.changes)[id];
              && r.value == c.(state := state.GetOr(c.state), visibility := visibility.GetOr(c.visibility))
              && Stands(repo.refs, c.id, r.value)
  {
    var change :- repo.GetChange(id);
    var before := change;
    if state.Some? {
      change := change.(state := state.value);
    }
    if visibility.Some? {
      change := change.(visibility := visibility.value);
    }
    repo.PutChange(change);
    var _ :- log.Append(
      OpInProgress(author, ChangeTransition(change.id, before.state, change.state, before.visibility, change.visibility),
                   [ChangeRef(change.id, Some(before))], [ChangeRef(change.id, Some(change))]), now);
    return Success(change);
  }

  /** The registration part of `tig wt make`. */
  method WorkspaceMake(repo: Repository, fits: Op -> bool, ws: Workspace, freshWid: WorkspaceId, name: Text,
                       location: Text, author: Text, now: nat)
    returns (r: Result<Manifest, Error>)
    modifies repo
    ensures var next := Make(old(repo.Abs()), ws, freshWid, name, location, author, now);
            Takes(old(repo.Abs()), next, NextId(old(repo.ops)), fits, repo.Abs(), ErrorOf(r))
    ensures r.Success? ==>
              && freshWid in repo.refs.workspaces && r.value == repo.refs.workspaces[freshWid]
              && r.value.id == freshWid && r.value.name == name && r.value.location == location && r.value.created == now
  {
    if !WorkspaceKnown(repo.refs, ws) {
      return Failure(NoWorkspace);
    }
    var current := CurrentChange(repo.refs, ws);
    if current.None? {
      return Failure(NoCurrentChange);
    }
    var m := Manifest(freshWid, name, location, current.value, now);
    repo.refs := repo.refs.(workspaces := repo.refs.workspaces[m.id := m]);
    var log := new FileLog(repo, fits);
    var _ :- log.Append(OpInProgress(author, WtMake(m.id, m.name), [WorkspaceRef(m.id, None)],
                                     [WorkspaceRef(m.id, Some(m))]), now);
    return Success(m);
  }

  /** The first manifest, in id order, with the given name. */
  method FindByName(workspaces: map<WorkspaceId, Manifest>, name: Text) returns (r: Option<WorkspaceId>)
    ensures r.Some? ==> r.value in workspaces && workspaces[r.value].name == name
    ensures forall id | id in workspaces && workspaces[id].name == name :: r.Some? && !Less(id, r.value)
  {
    r := None;
    var unread := workspaces.Keys;
    while unread != {}
      invariant unread <= workspaces.Keys
      invariant r.Some? ==> r.value in workspaces && workspaces[r.value].name == name
      invariant forall id | id in workspaces && id !in unread && workspaces[id].name == name ::
                  r.Some? && !Less(id, r.value)
      decreases |unread|
    {
      var id :| id in unread;
      unread := unread - {id};
      if workspaces[id].name == name && (r.None? || Less(id, r.value)) {
        forall x | x in workspaces && x !in unread && workspaces[x].name == name ensures !Less(x, id) {
          if Less(x, id) && r.Some? {
            if x == id { Asymmetric(x, id); } else { Transitive(x, id, r.value); }
          } else if x == id && Less(x, id) {
            Asymmetric(x, id);
          }
        }
        r := Some(id);
      }
    }
  }

  method WorkspaceDrop(repo: Repository, fits: Op -> bool, ws: Workspace, name: Text, author: Text, now: nat)
    returns (r: Result<Manifest, Error>, ghost wid: WorkspaceId)
    modifies repo
    ensures (forall id | id in old(repo.refs.workspaces) :: old(repo.refs.workspaces)[id].name != name) ==>
              r == Failure(NoWorkspace) && repo.Abs() == old(repo.Abs())
    ensures (exists id :: id in old(repo.refs.workspaces) && old(repo.refs.workspaces)[id].name == name) ==>
              && wid in old(repo.refs.workspaces) && old(repo.refs.workspaces)[wid].name == name
              && (forall id | id in old(repo.refs.workspaces) && old(repo.refs.workspaces)[id].name == name :: !Less(id, wid))
              && var next := Drop(old(repo.Abs()), ws, wid, author, now);
                 Takes(old(repo.Abs()), next, NextId(old(repo.ops)), fits, repo.Abs(), ErrorOf(r))
    ensures r.Success? ==>
              && wid in old(repo.refs.workspaces) && r.value == old(repo.refs.workspaces)[wid]
              && r.value.id !in repo.refs.workspaces
  {
    wid := [];
    var found := FindByName(repo.refs.workspaces, name);
    if found.None? {
      return Failure(NoWorkspace), wid;
    }
    wid := found.value;
    if ws == Secondary(found.value) {
      return Failure(InWorkspace), wid;
    }
    var target := repo.refs.workspaces[found.value];
    repo.refs := repo.refs.(workspaces := repo.refs.workspaces - {target.id});
    var log := new FileLog(repo, fits);
    var appended := log.Append(OpInProgress(author, WtDrop(target.id, target.name), [WorkspaceRef(target.id, Some(target))],
                                            [WorkspaceRef(target.id, None)]), now);
    if appended.Failure? {
      return Failure(appended.error), wid;
    }
    return Success(target), wid;
  }

  /** Reads the live value of each captured ref. */
  method CaptureCurrent(refs: RefTable, rs: seq<RefSnapshot>) returns (now: seq<RefSnapshot>)
    ensures now == ReadAll(refs, rs)
  {
    now := [];
    var i := 0;
    while i < |rs|
      invariant 0 <= i <= |rs| && |now| == i
      invariant forall k | 0 <= k < i :: now[k] == Read(refs, KeyOf(rs[k]))
    {
      now := now + [Read(refs, KeyOf(rs[i]))];
      i := i + 1;
    }
  }

  /** Writes each capture back. */
  method RestoreRefs(repo: Repository, rs: seq<RefSnapshot>)
    modifies repo`refs
    ensures repo.refs == RestoreAll(old(repo.refs), rs)
  {
    var i := 0;
    assert rs[0..] == rs;
    while i < |rs|
      invariant 0 <= i <= |rs|
      invariant RestoreAll(repo.refs, rs[i..]) == RestoreAll(old(repo.refs), rs)
    {
      assert rs[i..][1..] == rs[i + 1..];
      repo.refs := RestoreRef(repo.refs, rs[i]);
      i := i + 1;
    }
  }

  datatype UndoOutcome = UndoOutcome(undone: Op, recorded: Op)

  /** Rolls back one operation, or nothing when all are undone. */
  method Undo(repo: Repository, log: FileLog, author: Text, now: nat) returns (r: Result<Option<UndoOutcome>, Error>)
    requires log.repo == repo
    modifies repo, log
    ensures Takes(old(repo.Abs()), Success(UndoOnce(old(repo.Abs()), author, now)), old(log.nextId), log.fits,
                  repo.Abs(), ErrorOf(r))
    ensures r == Success(None) <==> Stack(old(repo.ops)) == []
    ensures r.Success? && r.value.Some? ==>
              && r.value.value.undone == Stack(old(repo.ops))[|Stack(old(repo.ops))| - 1]
              && repo.ops == old(repo.ops) + [r.value.value.recorded]
              && r.value.value.recorded.actor == author && r.value.value.recorded.ts == now
              && r.value.value.recorded.kind == OpLog.Undo(r.value.value.undone.id)
  {
    var picked := PickOpToUndo(repo.ops);
    if picked.None? {
      return Success(None);
    }
    var target := picked.value;
    var beforeUndo := CaptureCurrent(repo.refs, target.before);
    RestoreRefs(repo, target.before);
    var recorded :- log.Append(OpInProgress(author, OpLog.Undo(target.id), beforeUndo, target.before), now);
    return Success(Some(UndoOutcome(target, recorded)));
  }
}
