/** The repository as a state machine: every command that changes it, and what all runs keep. */
module Machine {
  import opened Wrappers
  import opened Lex
  import opened Objects
  import opened Refs
  import opened OpLog
  import opened Repo
  import opened Gc
  import opened TreeAlgebra

  /** Which working directory a command runs in. */
  datatype Workspace = Main | Secondary(wid: WorkspaceId)

  /** A command with everything it gets from outside: identifiers, clock, and, where it first scans
      or edits a tree, the store that this leaves and the root it computed.

      `SnapSeen` snaps a secondary workspace that was found before the lock was taken: the snapshot goes to
      the change that the manifest named then. */
  datatype Cmd =
    | StoreOnly(stored: Store)
    | SnapWorkspace(ws: Workspace, stored: Store, tree: Hash, author: Text, message: Option<Text>,
                    force: bool, freshId: ChangeId, description: Text, now: nat)
    | SnapSeen(wid: WorkspaceId, seen: ChangeId, stored: Store, tree: Hash, author: Text, message: Option<Text>,
               force: bool, now: nat)
    | SnapChange(id: ChangeId, stored: Store, tree: Hash, author: Text, message: Option<Text>,
                 force: bool, now: nat)
    | NewInWorkspace(ws: Workspace, freshId: ChangeId, description: Text, author: Text, draft: bool, now: nat)
    | CreateChange(from: Option<ChangeId>, freshId: ChangeId, description: Text, author: Text,
                   state: Option<ChangeState>, visibility: Option<VisLabel>, now: nat)
    | Transition(id: ChangeId, state: Option<ChangeState>, visibility: Option<VisLabel>, author: Text, now: nat)
    | MakeWorkspace(ws: Workspace, freshWid: WorkspaceId, name: Text, location: Text, author: Text, now: nat)
    | DropWorkspace(ws: Workspace, wid: WorkspaceId, author: Text, now: nat)
    | UndoLast(author: Text, now: nat)
    | Collect(dryRun: bool)

  const EMPTY_MESSAGE: Text := Ascii("(empty)")

  /** `max id + 1` over the records, as computed when the log is opened under the lock. */
  function NextId(ops: seq<Op>): nat {
    NextIdBounds(ops, -1);
    NextIdFrom(ops, -1)
  }

  predicate WorkspaceKnown(refs: RefTable, ws: Workspace) {
    ws.Main? || ws.wid in refs.workspaces
  }

  /** The change checked out in a workspace. */
  function CurrentChange(refs: RefTable, ws: Workspace): Option<ChangeId>
    requires WorkspaceKnown(refs, ws)
  {
    if ws.Main? then refs.head else Some(refs.workspaces[ws.wid].changeId)
  }

  function WorkspaceRefOf(refs: RefTable, ws: Workspace): RefSnapshot {
    if ws.Main? then HeadRef(refs.head) else WorkspaceRef(ws.wid, Lookup(refs.workspaces, ws.wid))
  }

  function SetCurrentChange(refs: RefTable, ws: Workspace, id: ChangeId): RefTable
    requires WorkspaceKnown(refs, ws)
  {
    if ws.Main? then refs.(head := Some(id))
    else
      var m := refs.workspaces[ws.wid].(changeId := id);
      refs.(workspaces := refs.workspaces[m.id := m])
  }

  function PutChange(refs: RefTable, c: Change): RefTable {
    refs.(changes := refs.changes[c.id := c])
  }

  function Append(ops: seq<Op>, op: OpInProgress, now: nat): seq<Op> {
    ops + [Finalize(op, NextId(ops), now)]
  }

  /** Records a snap that has already been stored. */
  function RecordSnap(st: State, stored: Store, refs': RefTable, wsRefs: (seq<RefSnapshot>, seq<RefSnapshot>),
                      before: Option<Change>, after: Change, author: Text, message: Option<Text>, now: nat): State
  {
    State(stored, refs',
          Append(st.ops,
                 OpInProgress(author, Snap(after.current, message),
                              wsRefs.0 + [ChangeRef(after.id, before)],
                              wsRefs.1 + [ChangeRef(after.id, Some(after))]), now))
  }

  function SnapIntoWorkspace(st: State, ws: Workspace, stored: Store, tree: Hash, author: Text, message: Option<Text>,
                             force: bool, freshId: ChangeId, description: Text, now: nat): Result<State, Error>
  {
    if !WorkspaceKnown(st.refs, ws) then Failure(NoWorkspace)
    else
      match CurrentChange(st.refs, ws)
      case None =>
        var snap := SnapObj(Snapshot([], tree, author, now, message));
        var c := NewChange(freshId, description, author, Foreign(0)).(current := Of(snap), history := [Of(snap)]);
        var refs' := SetCurrentChange(PutChange(st.refs, c), ws, freshId);
        Success(RecordSnap(st, Put(stored, snap), refs',
                           ([WorkspaceRefOf(st.refs, ws)], [WorkspaceRefOf(refs', ws)]), None, c, author, message, now))
      case Some(id) =>
        SnapExisting(st, id, stored, [WorkspaceRefOf(st.refs, ws)], tree, author, message, force, now)
  }

  /** Snapping an existing change: nothing is recorded when the tree is unchanged and neither a
      message nor force asks for a snapshot. The workspace ref is captured but does not move. */
  function SnapExisting(st: State, id: ChangeId, stored: Store, wsRefs: seq<RefSnapshot>, tree: Hash, author: Text,
                        message: Option<Text>, force: bool, now: nat): Result<State, Error>
  {
    if id !in st.refs.changes then Failure(NotFound)
    else
      var c := st.refs.changes[id];
      var prev :- GetSnap(stored, c.current);
      if prev.tree == tree && message.None? && !force then Success(st.(objects := stored))
      else
        var snap := SnapObj(Snapshot([c.current], tree, author, now, message));
        Success(RecordSnap(st, Put(stored, snap), PutChange(st.refs, c.Advance(Of(snap))), (wsRefs, wsRefs), Some(c),
                           c.Advance(Of(snap)), author, message, now))
  }

  /** The bootstrap snapshot of a change that has nothing to start from. */
  function EmptySnap(author: Text, now: nat): Object {
    SnapObj(Snapshot([], TreeHash([]), author, now, Some(EMPTY_MESSAGE)))
  }

  /** Where a new change starts: at an existing change or at an empty bootstrap snapshot. */
  function StartFrom(st: State, from: Option<ChangeId>, author: Text, now: nat): (Store, Hash)
    requires from.Some? ==> from.value in st.refs.changes
  {
    if from.Some? then (st.objects, st.refs.changes[from.value].current)
    else (Put(Put(st.objects, TreeObj([])), EmptySnap(author, now)), Of(EmptySnap(author, now)))
  }

  function RecordNew(st: State, stored: Store, refs': RefTable, wsRefs: (seq<RefSnapshot>, seq<RefSnapshot>), c: Change,
                     now: nat): State
  {
    State(stored, refs',
          Append(st.ops,
                 OpInProgress(c.author, ChangeNew(c.id, c.description),
                              wsRefs.0 + [ChangeRef(c.id, None)], wsRefs.1 + [ChangeRef(c.id, Some(c))]), now))
  }

  function StartNew(st: State, ws: Workspace, freshId: ChangeId, description: Text, author: Text, draft: bool, now: nat)
    : Result<State, Error>
  {
    if !WorkspaceKnown(st.refs, ws) then Failure(NoWorkspace)
    else
      var cur := CurrentChange(st.refs, ws);
      if cur.Some? && cur.value !in st.refs.changes then Failure(NotFound)
      else
        var (stored, start) := StartFrom(st, cur, author, now);
        var c := if draft then NewPrivateDraft(freshId, description, author, start)
                 else NewChange(freshId, description, author, start);
        var refs' := SetCurrentChange(PutChange(st.refs, c), ws, freshId);
        Success(RecordNew(st, stored, refs', ([WorkspaceRefOf(st.refs, ws)], [WorkspaceRefOf(refs', ws)]), c, now))
  }

  function Create(st: State, from: Option<ChangeId>, freshId: ChangeId, description: Text, author: Text,
                  state: Option<ChangeState>, visibility: Option<VisLabel>, now: nat): Result<State, Error>
  {
    if from.Some? && from.value !in st.refs.changes then Failure(NotFound)
    else
      var (stored, start) := StartFrom(st, from, author, now);
      var c := Flip(NewChange(freshId, description, author, start), state, visibility);
      Success(RecordNew(st, stored, PutChange(st.refs, c), ([], []), c, now))
  }

  function Flip(c: Change, state: Option<ChangeState>, visibility: Option<VisLabel>): Change {
    c.(state := state.GetOr(c.state), visibility := visibility.GetOr(c.visibility))
  }

  function Transit(st: State, id: ChangeId, state: Option<ChangeState>, visibility: Option<VisLabel>, author: Text, now: nat)
    : Result<State, Error>
  {
    if id !in st.refs.changes then Failure(NotFound)
    else
      var c := st.refs.changes[id];
      var c' := Flip(c, state, visibility);
      Success(State(st.objects, PutChange(st.refs, c'),
                    Append(st.ops,
                           OpInProgress(author, ChangeTransition(c'.id, c.state, c'.state, c.visibility, c'.visibility),
                                        [ChangeRef(c'.id, Some(c))], [ChangeRef(c'.id, Some(c'))]), now)))
  }

  function Make(st: State, ws: Workspace, freshWid: WorkspaceId, name: Text, location: Text, author: Text, now: nat)
    : Result<State, Error>
  {
    if !WorkspaceKnown(st.refs, ws) then Failure(NoWorkspace)
    else
      match CurrentChange(st.refs, ws)
      case None => Failure(NoCurrentChange)
      case Some(id) =>
        var m := Manifest(freshWid, name, location, id, now);
        Success(State(st.objects, st.refs.(workspaces := st.refs.workspaces[m.id := m]),
                      Append(st.ops,
                             OpInProgress(author, WtMake(m.id, m.name),
                                          [WorkspaceRef(m.id, None)], [WorkspaceRef(m.id, Some(m))]), now)))
  }

  function Drop(st: State, ws: Workspace, wid: WorkspaceId, author: Text, now: nat): Result<State, Error> {
    if wid !in st.refs.workspaces then Failure(NoWorkspace)
    else if ws == Secondary(wid) then Failure(InWorkspace)
    else
      var m := st.refs.workspaces[wid];
      Success(State(st.objects, st.refs.(workspaces := st.refs.workspaces - {m.id}),
                    Append(st.ops,
                           OpInProgress(author, WtDrop(m.id, m.name),
                                        [WorkspaceRef(m.id, Some(m))], [WorkspaceRef(m.id, None)]), now)))
  }

  /** Undoing with nothing to undo changes nothing. */
  function UndoOnce(st: State, author: Text, now: nat): State {
    if Stack(st.ops) == [] then st
    else
      var target := Stack(st.ops)[|Stack(st.ops)| - 1];
      State(st.objects, RestoreAll(st.refs, target.before), Append(st.ops, UndoRecord(target, st.refs, author), now))
  }

  ghost function Exec(st: State, c: Cmd): Result<State, Error> {
    match c
    case StoreOnly(stored) => Success(st.(objects := stored))
    case SnapWorkspace(ws, stored, tree, author, message, force, freshId, description, now) =>
      SnapIntoWorkspace(st, ws, stored, tree, author, message, force, freshId, description, now)
    case SnapSeen(wid, seen, stored, tree, author, message, force, now) =>
      SnapExisting(st, seen, stored, [WorkspaceRefOf(st.refs, Secondary(wid))], tree, author, message, force, now)
    case SnapChange(id, stored, tree, author, message, force, now) =>
      SnapExisting(st, id, stored, [], tree, author, message, force, now)
    case NewInWorkspace(ws, freshId, description, author, draft, now) =>
      StartNew(st, ws, freshId, description, author, draft, now)
    case CreateChange(from, freshId, description, author, state, visibility, now) =>
      Create(st, from, freshId, description, author, state, visibility, now)
    case Transition(id, state, visibility, author, now) => Transit(st, id, state, visibility, author, now)
    case MakeWorkspace(ws, freshWid, name, location, author, now) => Make(st, ws, freshWid, name, location, author, now)
    case DropWorkspace(ws, wid, author, now) => Drop(st, ws, wid, author, now)
    case UndoLast(author, now) => Success(UndoOnce(st, author, now))
    case Collect(dryRun) =>
      Success(if dryRun then st else st.(objects := Sweep(st.objects, Marked(st.objects, RootsOf(st, true)))))
  }

  /** What the outside world guarantees: fresh identifiers really are fresh, stores only grow
      between commands, and the signed 64-bit counter of the log is not exhausted. */
  ghost predicate Admissible(st: State, c: Cmd) {
    && |st.ops| <= 0x8000_0000_0000_0000
    && match c
       case StoreOnly(stored) => Honest(stored) && Extends(st.objects, stored)
       case SnapWorkspace(_, stored, tree, _, _, _, freshId, _, _) =>
         && Honest(stored) && Extends(st.objects, stored) && TreeOk(stored, tree)
         && freshId !in st.refs.changes
       case SnapSeen(_, _, stored, tree, _, _, _, _) =>
         Honest(stored) && Extends(st.objects, stored) && TreeOk(stored, tree)
       case SnapChange(_, stored, tree, _, _, _, _) =>
         Honest(stored) && Extends(st.objects, stored) && TreeOk(stored, tree)
       case NewInWorkspace(_, freshId, _, _, _, _) => freshId !in st.refs.changes
       case CreateChange(_, freshId, _, _, _, _, _) => freshId !in st.refs.changes
       case MakeWorkspace(_, freshWid, _, _, _, _) => freshWid !in st.refs.workspaces
       case _ => true
  }

  // --- the invariant ------------------------------------------------------------------------

  /** A well-formed tree, stored with everything the collector follows. */
  ghost predicate TreeOk(s: Store, h: Hash) {
    Complete(s, h) && IsTree(h) && WellFormed(h.obj.entries)
  }

  /** A snapshot of a well-formed tree, stored with everything the collector follows. */
  ghost predicate SnapOk(s: Store, h: Hash) {
    IsSnap(h) && Complete(s, h) && TreeOk(s, h.obj.snap.tree)
  }

  /** A change has a history ending in its current snapshot, each later element has the element
      before it as its only parent, and everything the history reaches is stored. */
  ghost predicate ChangeOk(s: Store, c: Change) {
    && c.history != [] && c.history[|c.history| - 1] == c.current
    && (forall h | h in c.history :: SnapOk(s, h))
    && (forall i | 0 < i < |c.history| ::
          IsSnap(c.history[i]) && c.history[i].obj.snap.parents == [c.history[i - 1]])
  }

  ghost predicate RefOk(s: Store, r: RefSnapshot) {
    r.ChangeRef? && r.change.Some? ==> ChangeOk(s, r.change.value)
  }

  ghost predicate OpOk(s: Store, op: Op) {
    && (forall r | r in op.before + op.after :: RefOk(s, r))
    && (op.kind.Snap? ==> Complete(s, op.kind.snapshot))
  }

  ghost predicate ChangesOk(s: Store, refs: RefTable) {
    forall id | id in refs.changes :: ChangeOk(s, refs.changes[id])
  }

  ghost predicate OpsOk(s: Store, ops: seq<Op>) {
    forall op | op in ops :: OpOk(s, op)
  }

  ghost predicate Inv(st: State) {
    && Honest(st.objects)
    && LogExplains(st.ops, st.refs)
    && ChangesOk(st.objects, st.refs)
    && OpsOk(st.objects, st.ops)
  }

  lemma ChangeOkExtends(s: Store, s': Store, c: Change)
    requires ChangeOk(s, c) && Extends(s, s')
    ensures ChangeOk(s', c)
  {
    forall h | h in c.history ensures SnapOk(s', h) {
      CompleteExtends(s, s', h);
      CompleteExtends(s, s', h.obj.snap.tree);
    }
  }

  lemma OpOkExtends(s: Store, s': Store, op: Op)
    requires OpOk(s, op) && Extends(s, s')
    ensures OpOk(s', op)
  {
    forall r | r in op.before + op.after ensures RefOk(s', r) {
      if r.ChangeRef? && r.change.Some? {
        ChangeOkExtends(s, s', r.change.value);
      }
    }
    if op.kind.Snap? {
      CompleteExtends(s, s', op.kind.snapshot);
    }
  }

  lemma StoredOk(s: Store, s': Store, refs: RefTable, ops: seq<Op>)
    requires ChangesOk(s, refs) && OpsOk(s, ops) && Extends(s, s')
    ensures ChangesOk(s', refs) && OpsOk(s', ops)
  {
    forall id | id in refs.changes ensures ChangeOk(s', refs.changes[id]) {
      ChangeOkExtends(s, s', refs.changes[id]);
    }
    forall op | op in ops ensures OpOk(s', op) {
      OpOkExtends(s, s', op);
    }
  }

  /** Captures of exactly the refs that differ record the step. */
  lemma RecordsDifference(op: Op, s: RefTable, s': RefTable)
    requires WellKeyed(s) && WellKeyed(s')
    requires Captures(s, op.before) && Captures(s', op.after) && Keys(op.before) == Keys(op.after)
    requires forall k | k !in Keys(op.after) :: Read(s, k) == Read(s', k)
    ensures Records(op, s, s')
  {
    forall k ensures Read(RestoreAll(s, op.after), k) == Read(s', k) {
      RestoreTowards(s, op.after, s', k);
    }
    SameReads(RestoreAll(s, op.after), s');
  }

  /** `op` is an honest record of going from `refs` to `refs'`, and no change disappears. */
  ghost predicate Commits(refs: RefTable, refs': RefTable, op: OpInProgress) {
    && WellKeyed(refs') && NothingDangles(refs')
    && refs.changes.Keys <= refs'.changes.Keys && refs'.changes != map[] && !op.kind.Undo?
    && Captures(refs, op.before) && Captures(refs', op.after) && Keys(op.before) == Keys(op.after)
    && forall k | k !in Keys(op.after) :: Read(refs, k) == Read(refs', k)
  }

  lemma LogCommit(ops: seq<Op>, refs: RefTable, refs': RefTable, op: OpInProgress, now: nat)
    requires LogExplains(ops, refs) && Commits(refs, refs', op) && |ops| <= 0x8000_0000_0000_0000
    ensures Append(ops, op, now) == ops + [Finalize(op, |ops|, now)]
    ensures LogExplains(Append(ops, op, now), refs')
    ensures Stack(Append(ops, op, now)) == Stack(ops) + [Finalize(op, |ops|, now)]
  {
    NextIdOfNumbered(ops);
    LogExplainsRefs(ops, refs);
    RecordsDifference(Finalize(op, |ops|, now), refs, refs');
    RecordExplains(ops, refs, Finalize(op, |ops|, now), refs');
  }

  lemma RecordedOpOk(s: Store, refs: RefTable, refs': RefTable, op: OpInProgress, id: nat, now: nat)
    requires ChangesOk(s, refs) && ChangesOk(s, refs') && Commits(refs, refs', op)
    requires op.kind.Snap? ==> Complete(s, op.kind.snapshot)
    ensures OpOk(s, Finalize(op, id, now))
  {
    forall r | r in op.before + op.after ensures RefOk(s, r) {
      assert r == Read(refs, KeyOf(r)) || r == Read(refs', KeyOf(r));
    }
  }

  /** Committing one recorded operation keeps the invariant. */
  lemma InvCommit(st: State, stored: Store, refs': RefTable, op: OpInProgress, now: nat)
    requires Inv(st) && Honest(stored) && Extends(st.objects, stored) && |st.ops| <= 0x8000_0000_0000_0000
    requires Commits(st.refs, refs', op) && ChangesOk(stored, refs')
    requires op.kind.Snap? ==> Complete(stored, op.kind.snapshot)
    ensures Inv(State(stored, refs', Append(st.ops, op, now)))
  {
    LogCommit(st.ops, st.refs, refs', op, now);
    StoredOk(st.objects, stored, st.refs, st.ops);
    RecordedOpOk(stored, st.refs, refs', op, |st.ops|, now);
    var full := Finalize(op, |st.ops|, now);
    forall x | x in st.ops + [full] ensures OpOk(stored, x) {
      assert x in st.ops || x == full;
    }
  }

  // --- what the single commands record ------------------------------------------------------

  lemma PutChangeOk(s: Store, refs: RefTable, c: Change)
    requires ChangesOk(s, refs) && ChangeOk(s, c)
    ensures ChangesOk(s, PutChange(refs, c))
  {
  }

  lemma KeysOfAppend(rs: seq<RefSnapshot>, r: RefSnapshot)
    ensures Keys(rs + [r]) == Keys(rs) + {KeyOf(r)}
  {
    assert (rs + [r])[|rs|] == r;
    assert forall x | x in rs :: x in rs + [r];
  }

  lemma KeysOfOne(r: RefSnapshot)
    ensures Keys([r]) == {KeyOf(r)}
  {
    assert [r][0] == r;
  }

  lemma CapturesAppend(t: RefTable, rs: seq<RefSnapshot>, r: RefSnapshot)
    requires Captures(t, rs) && r == Read(t, KeyOf(r))
    ensures Captures(t, rs + [r])
  {
  }

  /** A new change, checked out in the workspace it was made in. */
  lemma NewCommits(refs: RefTable, ws: Workspace, c: Change, actor: Text, kind: OpKind)
    requires WellKeyed(refs) && NothingDangles(refs) && WorkspaceKnown(refs, ws) && c.id !in refs.changes && !kind.Undo?
    ensures var refs' := SetCurrentChange(PutChange(refs, c), ws, c.id);
            Commits(refs, refs', OpInProgress(actor, kind, [WorkspaceRefOf(refs, ws)] + [ChangeRef(c.id, None)],
                                              [WorkspaceRefOf(refs', ws)] + [ChangeRef(c.id, Some(c))]))
  {
    var refs' := SetCurrentChange(PutChange(refs, c), ws, c.id);
    KeysOfOne(WorkspaceRefOf(refs, ws));
    KeysOfOne(WorkspaceRefOf(refs', ws));
    KeysOfAppend([WorkspaceRefOf(refs, ws)], ChangeRef(c.id, None));
    KeysOfAppend([WorkspaceRefOf(refs', ws)], ChangeRef(c.id, Some(c)));
    CapturesAppend(refs, [WorkspaceRefOf(refs, ws)], ChangeRef(c.id, None));
    CapturesAppend(refs', [WorkspaceRefOf(refs', ws)], ChangeRef(c.id, Some(c)));
    assert c.id in refs'.changes;
  }

  /** A change record that was written; workspace refs may be captured alongside, unchanged. */
  lemma WriteCommits(refs: RefTable, c: Change, wsRefs: seq<RefSnapshot>, actor: Text, kind: OpKind)
    requires WellKeyed(refs) && NothingDangles(refs) && !kind.Undo?
    requires Captures(refs, wsRefs) && forall r | r in wsRefs :: !r.ChangeRef?
    ensures Commits(refs, PutChange(refs, c),
                    OpInProgress(actor, kind, wsRefs + [ChangeRef(c.id, Lookup(refs.changes, c.id))],
                                 wsRefs + [ChangeRef(c.id, Some(c))]))
  {
    var refs' := PutChange(refs, c);
    var before := ChangeRef(c.id, Lookup(refs.changes, c.id));
    KeysOfAppend(wsRefs, before);
    KeysOfAppend(wsRefs, ChangeRef(c.id, Some(c)));
    CapturesAppend(refs, wsRefs, before);
    forall r | r in wsRefs ensures r == Read(refs', KeyOf(r)) {
      assert Read(refs', KeyOf(r)) == Read(refs, KeyOf(r));
    }
    CapturesAppend(refs', wsRefs, ChangeRef(c.id, Some(c)));
    assert c.id in refs'.changes;
  }

  /** A workspace manifest that was written or removed. */
  lemma WorkspaceCommits(refs: RefTable, wid: WorkspaceId, after: Option<Manifest>, actor: Text, kind: OpKind)
    requires WellKeyed(refs) && NothingDangles(refs) && !kind.Undo? && refs.changes != map[]
    requires after.Some? ==> after.value.id == wid && after.value.changeId in refs.changes
    ensures var refs' := refs.(workspaces := if after.Some? then refs.workspaces[wid := after.value]
                                             else refs.workspaces - {wid});
            Commits(refs, refs', OpInProgress(actor, kind, [WorkspaceRef(wid, Lookup(refs.workspaces, wid))],
                                              [WorkspaceRef(wid, after)]))
  {
    KeysOfOne(WorkspaceRef(wid, Lookup(refs.workspaces, wid)));
    KeysOfOne(WorkspaceRef(wid, after));
  }

  /** A snapshot taken on top of the current one is always a new current one. */
  lemma AdvanceMoves(c: Change, snap: Snapshot)
    requires snap.parents == [c.current]
    ensures c.Advance(Of(SnapObj(snap))).current == Of(SnapObj(snap))
    ensures c.Advance(Of(SnapObj(snap))).history == c.history + [Of(SnapObj(snap))]
  {
    SnapshotIsNotItsParent(snap);
    assert c.current in snap.parents;
  }

  /** An advanced change is fine when its new snapshot is. */
  lemma AdvanceOk(s: Store, c: Change, snap: Snapshot)
    requires ChangeOk(s, c) && snap.parents == [c.current] && SnapOk(s, Of(SnapObj(snap)))
    ensures ChangeOk(s, c.Advance(Of(SnapObj(snap))))
    ensures c.Advance(Of(SnapObj(snap))).current == Of(SnapObj(snap))
  {
    AdvanceMoves(c, snap);
  }

  lemma SnapComplete(s: Store, snap: Snapshot)
    requires TreeOk(s, snap.tree) && (forall p | p in snap.parents :: Complete(s, p)) && Honest(s)
    ensures SnapOk(Put(s, SnapObj(snap)), Of(SnapObj(snap)))
  {
    var s' := Put(s, SnapObj(snap));
    CompleteExtends(s, s', snap.tree);
    forall p | p in snap.parents ensures Complete(s', p) {
      CompleteExtends(s, s', p);
    }
  }

  /** Advancing a change by a snapshot of a complete tree. */
  lemma InvAdvance(st: State, stored: Store, wsRefs: seq<RefSnapshot>, id: ChangeId, snap: Snapshot, now: nat)
    requires Inv(st) && Honest(stored) && Extends(st.objects, stored) && |st.ops| <= 0x8000_0000_0000_0000
    requires id in st.refs.changes && snap.parents == [st.refs.changes[id].current] && TreeOk(stored, snap.tree)
    requires Captures(st.refs, wsRefs) && forall r | r in wsRefs :: !r.ChangeRef?
    ensures var c := st.refs.changes[id];
            var c' := c.Advance(Of(SnapObj(snap)));
            Inv(RecordSnap(st, Put(stored, SnapObj(snap)), PutChange(st.refs, c'), (wsRefs, wsRefs), Some(c), c',
                           snap.author, snap.message, now))
  {
    var s' := Put(stored, SnapObj(snap));
    var c := st.refs.changes[id];
    LogExplainsRefs(st.ops, st.refs);
    StoredOk(st.objects, stored, st.refs, st.ops);
    assert ChangeOk(stored, c) && c.current in c.history;
    SnapComplete(stored, snap);
    StoredOk(stored, s', st.refs, st.ops);
    AdvanceOk(s', c, snap);
    var c' := c.Advance(Of(SnapObj(snap)));
    PutChangeOk(s', st.refs, c');
    WriteCommits(st.refs, c', wsRefs, snap.author, Snap(c'.current, snap.message));
    InvCommit(st, s', PutChange(st.refs, c'),
              OpInProgress(snap.author, Snap(c'.current, snap.message),
                           wsRefs + [ChangeRef(c'.id, Some(c))], wsRefs + [ChangeRef(c'.id, Some(c'))]), now);
  }

  /** Recording a new change that is checked out where it was made. */
  lemma InvNewChange(st: State, stored: Store, ws: Workspace, c: Change, kind: OpKind, now: nat)
    requires Inv(st) && Honest(stored) && Extends(st.objects, stored) && |st.ops| <= 0x8000_0000_0000_0000
    requires WorkspaceKnown(st.refs, ws) && c.id !in st.refs.changes && ChangeOk(stored, c)
    requires !kind.Undo? && (kind.Snap? ==> Complete(stored, kind.snapshot))
    ensures var refs' := SetCurrentChange(PutChange(st.refs, c), ws, c.id);
            Inv(State(stored, refs', Append(st.ops,
                  OpInProgress(c.author, kind, [WorkspaceRefOf(st.refs, ws)] + [ChangeRef(c.id, None)],
                               [WorkspaceRefOf(refs', ws)] + [ChangeRef(c.id, Some(c))]), now)))
  {
    LogExplainsRefs(st.ops, st.refs);
    StoredOk(st.objects, stored, st.refs, st.ops);
    PutChangeOk(stored, st.refs, c);
    NewCommits(st.refs, ws, c, c.author, kind);
    var refs' := SetCurrentChange(PutChange(st.refs, c), ws, c.id);
    assert refs'.changes == PutChange(st.refs, c).changes;
    InvCommit(st, stored, refs', OpInProgress(c.author, kind, [WorkspaceRefOf(st.refs, ws)] + [ChangeRef(c.id, None)],
                                              [WorkspaceRefOf(refs', ws)] + [ChangeRef(c.id, Some(c))]), now);
  }

  lemma CurrentIsStored(s: Store, c: Change)
    requires ChangeOk(s, c) && Honest(s)
    ensures SnapOk(s, c.current) && GetSnap(s, c.current).Success?
  {
    assert c.current in c.history;
  }

  lemma InvSnapExisting(st: State, id: ChangeId, stored: Store, wsRefs: seq<RefSnapshot>, tree: Hash, author: Text,
                        message: Option<Text>, force: bool, now: nat)
    requires Inv(st) && Admissible(st, SnapChange(id, stored, tree, author, message, force, now))
    requires Captures(st.refs, wsRefs) && forall r | r in wsRefs :: !r.ChangeRef?
    ensures var r := SnapExisting(st, id, stored, wsRefs, tree, author, message, force, now);
            && (r.Success? <==> id in st.refs.changes)
            && (r.Success? ==> Inv(r.value))
  {
    StoredOk(st.objects, stored, st.refs, st.ops);
    if id in st.refs.changes {
      var c := st.refs.changes[id];
      CurrentIsStored(stored, c);
      if !(GetSnap(stored, c.current).value.tree == tree && message.None? && !force) {
        InvAdvance(st, stored, wsRefs, id, Snapshot([c.current], tree, author, now, message), now);
      }
    }
  }

  lemma InvSnapWorkspace(st: State, ws: Workspace, stored: Store, tree: Hash, author: Text, message: Option<Text>,
                         force: bool, freshId: ChangeId, description: Text, now: nat)
    requires Inv(st)
    requires Admissible(st, SnapWorkspace(ws, stored, tree, author, message, force, freshId, description, now))
    ensures var r := SnapIntoWorkspace(st, ws, stored, tree, author, message, force, freshId, description, now);
            && (r.Success? <==> WorkspaceKnown(st.refs, ws))
            && (r.Success? ==> Inv(r.value))
  {
    LogExplainsRefs(st.ops, st.refs);
    if WorkspaceKnown(st.refs, ws) {
      match CurrentChange(st.refs, ws)
      case None =>
        var snap := Snapshot([], tree, author, now, message);
        var h := Of(SnapObj(snap));
        SnapComplete(stored, snap);
        var c := NewChange(freshId, description, author, Foreign(0)).(current := h, history := [h]);
        InvNewChange(st, Put(stored, SnapObj(snap)), ws, c, Snap(h, message), now);
      case Some(id) =>
        assert id in st.refs.changes;
        InvSnapExisting(st, id, stored, [WorkspaceRefOf(st.refs, ws)], tree, author, message, force, now);
    }
  }

  lemma EmptySnapStored(s: Store, author: Text, now: nat)
    requires Honest(s)
    ensures var s' := Put(Put(s, TreeObj([])), EmptySnap(author, now));
            Honest(s') && Extends(s, s') && SnapOk(s', Of(EmptySnap(author, now)))
  {
    assert Complete(Put(s, TreeObj([])), TreeHash([]));
    SnapComplete(Put(s, TreeObj([])), EmptySnap(author, now).snap);
  }

  /** A change that starts from a stored snapshot. */
  lemma FirstSnapshotOk(s: Store, c: Change)
    requires SnapOk(s, c.current) && c.history == [c.current]
    ensures ChangeOk(s, c)
  {
  }

  lemma StartIsStored(st: State, from: Option<ChangeId>, author: Text, now: nat)
    requires Honest(st.objects) && ChangesOk(st.objects, st.refs)
    requires from.Some? ==> from.value in st.refs.changes
    ensures var (stored, h) := StartFrom(st, from, author, now);
            Honest(stored) && Extends(st.objects, stored) && SnapOk(stored, h)
  {
    EmptySnapStored(st.objects, author, now);
    if from.Some? {
      var c := st.refs.changes[from.value];
      assert ChangeOk(st.objects, c) && c.current in c.history;
    }
  }

  lemma InvNew(st: State, ws: Workspace, freshId: ChangeId, description: Text, author: Text, draft: bool, now: nat)
    requires Inv(st) && Admissible(st, NewInWorkspace(ws, freshId, description, author, draft, now))
    ensures var r := StartNew(st, ws, freshId, description, author, draft, now);
            && (r.Success? <==> WorkspaceKnown(st.refs, ws))
            && (r.Success? ==> Inv(r.value))
  {
    LogExplainsRefs(st.ops, st.refs);
    if WorkspaceKnown(st.refs, ws) {
      var cur := CurrentChange(st.refs, ws);
      StartIsStored(st, cur, author, now);
      var (stored, start) := StartFrom(st, cur, author, now);
      var c := if draft then NewPrivateDraft(freshId, description, author, start)
               else NewChange(freshId, description, author, start);
      FirstSnapshotOk(stored, c);
      InvNewChange(st, stored, ws, c, ChangeNew(c.id, c.description), now);
    }
  }

  lemma InvCreate(st: State, from: Option<ChangeId>, freshId: ChangeId, description: Text, author: Text,
                  state: Option<ChangeState>, visibility: Option<VisLabel>, now: nat)
    requires Inv(st) && Admissible(st, CreateChange(from, freshId, description, author, state, visibility, now))
    ensures var r := Create(st, from, freshId, description, author, state, visibility, now);
            && (r.Success? <==> from.Some? ==> from.value in st.refs.changes)
            && (r.Success? ==> Inv(r.value))
  {
    if from.Some? ==> from.value in st.refs.changes {
      StartIsStored(st, from, author, now);
      var (stored, start) := StartFrom(st, from, author, now);
      var c := Flip(NewChange(freshId, description, author, start), state, visibility);
      FirstSnapshotOk(stored, c);
      InvOneChange(st, stored, c, c.author, ChangeNew(c.id, c.description), now);
    }
  }

  /** An operation that writes a single change record. */
  lemma InvOneChange(st: State, stored: Store, c: Change, actor: Text, kind: OpKind, now: nat)
    requires Inv(st) && Honest(stored) && Extends(st.objects, stored) && |st.ops| <= 0x8000_0000_0000_0000
    requires ChangeOk(stored, c) && !kind.Undo? && !kind.Snap?
    ensures Inv(State(stored, PutChange(st.refs, c),
                      Append(st.ops, OpInProgress(actor, kind, [] + [ChangeRef(c.id, Lookup(st.refs.changes, c.id))],
                                                  [] + [ChangeRef(c.id, Some(c))]), now)))
  {
    LogExplainsRefs(st.ops, st.refs);
    StoredOk(st.objects, stored, st.refs, st.ops);
    PutChangeOk(stored, st.refs, c);
    WriteCommits(st.refs, c, [], actor, kind);
    InvCommit(st, stored, PutChange(st.refs, c),
              OpInProgress(actor, kind, [] + [ChangeRef(c.id, Lookup(st.refs.changes, c.id))],
                           [] + [ChangeRef(c.id, Some(c))]), now);
  }

  lemma TransitCommits(st: State, id: ChangeId, state: Option<ChangeState>, visibility: Option<VisLabel>, author: Text, now: nat)
    requires id in st.refs.changes && st.refs.changes[id].id == id
    ensures var c := st.refs.changes[id];
            var c' := Flip(c, state, visibility);
            Transit(st, id, state, visibility, author, now)
            == Success(State(st.objects, PutChange(st.refs, c'),
                             Append(st.ops,
                                    OpInProgress(author, ChangeTransition(c'.id, c.state, c'.state, c.visibility, c'.visibility),
                                                 [] + [ChangeRef(c'.id, Lookup(st.refs.changes, c'.id))],
                                                 [] + [ChangeRef(c'.id, Some(c'))]), now)))
  {
    var c := st.refs.changes[id];
    var c' := Flip(c, state, visibility);
    assert [] + [ChangeRef(id, Some(c))] == [ChangeRef(id, Some(c))];
    assert [] + [ChangeRef(id, Some(c'))] == [ChangeRef(id, Some(c'))];
  }

  lemma InvTransition(st: State, id: ChangeId, state: Option<ChangeState>, visibility: Option<VisLabel>, author: Text, now: nat)
    requires Inv(st) && Admissible(st, Transition(id, state, visibility, author, now))
    ensures var r := Transit(st, id, state, visibility, author, now);
            (r.Success? <==> id in st.refs.changes) && (r.Success? ==> Inv(r.value))
  {
    if id in st.refs.changes {
      LogExplainsRefs(st.ops, st.refs);
      var c := st.refs.changes[id];
      var c' := Flip(c, state, visibility);
      assert ChangeOk(st.objects, c);
      InvOneChange(st, st.objects, c', author,
                   ChangeTransition(c'.id, c.state, c'.state, c.visibility, c'.visibility), now);
      TransitCommits(st, id, state, visibility, author, now);
    }
  }

  /** An operation that writes or removes a single workspace manifest. */
  lemma InvOneWorkspace(st: State, wid: WorkspaceId, after: Option<Manifest>, actor: Text, kind: OpKind, now: nat)
    requires Inv(st) && |st.ops| <= 0x8000_0000_0000_0000 && st.refs.changes != map[]
    requires after.Some? ==> after.value.id == wid && after.value.changeId in st.refs.changes
    requires !kind.Undo? && !kind.Snap?
    ensures var refs' := st.refs.(workspaces := if after.Some? then st.refs.workspaces[wid := after.value]
                                                else st.refs.workspaces - {wid});
            Inv(State(st.objects, refs',
                      Append(st.ops, OpInProgress(actor, kind, [WorkspaceRef(wid, Lookup(st.refs.workspaces, wid))],
                                                  [WorkspaceRef(wid, after)]), now)))
  {
    LogExplainsRefs(st.ops, st.refs);
    WorkspaceCommits(st.refs, wid, after, actor, kind);
    var refs' := st.refs.(workspaces := if after.Some? then st.refs.workspaces[wid := after.value]
                                        else st.refs.workspaces - {wid});
    assert ChangesOk(st.objects, refs');
    InvCommit(st, st.objects, refs', OpInProgress(actor, kind, [WorkspaceRef(wid, Lookup(st.refs.workspaces, wid))],
                                                  [WorkspaceRef(wid, after)]), now);
  }

  lemma InvMake(st: State, ws: Workspace, freshWid: WorkspaceId, name: Text, location: Text, author: Text, now: nat)
    requires Inv(st) && Admissible(st, MakeWorkspace(ws, freshWid, name, location, author, now))
    ensures var r := Make(st, ws, freshWid, name, location, author, now);
            && (r.Success? <==> WorkspaceKnown(st.refs, ws) && CurrentChange(st.refs, ws).Some?)
            && (r.Success? ==> Inv(r.value))
  {
    LogExplainsRefs(st.ops, st.refs);
    if WorkspaceKnown(st.refs, ws) && CurrentChange(st.refs, ws).Some? {
      var id := CurrentChange(st.refs, ws).value;
      assert id in st.refs.changes;
      InvOneWorkspace(st, freshWid, Some(Manifest(freshWid, name, location, id, now)), author, WtMake(freshWid, name), now);
    }
  }

  lemma InvDrop(st: State, ws: Workspace, wid: WorkspaceId, author: Text, now: nat)
    requires Inv(st) && Admissible(st, DropWorkspace(ws, wid, author, now))
    ensures var r := Drop(st, ws, wid, author, now);
            && (r.Success? <==> wid in st.refs.workspaces && ws != Secondary(wid))
            && (r.Success? ==> Inv(r.value))
  {
    LogExplainsRefs(st.ops, st.refs);
    if wid in st.refs.workspaces && ws != Secondary(wid) {
      var m := st.refs.workspaces[wid];
      assert m.changeId in st.refs.changes;
      InvOneWorkspace(st, wid, None, author, WtDrop(m.id, m.name), now);
    }
  }

  /** The captures of an undo come from the refs before it and from the operation it undoes. */
  lemma UndoneOk(s: Store, refs: RefTable, target: Op, author: Text, id: nat, now: nat)
    requires ChangesOk(s, refs) && OpOk(s, target)
    ensures OpOk(s, Finalize(UndoRecord(target, refs, author), id, now))
    ensures ChangesOk(s, RestoreAll(refs, target.before))
  {
    var undo := Finalize(UndoRecord(target, refs, author), id, now);
    ReadAllCaptures(refs, target.before);
    assert forall r | r in target.before :: r in target.before + target.after;
    forall r | r in undo.before + undo.after ensures RefOk(s, r) {
      assert r in undo.before ==> r == Read(refs, KeyOf(r));
    }
    var refs' := RestoreAll(refs, target.before);
    forall c | c in refs'.changes ensures ChangeOk(s, refs'.changes[c]) {
      RestoreAllSource(refs, target.before, c);
    }
  }

  lemma InvUndo(st: State, author: Text, now: nat)
    requires Inv(st) && |st.ops| <= 0x8000_0000_0000_0000
    ensures Inv(UndoOnce(st, author, now))
    ensures Stack(st.ops) != [] ==>
              (UndoOnce(st, author, now).ops, UndoOnce(st, author, now).refs) == UndoTop(st.ops, st.refs, author, now)
  {
    if Stack(st.ops) != [] {
      NextIdOfNumbered(st.ops);
      UndoExplains(st.ops, st.refs, author, now);
      StackFromLog(st.ops);
      var target := Stack(st.ops)[|Stack(st.ops)| - 1];
      assert target in st.ops;
      UndoneOk(st.objects, st.refs, target, author, |st.ops|, now);
    }
  }

  /** Every change record of a restored table was there before or comes from a capture. */
  lemma {:induction false} RestoreAllSource(t: RefTable, rs: seq<RefSnapshot>, id: ChangeId)
    requires id in RestoreAll(t, rs).changes
    ensures var c := RestoreAll(t, rs).changes[id];
            || (id in t.changes && t.changes[id] == c)
            || exists r :: r in rs && r.ChangeRef? && r.change == Some(c)
    decreases |rs|
  {
    if rs != [] {
      assert rs[0] in rs;
      RestoreAllSource(RestoreRef(t, rs[0]), rs[1..], id);
    }
  }

  /** Collection keeps the closure of everything a change or the log names. */
  lemma InvCollect(st: State)
    requires Inv(st)
    ensures Inv(st.(objects := Sweep(st.objects, Marked(st.objects, RootsOf(st, true)))))
  {
    var m := Marked(st.objects, RootsOf(st, true));
    var s' := Sweep(st.objects, m);
    MarkedIsLeast(st.objects, RootsOf(st, true));
    forall id | id in st.refs.changes ensures ChangeOk(s', st.refs.changes[id]) {
      assert Named(st.refs.changes[id]) <= LiveRoots(st.refs);
      SweepKeepsChange(st.objects, m, st.refs.changes[id]);
    }
    forall op | op in st.ops ensures OpOk(s', op) {
      assert OpRoots(op) <= LogRoots(st.ops) <= m;
      forall r | r in op.before + op.after ensures RefOk(s', r) {
        if r.ChangeRef? && r.change.Some? {
          assert CaptureRoots(r) <= OpRoots(op);
          SweepKeepsChange(st.objects, m, r.change.value);
        }
      }
      if op.kind.Snap? {
        assert op.kind.snapshot in OpRoots(op);
        SweepKeepsComplete(st.objects, m, op.kind.snapshot);
      }
    }
  }

  lemma SweepKeepsChange(s: Store, m: set<Hash>, c: Change)
    requires ChangeOk(s, c) && Closed(s, m) && Named(c) <= m
    ensures ChangeOk(Sweep(s, m), c)
  {
    forall h | h in c.history ensures SnapOk(Sweep(s, m), h) {
      assert h in Named(c);
      SweepKeepsComplete(s, m, h);
    }
  }

  /** Every command keeps the invariant. */
  lemma StepKeepsInv(st: State, c: Cmd)
    requires Inv(st) && Admissible(st, c) && Exec(st, c).Success?
    ensures Inv(Exec(st, c).value)
  {
    match c
    case StoreOnly(stored) => StoredOk(st.objects, stored, st.refs, st.ops);
    case SnapWorkspace(ws, stored, tree, author, message, force, freshId, description, now) =>
      InvSnapWorkspace(st, ws, stored, tree, author, message, force, freshId, description, now);
    case SnapSeen(wid, seen, stored, tree, author, message, force, now) =>
      LogExplainsRefs(st.ops, st.refs);
      InvSnapExisting(st, seen, stored, [WorkspaceRefOf(st.refs, Secondary(wid))], tree, author, message, force, now);
    case SnapChange(id, stored, tree, author, message, force, now) =>
      InvSnapExisting(st, id, stored, [], tree, author, message, force, now);
    case NewInWorkspace(ws, freshId, description, author, draft, now) =>
      InvNew(st, ws, freshId, description, author, draft, now);
    case CreateChange(from, freshId, description, author, state, visibility, now) =>
      InvCreate(st, from, freshId, description, author, state, visibility, now);
    case Transition(id, state, visibility, author, now) => InvTransition(st, id, state, visibility, author, now);
    case MakeWorkspace(ws, freshWid, name, location, author, now) =>
      InvMake(st, ws, freshWid, name, location, author, now);
    case DropWorkspace(ws, wid, author, now) => InvDrop(st, ws, wid, author, now);
    case UndoLast(author, now) => InvUndo(st, author, now);
    case Collect(dryRun) => InvCollect(st);
  }

  /** The only reasons for which a command can fail: its arguments name something that does not
      exist, or there is nothing checked out. */
  ghost predicate ArgumentsExist(refs: RefTable, c: Cmd) {
    match c
    case SnapWorkspace(ws, _, _, _, _, _, _, _, _) => WorkspaceKnown(refs, ws)
    case SnapSeen(_, seen, _, _, _, _, _, _) => seen in refs.changes
    case SnapChange(id, _, _, _, _, _, _) => id in refs.changes
    case NewInWorkspace(ws, _, _, _, _, _) => WorkspaceKnown(refs, ws)
    case CreateChange(from, _, _, _, _, _, _) => from.Some? ==> from.value in refs.changes
    case Transition(id, _, _, _, _) => id in refs.changes
    case MakeWorkspace(ws, _, _, _, _, _) => WorkspaceKnown(refs, ws) && CurrentChange(refs, ws).Some?
    case DropWorkspace(ws, wid, _, _) => wid in refs.workspaces && ws != Secondary(wid)
    case _ => true
  }

  /** No command ever meets a dangling ref or a missing object, whatever was undone or collected. */
  lemma CommandsFailOnlyOnArguments(st: State, c: Cmd)
    requires Inv(st) && Admissible(st, c)
    ensures Exec(st, c).Success? <==> ArgumentsExist(st.refs, c)
  {
    match c
    case SnapWorkspace(ws, stored, tree, author, message, force, freshId, description, now) =>
      InvSnapWorkspace(st, ws, stored, tree, author, message, force, freshId, description, now);
    case SnapSeen(wid, seen, stored, tree, author, message, force, now) =>
      LogExplainsRefs(st.ops, st.refs);
      InvSnapExisting(st, seen, stored, [WorkspaceRefOf(st.refs, Secondary(wid))], tree, author, message, force, now);
    case SnapChange(id, stored, tree, author, message, force, now) =>
      InvSnapExisting(st, id, stored, [], tree, author, message, force, now);
    case NewInWorkspace(ws, freshId, description, author, draft, now) =>
      InvNew(st, ws, freshId, description, author, draft, now);
    case CreateChange(from, freshId, description, author, state, visibility, now) =>
      InvCreate(st, from, freshId, description, author, state, visibility, now);
    case Transition(id, state, visibility, author, now) => InvTransition(st, id, state, visibility, author, now);
    case MakeWorkspace(ws, freshWid, name, location, author, now) =>
      InvMake(st, ws, freshWid, name, location, author, now);
    case DropWorkspace(ws, wid, author, now) => InvDrop(st, ws, wid, author, now);
    case _ =>
  }

  // --- whole runs ---------------------------------------------------------------------------

  const INITIAL: State := State(map[], NO_REFS, [])

  /** A failed command leaves the repository as it was. */
  ghost function After(st: State, c: Cmd): State {
    if Exec(st, c).Success? then Exec(st, c).value else st
  }

  ghost function Run(cs: seq<Cmd>): State {
    if cs == [] then INITIAL else After(Run(cs[..|cs| - 1]), cs[|cs| - 1])
  }

  ghost predicate ValidRun(cs: seq<Cmd>) {
    cs != [] ==> ValidRun(cs[..|cs| - 1]) && Admissible(Run(cs[..|cs| - 1]), cs[|cs| - 1])
  }

  lemma {:induction false} RunKeepsInv(cs: seq<Cmd>)
    requires ValidRun(cs)
    ensures Inv(Run(cs))
  {
    if cs != [] {
      var st, c := Run(cs[..|cs| - 1]), cs[|cs| - 1];
      RunKeepsInv(cs[..|cs| - 1]);
      if Exec(st, c).Success? {
        StepKeepsInv(st, c);
      }
    }
  }

  lemma NamedComplete(s: Store, c: Change)
    requires ChangeOk(s, c)
    ensures forall h | h in Named(c) :: Complete(s, h)
  {
    assert c.current in c.history;
  }

  lemma OpRootsComplete(s: Store, op: Op)
    requires OpOk(s, op)
    ensures forall h | h in OpRoots(op) :: Complete(s, h)
  {
    forall r | r in op.before + op.after ensures forall h | h in CaptureRoots(r) :: Complete(s, h) {
      assert RefOk(s, r);
      if r.ChangeRef? && r.change.Some? {
        NamedComplete(s, r.change.value);
      }
    }
  }

  lemma RootsComplete(st: State)
    requires Inv(st)
    ensures forall h | h in RootsOf(st, true) :: Complete(st.objects, h)
  {
    forall id | id in st.refs.changes ensures forall h | h in Named(st.refs.changes[id]) :: Complete(st.objects, h) {
      assert ChangeOk(st.objects, st.refs.changes[id]);
      NamedComplete(st.objects, st.refs.changes[id]);
    }
    forall op | op in st.ops ensures forall h | h in OpRoots(op) :: Complete(st.objects, h) {
      OpRootsComplete(st.objects, op);
    }
  }

  /** The snapshots that a change names are stored with their full closure. */
  ghost predicate NamedStored(s: Store, c: Change) {
    Complete(s, c.current) && forall h | h in c.history :: Complete(s, h)
  }

  /** In every run, whatever a live change or any record of the log names is stored with its full
      followed closure: the snapshots of live changes, of the changes that records captured before and after,
      and those whose taking was recorded. These are the roots of a collection. */
  lemma RunKeepsEverythingNamed(cs: seq<Cmd>)
    requires ValidRun(cs)
    ensures forall h | h in RootsOf(Run(cs), true) :: Complete(Run(cs).objects, h)
    ensures forall id | id in Run(cs).refs.changes :: NamedStored(Run(cs).objects, Run(cs).refs.changes[id])
    ensures forall op, r | op in Run(cs).ops && r in op.before + op.after && r.ChangeRef? && r.change.Some? ::
              NamedStored(Run(cs).objects, r.change.value)
    ensures forall op | op in Run(cs).ops && op.kind.Snap? :: Complete(Run(cs).objects, op.kind.snapshot)
  {
    RunKeepsInv(cs);
    RootsComplete(Run(cs));
    var st := Run(cs);
    forall id | id in st.refs.changes ensures NamedStored(st.objects, st.refs.changes[id]) {
      assert ChangeOk(st.objects, st.refs.changes[id]);
      NamedComplete(st.objects, st.refs.changes[id]);
    }
    forall op, r | op in st.ops && r in op.before + op.after && r.ChangeRef? && r.change.Some?
      ensures NamedStored(st.objects, r.change.value)
    {
      assert OpOk(st.objects, op) && RefOk(st.objects, r);
      NamedComplete(st.objects, r.change.value);
    }
  }

  /** Collecting in any reachable repository leaves a named snapshot, if it could be materialized
      before, materializable exactly when every symlink below it leads to a blob that is marked for
      another reason. */
  lemma CollectKeepsContentIff(st: State, h: Hash)
    requires Inv(st) && h in RootsOf(st, true) && FullyStored(st.objects, h)
    ensures var m := Marked(st.objects, RootsOf(st, true));
            FullyStored(Sweep(st.objects, m), h) <==> SymlinksMarked(h, m)
  {
    MarkedIsLeast(st.objects, RootsOf(st, true));
    SweepKeepsContentIff(st.objects, Marked(st.objects, RootsOf(st, true)), h);
  }

  /** The commands that undo one after the other, each with its author and time. */
  function UndoCommands(undos: seq<(Text, nat)>): seq<Cmd> {
    seq(|undos|, i requires 0 <= i < |undos| => UndoLast(undos[i].0, undos[i].1))
  }

  lemma RunOneMore(cs: seq<Cmd>, c: Cmd)
    ensures Run(cs + [c]) == After(Run(cs), c)
    ensures ValidRun(cs + [c]) <==> ValidRun(cs) && Admissible(Run(cs), c)
  {
    assert (cs + [c])[..|cs|] == cs;
  }

  function LogOf(st: State): (seq<Op>, RefTable) {
    (st.ops, st.refs)
  }

  /** One undo command is one step of `UndoTimes`. */
  lemma UndoCommandIsUndoTop(st: State, author: Text, now: nat)
    requires Numbered(st.ops) && |st.ops| <= 0x8000_0000_0000_0000 && Stack(st.ops) != []
    ensures LogOf(UndoOnce(st, author, now)) == UndoTop(st.ops, st.refs, author, now)
  {
    NextIdOfNumbered(st.ops);
  }

  lemma UndoCommandStep(st: State, undos: seq<(Text, nat)>)
    requires Numbered(st.ops) && |st.ops| <= 0x8000_0000_0000_0000 && undos != []
    ensures var next := UndoOnce(st, undos[0].0, undos[0].1);
            && next.objects == st.objects && |next.ops| <= |st.ops| + 1
            && UndoTimes(st.ops, st.refs, undos) == UndoTimes(next.ops, next.refs, undos[1..])
  {
    if Stack(st.ops) != [] {
      UndoCommandIsUndoTop(st, undos[0].0, undos[0].1);
    }
  }

  lemma RunIsNumbered(cs: seq<Cmd>)
    requires ValidRun(cs)
    ensures Numbered(Run(cs).ops)
  {
    RunKeepsInv(cs);
  }

  lemma RunOneUndo(cs: seq<Cmd>, author: Text, now: nat)
    requires ValidRun(cs) && |Run(cs).ops| <= 0x8000_0000_0000_0000
    ensures ValidRun(cs + [UndoLast(author, now)])
    ensures Run(cs + [UndoLast(author, now)]) == UndoOnce(Run(cs), author, now)
  {
    RunOneMore(cs, UndoLast(author, now));
  }

  lemma UndoCommandsSplit(cs: seq<Cmd>, undos: seq<(Text, nat)>)
    requires undos != []
    ensures cs + UndoCommands(undos) == (cs + [UndoLast(undos[0].0, undos[0].1)]) + UndoCommands(undos[1..])
  {
  }

  /** `end` is a valid run that leaves the objects of `st` and the log and refs after the undos. */
  ghost predicate EndsUndone(st: State, undos: seq<(Text, nat)>, end: seq<Cmd>) {
    ValidRun(end) && Run(end).objects == st.objects && LogOf(Run(end)) == UndoTimes(st.ops, st.refs, undos)
  }

  lemma UndoneOneEarlier(cs: seq<Cmd>, undos: seq<(Text, nat)>, end: seq<Cmd>)
    requires ValidRun(cs) && |Run(cs).ops| + |undos| <= 0x8000_0000_0000_0000 && undos != []
    requires EndsUndone(UndoOnce(Run(cs), undos[0].0, undos[0].1), undos[1..], end)
    ensures EndsUndone(Run(cs), undos, end)
  {
    RunIsNumbered(cs);
    UndoCommandStep(Run(cs), undos);
  }

  lemma RoomAfterUndo(cs: seq<Cmd>, undos: seq<(Text, nat)>)
    requires ValidRun(cs) && |Run(cs).ops| + |undos| <= 0x8000_0000_0000_0000 && undos != []
    ensures |UndoOnce(Run(cs), undos[0].0, undos[0].1).ops| + |undos[1..]| <= 0x8000_0000_0000_0000
  {
  }

  /** Undo commands that continue a run are admissible as long as the log has room, and do what the
      undos in a row do. */
  lemma {:induction false} RunUndoes(cs: seq<Cmd>, undos: seq<(Text, nat)>)
    requires ValidRun(cs) && |Run(cs).ops| + |undos| <= 0x8000_0000_0000_0000
    ensures EndsUndone(Run(cs), undos, cs + UndoCommands(undos))
    decreases |undos|
  {
    if undos == [] {
      assert cs + UndoCommands(undos) == cs;
    } else {
      var ds := cs + [UndoLast(undos[0].0, undos[0].1)];
      RunOneUndo(cs, undos[0].0, undos[0].1);
      RoomAfterUndo(cs, undos);
      RunUndoes(ds, undos[1..]);
      UndoCommandsSplit(cs, undos);
      UndoneOneEarlier(cs, undos, ds + UndoCommands(undos[1..]));
    }
  }

  /** In every run, the refs are what the operations still in effect produce; continuing the run with
      `k` undos brings back the refs from before the last `k` of them; and undo finds nothing to do
      exactly when the refs are those of an empty repository. */
  lemma RunUndoIsExact(cs: seq<Cmd>, undos: seq<(Text, nat)>)
    requires ValidRun(cs) && |Run(cs).ops| + |undos| <= 0x8000_0000_0000_0000
    ensures ValidRun(cs + UndoCommands(undos))
    ensures var st, end := Run(cs), Run(cs + UndoCommands(undos));
            && st.refs == Replay(Stack(st.ops))
            && end.refs == Replay(Popped(Stack(st.ops), |undos|)) && end.objects == st.objects
            && (Stack(st.ops) == [] <==> st.refs == NO_REFS)
            && NothingDangles(st.refs)
  {
    RunKeepsInv(cs);
    RunUndoes(cs, undos);
    UndoTimesRewinds(Run(cs).ops, Run(cs).refs, undos);
    LogExplainsRefs(Run(cs).ops, Run(cs).refs);
  }

  /** The refs depend on nothing but the operations still in effect. */
  lemma SameStackSameRefs(cs: seq<Cmd>, ds: seq<Cmd>)
    requires ValidRun(cs) && ValidRun(ds) && Stack(Run(cs).ops) == Stack(Run(ds).ops)
    ensures Run(cs).refs == Run(ds).refs
  {
    RunKeepsInv(cs);
    RunKeepsInv(ds);
  }

  lemma {:induction false} PrefixIsValidRun(cs: seq<Cmd>, ds: seq<Cmd>)
    requires ValidRun(cs + ds)
    ensures ValidRun(cs)
    decreases |ds|
  {
    if ds == [] {
      assert cs + ds == cs;
    } else {
      assert (cs + ds)[..|cs + ds| - 1] == cs + ds[..|ds| - 1];
      PrefixIsValidRun(cs, ds[..|ds| - 1]);
    }
  }

  /** If a run goes on and `n` more operations are in effect on top of those it had, then continuing it
      with `n` undos brings back exactly the refs it had, whatever else happened in between. */
  lemma UndoReturnsToEarlierRefs(cs: seq<Cmd>, ds: seq<Cmd>, undos: seq<(Text, nat)>)
    requires ValidRun(cs + ds) && |Run(cs + ds).ops| + |undos| <= 0x8000_0000_0000_0000
    requires Stack(Run(cs).ops) <= Stack(Run(cs + ds).ops)
    requires |Stack(Run(cs + ds).ops)| == |Stack(Run(cs).ops)| + |undos|
    ensures ValidRun(cs + ds + UndoCommands(undos))
    ensures Run(cs + ds + UndoCommands(undos)).refs == Run(cs).refs
  {
    PrefixIsValidRun(cs, ds);
    RunKeepsInv(cs);
    RunUndoIsExact(cs + ds, undos);
    assert Popped(Stack(Run(cs + ds).ops), |undos|) == Stack(Run(cs).ops);
  }

  // --- visibility ---------------------------------------------------------------------------

  /** The snapshots in the history of any change the caller may see. */
  function VisibleSnapshots(refs: RefTable, canSee: Change -> bool): set<Hash> {
    set id, h | id in refs.changes && canSee(refs.changes[id]) && h in refs.changes[id].history :: h
  }

  /** The snapshots in the histories of the visible changes among the given ids. */
  function VisibleAmong(refs: RefTable, ids: set<ChangeId>, canSee: Change -> bool): set<Hash> {
    set id, h | id in refs.changes && id in ids && canSee(refs.changes[id]) && h in refs.changes[id].history :: h
  }

  lemma OneMoreVisible(refs: RefTable, ids: set<ChangeId>, id: ChangeId, canSee: Change -> bool)
    requires id in refs.changes
    ensures VisibleAmong(refs, ids + {id}, canSee)
            == VisibleAmong(refs, ids, canSee) + if canSee(refs.changes[id]) then Elements(refs.changes[id].history) else {}
  {
  }

  lemma AllVisible(refs: RefTable, canSee: Change -> bool)
    ensures VisibleAmong(refs, refs.changes.Keys, canSee) == VisibleSnapshots(refs, canSee)
    ensures VisibleAmong(refs, {}, canSee) == {}
  {
  }

  method AddAll(start: set<Hash>, hs: seq<Hash>) returns (out: set<Hash>)
    ensures out == start + Elements(hs)
  {
    out := start;
    var i := 0;
    while i < |hs|
      invariant 0 <= i <= |hs| && out == start + Elements(hs[..i])
    {
      assert hs[..i + 1] == hs[..i] + [hs[i]];
      ElementsOfAppend(hs[..i], hs[i]);
      out := out + {hs[i]};
      i := i + 1;
    }
    assert hs[..i] == hs;
  }

  method VisibleSnapshotSet(refs: RefTable, canSee: Change -> bool) returns (out: set<Hash>)
    ensures out == VisibleSnapshots(refs, canSee)
  {
    out := {};
    var unread := refs.changes.Keys;
    ghost var seen: set<ChangeId> := {};
    AllVisible(refs, canSee);
    while unread != {}
      invariant seen + unread == refs.changes.Keys && out == VisibleAmong(refs, seen, canSee)
      decreases |unread|
    {
      var id :| id in unread;
      var change := refs.changes[id];
      OneMoreVisible(refs, seen, id, canSee);
      if canSee(change) {
        out := AddAll(out, change.history);
      }
      unread, seen := unread - {id}, seen + {id};
    }
    assert seen == refs.changes.Keys;
  }

  /** Although only histories are collected, the current snapshot of every visible change is
      covered in every run. */
  lemma VisibleCoversCurrent(cs: seq<Cmd>, canSee: Change -> bool, id: ChangeId)
    requires ValidRun(cs) && id in Run(cs).refs.changes && canSee(Run(cs).refs.changes[id])
    ensures Run(cs).refs.changes[id].current in VisibleSnapshots(Run(cs).refs, canSee)
  {
    RunKeepsInv(cs);
    var c := Run(cs).refs.changes[id];
    assert ChangeOk(Run(cs).objects, c);
    assert c.history[|c.history| - 1] in c.history;
  }
}
