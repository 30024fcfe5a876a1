/** What each command does, told by reading refs before and after: which ref moves, to what, and that
    no other ref does. Independent of how the commands are put together in `Machine`. */
module Effects {
  import opened Wrappers
  import opened Lex
  import opened Objects
  import opened Refs
  import opened OpLog
  import opened Repo
  import opened Machine

  /** No ref but the given ones reads differently. */
  ghost predicate OnlyMoved(a: RefTable, b: RefTable, keys: set<RefKey>) {
    forall k | k !in keys :: Read(a, k) == Read(b, k)
  }

  function WorkspaceKeyOf(ws: Workspace): RefKey {
    if ws.Main? then HeadKey else WorkspaceKey(ws.wid)
  }

  /** The tree of the snapshot that a change is at. */
  function TreeOf(c: Change): Hash
    requires IsSnap(c.current)
  {
    c.current.obj.snap.tree
  }

  /** One record was added, by this actor at this time, and it is not an undo. */
  ghost predicate Recorded(a: State, b: State, actor: Text, kind: OpKind, now: nat) {
    && |b.ops| == |a.ops| + 1 && b.ops[..|a.ops|] == a.ops
    && b.ops[|a.ops|].actor == actor && b.ops[|a.ops|].kind == kind && b.ops[|a.ops|].ts == now && !kind.Undo?
  }

  lemma AppendRecords(st: State, stored: Store, refs: RefTable, op: OpInProgress, now: nat)
    requires !op.kind.Undo?
    ensures Recorded(st, State(stored, refs, Append(st.ops, op, now)), op.actor, op.kind, now)
  {
  }

  lemma PutMovesOne(refs: RefTable, c: Change)
    ensures OnlyMoved(refs, Machine.PutChange(refs, c), {ChangeKey(c.id)})
  {
  }

  lemma CheckoutMovesOne(refs: RefTable, ws: Workspace, id: ChangeId)
    requires WellKeyed(refs) && WorkspaceKnown(refs, ws)
    ensures var refs' := SetCurrentChange(refs, ws, id);
            && OnlyMoved(refs, refs', {WorkspaceKeyOf(ws)}) && refs'.changes == refs.changes
            && WorkspaceKnown(refs', ws) && CurrentChange(refs', ws) == Some(id)
  {
  }

  /** Putting a change and checking it out. */
  lemma PutAndCheckout(refs: RefTable, ws: Workspace, c: Change)
    requires WellKeyed(refs) && WorkspaceKnown(refs, ws)
    ensures var refs' := SetCurrentChange(Machine.PutChange(refs, c), ws, c.id);
            && OnlyMoved(refs, refs', {ChangeKey(c.id), WorkspaceKeyOf(ws)})
            && c.id in refs'.changes && refs'.changes[c.id] == c
            && WorkspaceKnown(refs', ws) && CurrentChange(refs', ws) == Some(c.id)
  {
    PutMovesOne(refs, c);
    CheckoutMovesOne(Machine.PutChange(refs, c), ws, c.id);
  }

  /** Whether a snap of this tree records nothing. */
  predicate NothingToSnap(c: Change, tree: Hash, message: Option<Text>, force: bool)
    requires IsSnap(c.current)
  {
    TreeOf(c) == tree && message.None? && !force
  }

  /** `after` is `before` one snapshot later. */
  ghost predicate OneSnapshotOn(before: Change, after: Change, tree: Hash, author: Text, message: Option<Text>, now: nat) {
    && after.current == Of(SnapObj(Snapshot([before.current], tree, author, now, message)))
    && after.history == before.history + [after.current]
    && after.(current := before.current, history := before.history) == before
  }

  /** Snapping an existing change: either nothing is to be snapped and nothing moves, or exactly this
      change moves, one snapshot on. Either way it ends at the given tree. */
  ghost predicate Snapped(st: State, next: State, id: ChangeId, tree: Hash, author: Text, message: Option<Text>, force: bool, now: nat)
    requires id in st.refs.changes && IsSnap(st.refs.changes[id].current)
  {
    && id in next.refs.changes && IsSnap(next.refs.changes[id].current) && TreeOf(next.refs.changes[id]) == tree
    && if NothingToSnap(st.refs.changes[id], tree, message, force) then next.refs == st.refs && next.ops == st.ops
       else
         && OneSnapshotOn(st.refs.changes[id], next.refs.changes[id], tree, author, message, now)
         && OnlyMoved(st.refs, next.refs, {ChangeKey(id)})
         && next.refs.changes[id].current in next.objects
         && Recorded(st, next, author, Snap(next.refs.changes[id].current, message), now)
  }

  lemma SnapExistingMoves(st: State, id: ChangeId, stored: Store, wsRefs: seq<RefSnapshot>, tree: Hash, author: Text,
                          message: Option<Text>, force: bool, now: nat)
    requires id in st.refs.changes && st.refs.changes[id].id == id
    requires IsSnap(st.refs.changes[id].current) && GetSnap(stored, st.refs.changes[id].current).Success?
    ensures var r := SnapExisting(st, id, stored, wsRefs, tree, author, message, force, now);
            r.Success? && Snapped(st, r.value, id, tree, author, message, force, now)
  {
    var c := st.refs.changes[id];
    if !NothingToSnap(c, tree, message, force) {
      var snap := Snapshot([c.current], tree, author, now, message);
      var c' := c.Advance(Of(SnapObj(snap)));
      AdvanceMoves(c, snap);
      PutMovesOne(st.refs, c');
      AppendRecords(st, Put(stored, SnapObj(snap)), Machine.PutChange(st.refs, c'),
                    OpInProgress(author, Snap(c'.current, message), wsRefs + [ChangeRef(id, Some(c))],
                                 wsRefs + [ChangeRef(id, Some(c'))]), now);
    }
  }

  lemma SnapExistingEffect(st: State, id: ChangeId, stored: Store, wsRefs: seq<RefSnapshot>, tree: Hash, author: Text,
                           message: Option<Text>, force: bool, now: nat)
    requires Inv(st) && Honest(stored) && Extends(st.objects, stored) && id in st.refs.changes
    ensures var r := SnapExisting(st, id, stored, wsRefs, tree, author, message, force, now);
            r.Success? && IsSnap(st.refs.changes[id].current) && Snapped(st, r.value, id, tree, author, message, force, now)
  {
    ChangeIsReadable(st, id, stored);
    SnapExistingMoves(st, id, stored, wsRefs, tree, author, message, force, now);
  }

  lemma OtherChangeOtherSnap(st: State, id: ChangeId, other: ChangeId, stored: Store, wsRefs: seq<RefSnapshot>, tree: Hash,
                             author: Text, message: Option<Text>, force: bool, now: nat)
    requires Inv(st) && Honest(stored) && Extends(st.objects, stored)
    requires id in st.refs.changes && other in st.refs.changes && id != other
    requires var r := SnapExisting(st, id, stored, wsRefs, tree, author, message, force, now);
             r.Success? && r.value.ops != st.ops
    ensures SnapExisting(st, id, stored, wsRefs, tree, author, message, force, now)
            != SnapExisting(st, other, stored, wsRefs, tree, author, message, force, now)
  {
    SnapExistingEffect(st, id, stored, wsRefs, tree, author, message, force, now);
    SnapExistingEffect(st, other, stored, wsRefs, tree, author, message, force, now);
    SnappedApart(st, SnapExisting(st, id, stored, wsRefs, tree, author, message, force, now).value,
                 SnapExisting(st, other, stored, wsRefs, tree, author, message, force, now).value,
                 id, other, tree, author, message, force, now);
  }

  lemma SnappedApart(st: State, a: State, b: State, id: ChangeId, other: ChangeId, tree: Hash, author: Text,
                     message: Option<Text>, force: bool, now: nat)
    requires id in st.refs.changes && IsSnap(st.refs.changes[id].current) && Snapped(st, a, id, tree, author, message, force, now)
    requires other in st.refs.changes && IsSnap(st.refs.changes[other].current)
    requires Snapped(st, b, other, tree, author, message, force, now)
    requires id != other && a.ops != st.ops
    ensures a != b
  {
    if !NothingToSnap(st.refs.changes[other], tree, message, force) {
      assert Read(st.refs, ChangeKey(id)) == Read(b.refs, ChangeKey(id));
    }
  }

  /** A recorded snap from a secondary workspace takes the step of snapping that workspace exactly when the
      manifest still names the change that was seen. Otherwise another change gets the snapshot. */
  lemma SeenSnapIsCurrentIff(st: State, wid: WorkspaceId, seen: ChangeId, stored: Store, tree: Hash, author: Text,
                             message: Option<Text>, force: bool, freshId: ChangeId, description: Text, now: nat)
    requires Inv(st) && Admissible(st, SnapSeen(wid, seen, stored, tree, author, message, force, now))
    requires var r := Exec(st, SnapSeen(wid, seen, stored, tree, author, message, force, now));
             r.Success? && r.value.ops != st.ops
    ensures Exec(st, SnapSeen(wid, seen, stored, tree, author, message, force, now))
            == Exec(st, SnapWorkspace(Secondary(wid), stored, tree, author, message, force, freshId, description, now))
            <==> wid in st.refs.workspaces && st.refs.workspaces[wid].changeId == seen
  {
    if wid in st.refs.workspaces && st.refs.workspaces[wid].changeId != seen {
      LogExplainsRefs(st.ops, st.refs);
      OtherChangeOtherSnap(st, seen, st.refs.workspaces[wid].changeId, stored, [WorkspaceRefOf(st.refs, Secondary(wid))],
                           tree, author, message, force, now);
    }
  }

  lemma ChangeIsReadable(st: State, id: ChangeId, stored: Store)
    requires Inv(st) && Honest(stored) && Extends(st.objects, stored) && id in st.refs.changes
    ensures st.refs.changes[id].id == id
    ensures IsSnap(st.refs.changes[id].current) && GetSnap(stored, st.refs.changes[id].current).Success?
  {
    LogExplainsRefs(st.ops, st.refs);
    ChangeOkExtends(st.objects, stored, st.refs.changes[id]);
    CurrentIsStored(stored, st.refs.changes[id]);
  }

  /** The workspace is on a change that is at the given tree, and at most that change and the workspace
      moved. A workspace without a change got a new one, with a history of one snapshot. */
  ghost predicate SnappedInto(st: State, next: State, ws: Workspace, tree: Hash, author: Text, message: Option<Text>,
                              freshId: ChangeId, description: Text, now: nat)
    requires WorkspaceKnown(st.refs, ws)
  {
    && WorkspaceKnown(next.refs, ws)
    && var before, after := CurrentChange(st.refs, ws), CurrentChange(next.refs, ws);
    && after == Some(before.GetOr(freshId)) && after.value in next.refs.changes
    && OnlyMoved(st.refs, next.refs, {ChangeKey(after.value), WorkspaceKeyOf(ws)})
    && var c := next.refs.changes[after.value];
    && IsSnap(c.current) && TreeOf(c) == tree
    && (before.None? ==>
          && c.history == [c.current] && c.current.obj.snap == Snapshot([], tree, author, now, message)
          && c == Change(freshId, c.current, None, description, Working, [c.current], author, Public)
          && Recorded(st, next, author, Snap(c.current, message), now))
  }

  lemma FirstSnapMoves(st: State, ws: Workspace, stored: Store, tree: Hash, author: Text, message: Option<Text>,
                       force: bool, freshId: ChangeId, description: Text, now: nat)
    requires WellKeyed(st.refs) && WorkspaceKnown(st.refs, ws) && CurrentChange(st.refs, ws).None?
    ensures var r := SnapIntoWorkspace(st, ws, stored, tree, author, message, force, freshId, description, now);
            r.Success? && SnappedInto(st, r.value, ws, tree, author, message, freshId, description, now)
  {
    var h := Of(SnapObj(Snapshot([], tree, author, now, message)));
    PutAndCheckout(st.refs, ws, NewChange(freshId, description, author, Foreign(0)).(current := h, history := [h]));
  }

  lemma SnappedIsSnappedInto(st: State, next: State, ws: Workspace, id: ChangeId, tree: Hash, author: Text,
                             message: Option<Text>, force: bool, freshId: ChangeId, description: Text, now: nat)
    requires WorkspaceKnown(st.refs, ws) && CurrentChange(st.refs, ws) == Some(id)
    requires id in st.refs.changes && IsSnap(st.refs.changes[id].current)
    requires Snapped(st, next, id, tree, author, message, force, now)
    ensures SnappedInto(st, next, ws, tree, author, message, freshId, description, now)
  {
    assert Read(next.refs, WorkspaceKeyOf(ws)) == Read(st.refs, WorkspaceKeyOf(ws));
  }

  /** Snapping a workspace leaves it on a change that is at the scanned tree, creating the change when
      the workspace had none. */
  lemma SnapEffect(st: State, ws: Workspace, stored: Store, tree: Hash, author: Text, message: Option<Text>,
                   force: bool, freshId: ChangeId, description: Text, now: nat)
    requires Inv(st) && WorkspaceKnown(st.refs, ws) && Honest(stored) && Extends(st.objects, stored)
    ensures var r := SnapIntoWorkspace(st, ws, stored, tree, author, message, force, freshId, description, now);
            r.Success? && SnappedInto(st, r.value, ws, tree, author, message, freshId, description, now)
  {
    LogExplainsRefs(st.ops, st.refs);
    match CurrentChange(st.refs, ws)
    case None => FirstSnapMoves(st, ws, stored, tree, author, message, force, freshId, description, now);
    case Some(id) =>
      SnapExistingEffect(st, id, stored, [WorkspaceRefOf(st.refs, ws)], tree, author, message, force, now);
      var next := SnapExisting(st, id, stored, [WorkspaceRefOf(st.refs, ws)], tree, author, message, force, now).value;
      SnappedIsSnappedInto(st, next, ws, id, tree, author, message, force, freshId, description, now);
  }

  /** Two changes made from nothing start at the same snapshot exactly when the same author made them at
      the same time: the bootstrap snapshot is not a fixed one. */
  lemma BootstrapIsSharedIff(st: State, st': State, a: Text, b: Text, t: nat, u: nat)
    ensures StartFrom(st, None, a, t).1 == StartFrom(st', None, b, u).1 <==> a == b && t == u
  {
  }

  /** What is new after a change was made. */
  ghost predicate Started(st: State, next: State, from: Option<ChangeId>, id: ChangeId, description: Text, author: Text,
                          state: ChangeState, visibility: VisLabel, now: nat)
  {
    && id in next.refs.changes
    && Recorded(st, next, author, ChangeNew(id, description), now)
    && var c := next.refs.changes[id];
    && StartsFrom(st, from, c, now)
    && c == Change(id, c.current, None, description, state, [c.current], author, visibility)
  }

  lemma NewMoves(st: State, ws: Workspace, freshId: ChangeId, description: Text, author: Text, draft: bool, now: nat)
    requires WellKeyed(st.refs) && WorkspaceKnown(st.refs, ws)
    requires var from := CurrentChange(st.refs, ws);
             (from.Some? ==> from.value in st.refs.changes) && IsSnap(StartFrom(st, from, author, now).1)
    ensures var r := StartNew(st, ws, freshId, description, author, draft, now);
            && r.Success? && WorkspaceKnown(r.value.refs, ws) && CurrentChange(r.value.refs, ws) == Some(freshId)
            && OnlyMoved(st.refs, r.value.refs, {ChangeKey(freshId), WorkspaceKeyOf(ws)})
            && Started(st, r.value, CurrentChange(st.refs, ws), freshId, description, author,
                       if draft then Draft else Working, if draft then Private else Public, now)
  {
    var start := StartFrom(st, CurrentChange(st.refs, ws), author, now).1;
    var c := if draft then NewPrivateDraft(freshId, description, author, start) else NewChange(freshId, description, author, start);
    PutAndCheckout(st.refs, ws, c);
  }

  /** A new change starts where the one it comes from is, or at an empty tree, and nothing but it and
      the workspace it was made in moves. */
  lemma NewEffect(st: State, ws: Workspace, freshId: ChangeId, description: Text, author: Text, draft: bool, now: nat)
    requires Inv(st) && WorkspaceKnown(st.refs, ws)
    ensures var r := StartNew(st, ws, freshId, description, author, draft, now);
            && r.Success? && WorkspaceKnown(r.value.refs, ws) && CurrentChange(r.value.refs, ws) == Some(freshId)
            && OnlyMoved(st.refs, r.value.refs, {ChangeKey(freshId), WorkspaceKeyOf(ws)})
            && Started(st, r.value, CurrentChange(st.refs, ws), freshId, description, author,
                       if draft then Draft else Working, if draft then Private else Public, now)
  {
    LogExplainsRefs(st.ops, st.refs);
    StartIsSound(st, CurrentChange(st.refs, ws), author, now);
    NewMoves(st, ws, freshId, description, author, draft, now);
  }

  ghost predicate StartsFrom(st: State, from: Option<ChangeId>, c: Change, now: nat) {
    && c.history == [c.current] && IsSnap(c.current)
    && match from
       case Some(id) => id in st.refs.changes && c.current == st.refs.changes[id].current
       case None => c.current.obj.snap == Snapshot([], TreeHash([]), c.author, now, Some(Ascii("(empty)")))
  }

  lemma StartIsSound(st: State, from: Option<ChangeId>, author: Text, now: nat)
    requires Inv(st) && (from.Some? ==> from.value in st.refs.changes)
    ensures IsSnap(StartFrom(st, from, author, now).1)
  {
    if from.Some? {
      CurrentIsStored(st.objects, st.refs.changes[from.value]);
    }
  }

  /** Creating a change checks nothing out: only the new change appears. */
  lemma CreateEffect(st: State, from: Option<ChangeId>, freshId: ChangeId, description: Text, author: Text,
                     state: Option<ChangeState>, visibility: Option<VisLabel>, now: nat)
    requires Inv(st) && (from.Some? ==> from.value in st.refs.changes)
    ensures var r := Create(st, from, freshId, description, author, state, visibility, now);
            && r.Success? && OnlyMoved(st.refs, r.value.refs, {ChangeKey(freshId)})
            && Started(st, r.value, from, freshId, description, author, state.GetOr(Working), visibility.GetOr(Public), now)
  {
    StartIsSound(st, from, author, now);
    CreateMoves(st, from, freshId, description, author, state, visibility, now);
  }

  lemma CreateMoves(st: State, from: Option<ChangeId>, freshId: ChangeId, description: Text, author: Text,
                    state: Option<ChangeState>, visibility: Option<VisLabel>, now: nat)
    requires (from.Some? ==> from.value in st.refs.changes) && IsSnap(StartFrom(st, from, author, now).1)
    ensures var r := Create(st, from, freshId, description, author, state, visibility, now);
            && r.Success? && OnlyMoved(st.refs, r.value.refs, {ChangeKey(freshId)})
            && Started(st, r.value, from, freshId, description, author, state.GetOr(Working), visibility.GetOr(Public), now)
  {
    var start := StartFrom(st, from, author, now).1;
    PutMovesOne(st.refs, Flip(NewChange(freshId, description, author, start), state, visibility));
  }

  /** Of one change, the state and the visibility became the given ones, and nothing else moved. */
  ghost predicate Transitioned(st: State, next: State, id: ChangeId, state: ChangeState, visibility: VisLabel, author: Text, now: nat)
    requires id in st.refs.changes
  {
    var c := st.refs.changes[id];
    && id in next.refs.changes && next.refs.changes[id] == c.(state := state, visibility := visibility)
    && OnlyMoved(st.refs, next.refs, {ChangeKey(id)})
    && Recorded(st, next, author, ChangeTransition(id, c.state, state, c.visibility, visibility), now)
  }

  /** A transition moves one change, and of it nothing but what was asked for. */
  lemma TransitionEffect(st: State, id: ChangeId, state: Option<ChangeState>, visibility: Option<VisLabel>, author: Text, now: nat)
    requires id in st.refs.changes && st.refs.changes[id].id == id
    ensures var r := Transit(st, id, state, visibility, author, now);
            && r.Success? && r.value.objects == st.objects
            && Transitioned(st, r.value, id, state.GetOr(st.refs.changes[id].state),
                            visibility.GetOr(st.refs.changes[id].visibility), author, now)
  {
    PutMovesOne(st.refs, Flip(st.refs.changes[id], state, visibility));
  }

  lemma BackAgain(st: State, there: State, back: State, id: ChangeId, state: ChangeState, visibility: VisLabel, author: Text,
                  now: nat, later: nat)
    requires id in st.refs.changes && Transitioned(st, there, id, state, visibility, author, now)
    requires Transitioned(there, back, id, st.refs.changes[id].state, st.refs.changes[id].visibility, author, later)
    ensures back.refs == st.refs
  {
    forall k ensures Read(back.refs, k) == Read(st.refs, k) {
      if k != ChangeKey(id) {
        assert Read(back.refs, k) == Read(there.refs, k) == Read(st.refs, k);
      }
    }
    SameReads(back.refs, st.refs);
  }

  /** Moving a change to a state and visibility and back again gives the refs back, and leaves two
      records that mirror each other. */
  lemma TransitionAndBack(st: State, id: ChangeId, state: ChangeState, visibility: VisLabel, author: Text, now: nat, later: nat)
    requires id in st.refs.changes && st.refs.changes[id].id == id
    ensures var c := st.refs.changes[id];
            var there := Transit(st, id, Some(state), Some(visibility), author, now);
            && there.Success?
            && var back := Transit(there.value, id, Some(c.state), Some(c.visibility), author, later);
            && back.Success? && back.value.refs == st.refs
            && Recorded(st, there.value, author, ChangeTransition(id, c.state, state, c.visibility, visibility), now)
            && Recorded(there.value, back.value, author, ChangeTransition(id, state, c.state, visibility, c.visibility), later)
  {
    var c := st.refs.changes[id];
    TransitionEffect(st, id, Some(state), Some(visibility), author, now);
    var there := Transit(st, id, Some(state), Some(visibility), author, now).value;
    TransitionEffect(there, id, Some(c.state), Some(c.visibility), author, later);
    BackAgain(st, there, Transit(there, id, Some(c.state), Some(c.visibility), author, later).value, id, state, visibility, author, now, later);
  }

  /** A new workspace is on the change of the workspace it was made from. */
  lemma MakeEffect(st: State, ws: Workspace, wid: WorkspaceId, name: Text, location: Text, author: Text, now: nat)
    requires WorkspaceKnown(st.refs, ws) && CurrentChange(st.refs, ws).Some?
    ensures var made := Make(st, ws, wid, name, location, author, now);
            && made.Success? && WorkspaceKnown(made.value.refs, Secondary(wid))
            && CurrentChange(made.value.refs, Secondary(wid)) == CurrentChange(st.refs, ws)
            && made.value.refs.workspaces[wid] == Manifest(wid, name, location, CurrentChange(st.refs, ws).value, now)
            && OnlyMoved(st.refs, made.value.refs, {WorkspaceKey(wid)})
            && Recorded(st, made.value, author, WtMake(wid, name), now)
  {
  }

  lemma DropEffect(st: State, ws: Workspace, wid: WorkspaceId, author: Text, now: nat)
    requires wid in st.refs.workspaces && st.refs.workspaces[wid].id == wid && ws != Secondary(wid)
    ensures var dropped := Drop(st, ws, wid, author, now);
            && dropped.Success? && wid !in dropped.value.refs.workspaces
            && OnlyMoved(st.refs, dropped.value.refs, {WorkspaceKey(wid)})
            && Recorded(st, dropped.value, author, WtDrop(wid, st.refs.workspaces[wid].name), now)
  {
  }

  /** Dropping a workspace that was just made gives the refs back; it cannot be dropped from inside. */
  lemma DropUndoesMake(st: State, ws: Workspace, wid: WorkspaceId, name: Text, location: Text, author: Text, now: nat, later: nat)
    requires WorkspaceKnown(st.refs, ws) && CurrentChange(st.refs, ws).Some? && wid !in st.refs.workspaces
    ensures var made := Make(st, ws, wid, name, location, author, now);
            && made.Success?
            && Drop(made.value, Secondary(wid), wid, author, later) == Failure(InWorkspace)
            && Drop(made.value, ws, wid, author, later).Success?
            && Drop(made.value, ws, wid, author, later).value.refs == st.refs
  {
    var made := Make(st, ws, wid, name, location, author, now).value;
    MakeEffect(st, ws, wid, name, location, author, now);
    DropEffect(made, ws, wid, author, later);
    var dropped := Drop(made, ws, wid, author, later).value;
    forall k ensures Read(dropped.refs, k) == Read(st.refs, k) {
      if k != WorkspaceKey(wid) {
        assert Read(dropped.refs, k) == Read(made.refs, k) == Read(st.refs, k);
      }
    }
    SameReads(dropped.refs, st.refs);
  }

  // --- undoing any command ------------------------------------------------------------------

  /** The log is either untouched, refs included, or longer by one record that is not an undo. */
  ghost predicate AtMostOneRecord(a: State, b: State) {
    (b.ops == a.ops && b.refs == a.refs)
    || (|b.ops| == |a.ops| + 1 && b.ops[..|a.ops|] == a.ops && !b.ops[|a.ops|].kind.Undo?)
  }

  lemma CommandsRecordOnce(st: State, c: Cmd)
    requires Exec(st, c).Success? && !c.UndoLast?
    ensures AtMostOneRecord(st, Exec(st, c).value)
  {
    if c.SnapWorkspace? {
      SnapRecordsOnce(st, c);
    } else {
      var next := Exec(st, c).value;
      if |next.ops| != |st.ops| {
        assert next.ops[..|st.ops|] == st.ops;
      }
    }
  }

  lemma SnapRecordsOnce(st: State, c: Cmd)
    requires c.SnapWorkspace? && Exec(st, c).Success?
    ensures AtMostOneRecord(st, Exec(st, c).value)
  {
    var next := Exec(st, c).value;
    if |next.ops| != |st.ops| {
      assert next.ops[..|st.ops|] == st.ops;
    }
  }

  /** The refs that a command captures in its record: those it may move, and the workspace it ran in when it
      snapped or made a change there. */
  function CapturedKeys(refs: RefTable, c: Cmd): set<RefKey>
    requires c.SnapWorkspace? ==> WorkspaceKnown(refs, c.ws)
  {
    match c
    case SnapWorkspace(ws, _, _, _, _, _, freshId, _, _) =>
      {WorkspaceKeyOf(ws), ChangeKey(CurrentChange(refs, ws).GetOr(freshId))}
    case SnapSeen(wid, seen, _, _, _, _, _, _) => {WorkspaceKey(wid), ChangeKey(seen)}
    case SnapChange(id, _, _, _, _, _, _) => {ChangeKey(id)}
    case NewInWorkspace(ws, freshId, _, _, _, _) => {WorkspaceKeyOf(ws), ChangeKey(freshId)}
    case CreateChange(_, freshId, _, _, _, _, _) => {ChangeKey(freshId)}
    case Transition(id, _, _, _, _) => {ChangeKey(id)}
    case MakeWorkspace(_, freshWid, _, _, _, _) => {WorkspaceKey(freshWid)}
    case DropWorkspace(_, wid, _, _) => {WorkspaceKey(wid)}
    case _ => {}
  }

  /** The record captures these refs before and after. */
  ghost predicate CapturesKeys(op: Op, keys: set<RefKey>) {
    Keys(op.before) == keys && Keys(op.after) == keys
  }

  lemma SnapCaptures(st: State, id: ChangeId, stored: Store, wsRefs: seq<RefSnapshot>, tree: Hash, author: Text,
                     message: Option<Text>, force: bool, now: nat)
    requires Inv(st) && Honest(stored) && Extends(st.objects, stored) && id in st.refs.changes
    ensures var r := SnapExisting(st, id, stored, wsRefs, tree, author, message, force, now);
            && r.Success?
            && (r.value.ops != st.ops ==>
                  |r.value.ops| > |st.ops| && CapturesKeys(r.value.ops[|st.ops|], Keys(wsRefs) + {ChangeKey(id)}))
  {
    ChangeIsReadable(st, id, stored);
    var c := st.refs.changes[id];
    var snap := Snapshot([c.current], tree, author, now, message);
    AdvanceMoves(c, snap);
    KeysOfAppend(wsRefs, ChangeRef(id, Some(c)));
    KeysOfAppend(wsRefs, ChangeRef(id, Some(c.Advance(Of(SnapObj(snap))))));
  }

  lemma PairCaptures(refs: RefTable, refs': RefTable, ws: Workspace, id: ChangeId, a: Option<Change>, b: Option<Change>)
    ensures Keys([WorkspaceRefOf(refs, ws)] + [ChangeRef(id, a)]) == {WorkspaceKeyOf(ws), ChangeKey(id)}
    ensures Keys([WorkspaceRefOf(refs', ws)] + [ChangeRef(id, b)]) == {WorkspaceKeyOf(ws), ChangeKey(id)}
    ensures Keys([WorkspaceRefOf(refs, ws)]) == {WorkspaceKeyOf(ws)}
    ensures Keys([] + [ChangeRef(id, a)]) == {ChangeKey(id)} && Keys([] + [ChangeRef(id, b)]) == {ChangeKey(id)}
  {
    KeysOfOne(WorkspaceRefOf(refs, ws));
    KeysOfOne(WorkspaceRefOf(refs', ws));
    KeysOfAppend([WorkspaceRefOf(refs, ws)], ChangeRef(id, a));
    KeysOfAppend([WorkspaceRefOf(refs', ws)], ChangeRef(id, b));
    KeysOfAppend([], ChangeRef(id, a));
    KeysOfAppend([], ChangeRef(id, b));
  }

  lemma NewCaptures(st: State, stored: Store, refs': RefTable, ws: Workspace, c: Change, kind: OpKind, now: nat)
    ensures var op := OpInProgress(c.author, kind, [WorkspaceRefOf(st.refs, ws)] + [ChangeRef(c.id, None)],
                                   [WorkspaceRefOf(refs', ws)] + [ChangeRef(c.id, Some(c))]);
            CapturesKeys(Append(st.ops, op, now)[|st.ops|], {WorkspaceKeyOf(ws), ChangeKey(c.id)})
  {
    PairCaptures(st.refs, refs', ws, c.id, None, Some(c));
  }

  lemma FirstSnapCaptures(st: State, ws: Workspace, stored: Store, tree: Hash, author: Text, message: Option<Text>,
                          force: bool, freshId: ChangeId, description: Text, now: nat)
    requires WorkspaceKnown(st.refs, ws) && CurrentChange(st.refs, ws).None?
    ensures var r := SnapIntoWorkspace(st, ws, stored, tree, author, message, force, freshId, description, now);
            && r.Success? && |r.value.ops| > |st.ops|
            && CapturesKeys(r.value.ops[|st.ops|], {WorkspaceKeyOf(ws), ChangeKey(freshId)})
  {
    var h := Of(SnapObj(Snapshot([], tree, author, now, message)));
    var change := NewChange(freshId, description, author, Foreign(0)).(current := h, history := [h]);
    NewCaptures(st, stored, SetCurrentChange(Machine.PutChange(st.refs, change), ws, freshId), ws, change, Snap(h, message), now);
  }

  lemma WorkspaceSnapCaptures(st: State, ws: Workspace, id: ChangeId, stored: Store, tree: Hash, author: Text,
                              message: Option<Text>, force: bool, now: nat)
    requires Inv(st) && Honest(stored) && Extends(st.objects, stored) && id in st.refs.changes
    ensures var r := SnapExisting(st, id, stored, [WorkspaceRefOf(st.refs, ws)], tree, author, message, force, now);
            && r.Success?
            && (r.value.ops != st.ops ==>
                  |r.value.ops| > |st.ops|
                  && CapturesKeys(r.value.ops[|st.ops|], {WorkspaceKeyOf(ws), ChangeKey(id)}))
  {
    PairCaptures(st.refs, st.refs, ws, id, None, None);
    SnapCaptures(st, id, stored, [WorkspaceRefOf(st.refs, ws)], tree, author, message, force, now);
  }

  lemma SnapCommandCaptures(st: State, c: Cmd)
    requires Inv(st) && Admissible(st, c) && Exec(st, c).Success? && (c.SnapWorkspace? || c.SnapSeen? || c.SnapChange?)
    ensures var next := Exec(st, c).value;
            next.ops != st.ops ==> |next.ops| > |st.ops| && CapturesKeys(next.ops[|st.ops|], CapturedKeys(st.refs, c))
  {
    LogExplainsRefs(st.ops, st.refs);
    if c.SnapChange? {
      SnapCaptures(st, c.id, c.stored, [], c.tree, c.author, c.message, c.force, c.now);
    } else if c.SnapSeen? {
      WorkspaceSnapCaptures(st, Secondary(c.wid), c.seen, c.stored, c.tree, c.author, c.message, c.force, c.now);
    } else if CurrentChange(st.refs, c.ws).Some? {
      WorkspaceSnapCaptures(st, c.ws, CurrentChange(st.refs, c.ws).value, c.stored, c.tree, c.author, c.message, c.force, c.now);
    } else {
      FirstSnapCaptures(st, c.ws, c.stored, c.tree, c.author, c.message, c.force, c.freshId, c.description, c.now);
    }
  }

  lemma NewCommandCaptures(st: State, c: Cmd)
    requires Exec(st, c).Success? && (c.NewInWorkspace? || c.CreateChange?)
    ensures var next := Exec(st, c).value;
            |next.ops| > |st.ops| && CapturesKeys(next.ops[|st.ops|], CapturedKeys(st.refs, c))
  {
    var next := Exec(st, c).value;
    if c.NewInWorkspace? {
      PairCaptures(st.refs, next.refs, c.ws, c.freshId, None, Lookup(next.refs.changes, c.freshId));
    } else {
      PairCaptures(st.refs, next.refs, Main, c.freshId, None, Lookup(next.refs.changes, c.freshId));
    }
  }

  lemma OtherCommandCaptures(st: State, c: Cmd)
    requires WellKeyed(st.refs) && Exec(st, c).Success? && (c.Transition? || c.MakeWorkspace? || c.DropWorkspace?)
    ensures var next := Exec(st, c).value;
            |next.ops| > |st.ops| && CapturesKeys(next.ops[|st.ops|], CapturedKeys(st.refs, c))
  {
    var op := Exec(st, c).value.ops[|st.ops|];
    KeysOfOne(op.before[0]);
    KeysOfOne(op.after[0]);
  }

  /** Whatever a command other than undo records, its record captures, before and after, just the refs that it
      may move and the workspace it snapped. */
  lemma CommandCaptures(st: State, c: Cmd)
    requires Inv(st) && Admissible(st, c) && Exec(st, c).Success? && Exec(st, c).value.ops != st.ops && !c.UndoLast?
    ensures var next := Exec(st, c).value;
            |next.ops| > |st.ops| && CapturesKeys(next.ops[|st.ops|], CapturedKeys(st.refs, c))
  {
    LogExplainsRefs(st.ops, st.refs);
    match c
    case SnapWorkspace(_, _, _, _, _, _, _, _, _) => SnapCommandCaptures(st, c);
    case SnapSeen(_, _, _, _, _, _, _, _) => SnapCommandCaptures(st, c);
    case SnapChange(_, _, _, _, _, _, _) => SnapCommandCaptures(st, c);
    case NewInWorkspace(_, _, _, _, _, _) => NewCommandCaptures(st, c);
    case CreateChange(_, _, _, _, _, _, _) => NewCommandCaptures(st, c);
    case Transition(_, _, _, _, _) => OtherCommandCaptures(st, c);
    case MakeWorkspace(_, _, _, _, _, _) => OtherCommandCaptures(st, c);
    case DropWorkspace(_, _, _, _) => OtherCommandCaptures(st, c);
    case _ =>
  }

  lemma UndoRevertsRecord(ops: seq<Op>, op: Op, refs': RefTable)
    requires LogExplains(ops + [op], refs') && !op.kind.Undo?
    ensures Stack(ops + [op]) == Stack(ops) + [op] && RestoreAll(refs', op.before) == Replay(Stack(ops))
  {
    StackOfAppend(ops, op);
    TopRestoresBelow(ops + [op], refs', Stack(ops), op);
  }

  /** Undoing right after any command that recorded something gives exactly the refs from before it, and
      undoing after one that recorded nothing does not see it. */
  lemma UndoRevertsCommand(st: State, c: Cmd, author: Text, now: nat)
    requires Inv(st) && Admissible(st, c) && Exec(st, c).Success? && !c.UndoLast?
    ensures var next := Exec(st, c).value;
            if next.ops == st.ops then next.refs == st.refs
            else UndoOnce(next, author, now).refs == st.refs && UndoOnce(next, author, now).objects == next.objects
  {
    CommandsRecordOnce(st, c);
    StepKeepsInv(st, c);
    RecordIsReverted(st, Exec(st, c).value, author, now);
  }

  lemma RecordIsReverted(st: State, next: State, author: Text, now: nat)
    requires Inv(st) && Inv(next) && AtMostOneRecord(st, next)
    ensures if next.ops == st.ops then next.refs == st.refs
            else UndoOnce(next, author, now).refs == st.refs && UndoOnce(next, author, now).objects == next.objects
  {
    if next.ops != st.ops {
      var op := next.ops[|st.ops|];
      assert next.ops == st.ops + [op];
      UndoRevertsRecord(st.ops, op, next.refs);
    }
  }
}
