/** The operation log: appending, choosing the operation to undo, and undoing it. */
module OpLog {
  import opened Wrappers
  import opened Lex
  import opened Objects
  import opened Refs

  datatype OpKind =
    | Snap(snapshot: Hash, message: Option<Text>)
    | ChangeNew(changeId: ChangeId, description: Text)
    | WtMake(workspaceId: WorkspaceId, name: Text)
    | WtDrop(workspaceId: WorkspaceId, name: Text)
    | ChangeTransition(changeId: ChangeId, fromState: ChangeState, toState: ChangeState,
                       fromVis: VisLabel, toVis: VisLabel)
    | Undo(undoneOp: nat)

  datatype Op = Op(id: nat, ts: nat, actor: Text, kind: OpKind, before: seq<RefSnapshot>, after: seq<RefSnapshot>)

  /** An operation being staged; the log assigns its id and time. */
  datatype OpInProgress = OpInProgress(actor: Text, kind: OpKind, before: seq<RefSnapshot>, after: seq<RefSnapshot>)

  function Finalize(op: OpInProgress, id: nat, now: nat): Op {
    Op(id, now, op.actor, op.kind, op.before, op.after)
  }

  /** The operations still in effect: pushed when recorded, popped by an undo. An undo that finds
      nothing to pop is ignored. */
  function Stack(ops: seq<Op>): seq<Op> {
    if ops == [] then []
    else
      var below := Stack(ops[..|ops| - 1]);
      var last := ops[|ops| - 1];
      if !last.kind.Undo? then below + [last]
      else if below == [] then []
      else below[..|below| - 1]
  }

  lemma StackOfAppend(ops: seq<Op>, op: Op)
    ensures Stack(ops + [op]) ==
            if !op.kind.Undo? then Stack(ops) + [op]
            else if Stack(ops) == [] then [] else Stack(ops)[..|Stack(ops)| - 1]
  {
    assert (ops + [op])[..|ops|] == ops;
  }

  lemma {:induction false} StackFromLog(ops: seq<Op>)
    ensures forall op | op in Stack(ops) :: op in ops && !op.kind.Undo?
  {
    if ops != [] {
      StackFromLog(ops[..|ops| - 1]);
    }
  }

  /** The backward scan with its counter of undos still to be matched. */
  function PickFrom(ops: seq<Op>, depth: nat): Option<Op> {
    if ops == [] then None
    else
      var last, init := ops[|ops| - 1], ops[..|ops| - 1];
      if last.kind.Undo? then PickFrom(init, depth + 1)
      else if depth > 0 then PickFrom(init, depth - 1)
      else Some(last)
  }

  /** The counter skips exactly that many operations from the top of the stack. */
  lemma {:induction false} PickIsStackTop(ops: seq<Op>, depth: nat)
    ensures PickFrom(ops, depth) ==
            if depth < |Stack(ops)| then Some(Stack(ops)[|Stack(ops)| - 1 - depth]) else None
  {
    if ops != [] {
      var last, init := ops[|ops| - 1], ops[..|ops| - 1];
      if last.kind.Undo? {
        PickIsStackTop(init, depth + 1);
      } else if depth > 0 {
        PickIsStackTop(init, depth - 1);
      }
    }
  }

  method PickOpToUndo(ops: seq<Op>) returns (r: Option<Op>)
    ensures r == if Stack(ops) == [] then None else Some(Stack(ops)[|Stack(ops)| - 1])
  {
    PickIsStackTop(ops, 0);
    var undoDepth := 0;
    var i := |ops|;
    assert ops[..i] == ops;
    while i > 0
      invariant 0 <= i <= |ops| && undoDepth >= 0
      invariant PickFrom(ops[..i], undoDepth) == PickFrom(ops, 0)
    {
      i := i - 1;
      assert ops[..i + 1][..i] == ops[..i];
      if ops[i].kind.Undo? {
        undoDepth := undoDepth + 1;
      } else if undoDepth > 0 {
        undoDepth := undoDepth - 1;
      } else {
        return Some(ops[i]);
      }
    }
    return None;
  }

  // --- ids ----------------------------------------------------------------------------------

  /** `id as i64`, which wraps for the upper half of the 64-bit range. */
  function AsSigned(id: nat): int {
    if id < 0x8000_0000_0000_0000 then id else id - 0x1_0000_0000_0000_0000
  }

  /** `(max + 1) as u64` over the signed ids, starting from -1. */
  function NextIdFrom(ops: seq<Op>, max: int): int {
    if ops == [] then max + 1
    else NextIdFrom(ops[1..], if AsSigned(ops[0].id) > max then AsSigned(ops[0].id) else max)
  }

  method ComputeNextId(ops: seq<Op>) returns (next: int)
    ensures next == NextIdFrom(ops, -1)
  {
    var max := -1;
    var i := 0;
    assert ops[0..] == ops;
    while i < |ops|
      invariant 0 <= i <= |ops|
      invariant NextIdFrom(ops[i..], max) == NextIdFrom(ops, -1)
    {
      assert ops[i..][1..] == ops[i + 1..];
      if AsSigned(ops[i].id) > max {
        max := AsSigned(ops[i].id);
      }
      i := i + 1;
    }
    return max + 1;
  }

  lemma {:induction false} NextIdBounds(ops: seq<Op>, max: int)
    ensures NextIdFrom(ops, max) > max
    ensures forall op | op in ops :: NextIdFrom(ops, max) > AsSigned(op.id)
    ensures NextIdFrom(ops, max) == max + 1 || exists op :: op in ops && NextIdFrom(ops, max) == AsSigned(op.id) + 1
  {
    if ops != [] {
      var max' := if AsSigned(ops[0].id) > max then AsSigned(ops[0].id) else max;
      NextIdBounds(ops[1..], max');
      assert ops[0] in ops && forall op | op in ops :: op == ops[0] || op in ops[1..];
    }
  }

  /** A freshly opened log hands out an id above every recorded one exactly when no recorded id is
      in the upper half of the 64-bit range; then the id is the greatest one plus one. */
  lemma NextIdIsFreshIff(ops: seq<Op>)
    requires forall op | op in ops :: op.id < 0x1_0000_0000_0000_0000
    ensures (forall op | op in ops :: NextIdFrom(ops, -1) > op.id)
            <==> forall op | op in ops :: op.id < 0x8000_0000_0000_0000
    ensures NextIdFrom(ops, -1) == 0 || exists op :: op in ops && NextIdFrom(ops, -1) == AsSigned(op.id) + 1
  {
    NextIdBounds(ops, -1);
    if op :| op in ops && op.id >= 0x8000_0000_0000_0000 {
      assert NextIdFrom(ops, -1) <= 0x8000_0000_0000_0000;
    }
  }

  /** Ids count the operations from zero. */
  ghost predicate Numbered(ops: seq<Op>) {
    forall i | 0 <= i < |ops| :: ops[i].id == i
  }

  lemma NextIdOfNumbered(ops: seq<Op>)
    requires Numbered(ops) && |ops| <= 0x8000_0000_0000_0000
    ensures NextIdFrom(ops, -1) == |ops|
  {
    NextIdBounds(ops, -1);
    if |ops| > 0 {
      assert ops[|ops| - 1] in ops;
    }
  }

  // --- replaying and undoing ----------------------------------------------------------------

  /** The refs that the `after` captures of a stack produce, starting from an empty repository. */
  function Replay(stack: seq<Op>): RefTable {
    if stack == [] then NO_REFS
    else RestoreAll(Replay(stack[..|stack| - 1]), stack[|stack| - 1].after)
  }

  /** `op` took the refs from `s` to `s'` and captured both sides of every ref it wrote. */
  ghost predicate Records(op: Op, s: RefTable, s': RefTable) {
    && Captures(s, op.before) && Captures(s', op.after)
    && Keys(op.before) == Keys(op.after)
    && s' == RestoreAll(s, op.after)
  }

  /** Each operation of the stack captured what its predecessors produce, and every intermediate
      table is well keyed and without dangling references. */
  ghost predicate Chained(stack: seq<Op>) {
    stack != [] ==>
      var below, top := stack[..|stack| - 1], stack[|stack| - 1];
      && Chained(below)
      && Records(top, Replay(below), Replay(stack))
      && WellKeyed(Replay(stack)) && NothingDangles(Replay(stack))
      && Replay(below).changes.Keys <= Replay(stack).changes.Keys
      && Replay(stack).changes != map[]
  }

  /** Each undo record names the operation that it took off the stack. */
  ghost predicate UndosNameTheirOp(ops: seq<Op>) {
    forall i | 0 <= i < |ops| && ops[i].kind.Undo? ::
      Stack(ops[..i]) != [] && ops[i].kind.undoneOp == Stack(ops[..i])[|Stack(ops[..i])| - 1].id
  }

  /** What the log says about the refs. */
  ghost predicate LogExplains(ops: seq<Op>, refs: RefTable) {
    && Numbered(ops) && UndosNameTheirOp(ops)
    && Chained(Stack(ops)) && refs == Replay(Stack(ops))
  }

  lemma ChainedIsSound(stack: seq<Op>)
    requires Chained(stack)
    ensures WellKeyed(Replay(stack)) && NothingDangles(Replay(stack))
    ensures Replay(stack).changes == map[] <==> stack == []
  {
  }

  lemma LogExplainsRefs(ops: seq<Op>, refs: RefTable)
    requires LogExplains(ops, refs)
    ensures WellKeyed(refs) && NothingDangles(refs)
    ensures refs.changes == map[] <==> Stack(ops) == []
    ensures refs == NO_REFS <==> Stack(ops) == []
  {
  }

  /** Recording an operation that captured both sides keeps the log explaining the refs. */
  lemma RecordExplains(ops: seq<Op>, refs: RefTable, op: Op, refs': RefTable)
    requires LogExplains(ops, refs) && op.id == |ops| && !op.kind.Undo?
    requires Records(op, refs, refs') && WellKeyed(refs') && NothingDangles(refs')
    requires refs.changes.Keys <= refs'.changes.Keys && refs'.changes != map[]
    ensures LogExplains(ops + [op], refs')
    ensures Stack(ops + [op]) == Stack(ops) + [op]
  {
    StackOfAppend(ops, op);
    ChainedPush(Stack(ops), op, refs');
    PrefixesOfAppend(ops, op);
    NumberedAppend(ops, op);
  }

  lemma NumberedAppend(ops: seq<Op>, op: Op)
    requires Numbered(ops) && op.id == |ops|
    ensures Numbered(ops + [op])
  {
  }

  lemma ChainedPush(stack: seq<Op>, op: Op, refs': RefTable)
    requires Chained(stack) && Records(op, Replay(stack), refs') && WellKeyed(refs') && NothingDangles(refs')
    requires Replay(stack).changes.Keys <= refs'.changes.Keys && refs'.changes != map[]
    ensures Chained(stack + [op]) && Replay(stack + [op]) == refs'
  {
    assert (stack + [op])[..|stack|] == stack;
  }

  lemma PrefixesOfAppend(ops: seq<Op>, op: Op)
    requires UndosNameTheirOp(ops)
    requires op.kind.Undo? ==> Stack(ops) != [] && op.kind.undoneOp == Stack(ops)[|Stack(ops)| - 1].id
    ensures UndosNameTheirOp(ops + [op])
  {
    forall i | 0 <= i < |ops| + 1 ensures (ops + [op])[..i] == ops[..i] {
    }
    assert ops[..|ops|] == ops;
  }

  /** The record of an undo: it captures what it overwrites and what it restores. */
  function UndoRecord(target: Op, refs: RefTable, actor: Text): OpInProgress {
    OpInProgress(actor, Undo(target.id), ReadAll(refs, target.before), target.before)
  }

  function ReadAll(refs: RefTable, rs: seq<RefSnapshot>): (r: seq<RefSnapshot>)
    ensures |r| == |rs| && forall i | 0 <= i < |rs| :: r[i] == Read(refs, KeyOf(rs[i]))
  {
    if rs == [] then [] else [Read(refs, KeyOf(rs[0]))] + ReadAll(refs, rs[1..])
  }

  lemma ReadAllCaptures(refs: RefTable, rs: seq<RefSnapshot>)
    ensures Captures(refs, ReadAll(refs, rs)) && Keys(ReadAll(refs, rs)) == Keys(rs)
  {
    var r := ReadAll(refs, rs);
    forall x | x in r ensures KeyOf(x) in Keys(rs) && x == Read(refs, KeyOf(x)) {
      var i :| 0 <= i < |r| && r[i] == x;
      assert rs[i] in rs;
    }
    forall x | x in rs ensures KeyOf(x) in Keys(r) {
      var i :| 0 <= i < |rs| && rs[i] == x;
      assert r[i] in r;
    }
  }

  /** The log and the refs after undoing the top of the stack. */
  function UndoTop(ops: seq<Op>, refs: RefTable, actor: Text, now: nat): (seq<Op>, RefTable)
    requires Stack(ops) != []
  {
    var target := Stack(ops)[|Stack(ops)| - 1];
    (ops + [Finalize(UndoRecord(target, refs, actor), |ops|, now)], RestoreAll(refs, target.before))
  }

  function Pop(stack: seq<Op>): seq<Op>
    requires stack != []
  {
    stack[..|stack| - 1]
  }

  /** One undo takes the refs back to exactly what they were before the top operation, keeps the
      log explaining them, and restoring the undo's own `before` would bring the refs back. */
  lemma UndoExplains(ops: seq<Op>, refs: RefTable, actor: Text, now: nat)
    requires LogExplains(ops, refs) && Stack(ops) != []
    ensures var (ops', refs') := UndoTop(ops, refs, actor, now);
            && refs' == Replay(Pop(Stack(ops)))
            && LogExplains(ops', refs')
            && Stack(ops') == Pop(Stack(ops))
            && Records(ops'[|ops|], refs, refs')
            && RestoreAll(refs', ops'[|ops|].before) == refs
            && ops'[|ops|].actor == actor && ops'[|ops|].ts == now
            && ops'[|ops|].kind == Undo(Stack(ops)[|Stack(ops)| - 1].id)
  {
    var stack := Stack(ops);
    var target := stack[|stack| - 1];
    var below := stack[..|stack| - 1];
    var undo := Finalize(UndoRecord(target, refs, actor), |ops|, now);
    ChainedIsSound(below);
    RestoreInverts(Replay(below), refs, target.before, target.after);
    ReadAllCaptures(refs, target.before);
    StackOfAppend(ops, undo);
    PrefixesOfAppend(ops, undo);
    RestoreInverts(refs, Replay(below), undo.before, undo.after);
  }

  /** Restoring what the top operation captured gives what is below it. */
  lemma TopRestoresBelow(ops: seq<Op>, refs: RefTable, below: seq<Op>, top: Op)
    requires LogExplains(ops, refs) && Stack(ops) == below + [top]
    ensures RestoreAll(refs, top.before) == Replay(below)
  {
    UndoExplains(ops, refs, [], 0);
    assert Pop(Stack(ops)) == below;
  }

  /** The stack that `k` undos leave. */
  function Popped(stack: seq<Op>, k: nat): seq<Op> {
    stack[..if k <= |stack| then |stack| - k else 0]
  }

  /** Undos in a row, each with its actor and time: the log and the refs they leave. */
  function UndoTimes(ops: seq<Op>, refs: RefTable, undos: seq<(Text, nat)>): (seq<Op>, RefTable)
    decreases |undos|
  {
    if undos == [] || Stack(ops) == [] then (ops, refs)
    else
      var (ops', refs') := UndoTop(ops, refs, undos[0].0, undos[0].1);
      UndoTimes(ops', refs', undos[1..])
  }

  /** The log has this stack in effect and explains the refs, which the stack produces. */
  ghost predicate Rewound(log: (seq<Op>, RefTable), stack: seq<Op>) {
    LogExplains(log.0, log.1) && Stack(log.0) == stack && log.1 == Replay(stack)
  }

  lemma UndoOnceRewinds(ops: seq<Op>, refs: RefTable, actor: Text, now: nat)
    requires LogExplains(ops, refs) && Stack(ops) != []
    ensures Rewound(UndoTop(ops, refs, actor, now), Pop(Stack(ops)))
  {
    UndoExplains(ops, refs, actor, now);
  }

  /** `k` undos return exactly the refs from before the last `k` operations still in effect. */
  lemma {:induction false} UndoTimesRewinds(ops: seq<Op>, refs: RefTable, undos: seq<(Text, nat)>)
    requires LogExplains(ops, refs)
    ensures Rewound(UndoTimes(ops, refs, undos), Popped(Stack(ops), |undos|))
    decreases |undos|
  {
    var k := |undos|;
    if k == 0 || Stack(ops) == [] {
      assert Popped(Stack(ops), k) == Stack(ops);
      RewoundAs(UndoTimes(ops, refs, undos), (ops, refs), Popped(Stack(ops), k), Stack(ops));
    } else {
      var (ops1, refs1) := UndoTop(ops, refs, undos[0].0, undos[0].1);
      UndoOnceRewinds(ops, refs, undos[0].0, undos[0].1);
      UndoTimesRewinds(ops1, refs1, undos[1..]);
      PoppedOnce(Stack(ops), k);
      RewoundAs(UndoTimes(ops, refs, undos), UndoTimes(ops1, refs1, undos[1..]),
                Popped(Stack(ops), k), Popped(Stack(ops1), k - 1));
    }
  }

  lemma RewoundAs(log: (seq<Op>, RefTable), log': (seq<Op>, RefTable), stack: seq<Op>, stack': seq<Op>)
    requires Rewound(log', stack') && log == log' && stack == stack'
    ensures Rewound(log, stack)
  {
  }

  lemma PoppedOnce(stack: seq<Op>, k: nat)
    requires stack != [] && k > 0
    ensures Popped(Pop(stack), k - 1) == Popped(stack, k)
  {
  }
}
