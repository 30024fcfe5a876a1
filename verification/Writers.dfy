/** Concurrent writers. A writer that snaps finds its workspace, takes the write lock, opens the log, scans,
    loads the change, stores the snapshot, saves the change, moves HEAD if the change is new, appends the
    record and releases the lock. Any number of writers, in any workspaces, interleave between any two of
    these steps, and with whole commands of any kind. */
module Writers {
  import opened Wrappers
  import opened Lex
  import opened Objects
  import opened Refs
  import opened OpLog
  import opened Repo
  import opened Machine
  import Effects

  type Pid = nat

  /** What discovery gives: for a secondary workspace its manifest is read then and never again. */
  datatype View = AtMain | At(wid: WorkspaceId, seen: ChangeId)

  datatype Args =
    Args(view: View, author: Text, message: Option<Text>, force: bool, freshId: ChangeId, description: Text, now: nat)

  /** What a writer holds in local variables at each point. */
  datatype Phase =
    | Idle
    | Discovered(view: View)
    | Locked(a: Args)
    | Opened(a: Args, nextId: nat)
    | Scanned(a: Args, nextId: nat, stored: Store, tree: Hash)
    | Loaded(a: Args, nextId: nat, stored: Store, tree: Hash, before: Option<Change>)
    | Stored(a: Args, nextId: nat, stored: Store, tree: Hash, was: RefSnapshot, before: Option<Change>, after: Change)
    | Saved(a: Args, nextId: nat, stored: Store, tree: Hash, was: RefSnapshot, before: Option<Change>, after: Change)
    | Headed(a: Args, nextId: nat, stored: Store, tree: Hash, was: RefSnapshot, before: Option<Change>, after: Change)
    | Done(cmd: Cmd)

  datatype System = System(st: State, lock: Option<Pid>, phases: map<Pid, Phase>)

  const START: System := System(INITIAL, None, map[])

  /** `Whole` is any command from discovery to release, with no other writer in between. */
  datatype Action =
    | Whole(cmd: Cmd)
    | Discover(ws: Workspace)
    | Acquire(args: Args)
    | Open
    | Scan(stored: Store, tree: Hash)
    | Load
    | PutSnapshot
    | SaveChange
    | MoveHead
    | AppendRecord
    | Release

  function PhaseOf(sys: System, p: Pid): Phase {
    if p in sys.phases then sys.phases[p] else Idle
  }

  /** The writer holds the lock. */
  predicate PastLock(ph: Phase) {
    !ph.Idle? && !ph.Discovered?
  }

  function Moved(sys: System, p: Pid, st: State, ph: Phase): Option<System> {
    Some(System(st, sys.lock, sys.phases[p := ph]))
  }

  function WorkspaceOf(v: View): Workspace {
    if v.AtMain? then Main else Secondary(v.wid)
  }

  function ViewOf(refs: RefTable, ws: Workspace): View
    requires WorkspaceKnown(refs, ws)
  {
    if ws.Main? then AtMain else At(ws.wid, refs.workspaces[ws.wid].changeId)
  }

  /** The current change as the writer sees it: HEAD is read anew, a manifest is not. */
  function CurrentFor(refs: RefTable, v: View): Option<ChangeId> {
    if v.AtMain? then refs.head else Some(v.seen)
  }

  function NewSnapshot(a: Args, tree: Hash, before: Option<Change>): Snapshot {
    Snapshot(if before.Some? then [before.value.current] else [], tree, a.author, a.now, a.message)
  }

  function NextChange(a: Args, tree: Hash, before: Option<Change>): Change {
    var h := Of(SnapObj(NewSnapshot(a, tree, before)));
    if before.Some? then before.value.Advance(h)
    else NewChange(a.freshId, a.description, a.author, Foreign(0)).(current := h, history := [h])
  }

  function CommandOf(a: Args, stored: Store, tree: Hash): Cmd {
    match a.view
    case AtMain => SnapWorkspace(Main, stored, tree, a.author, a.message, a.force, a.freshId, a.description, a.now)
    case At(wid, seen) => SnapSeen(wid, seen, stored, tree, a.author, a.message, a.force, a.now)
  }

  function RecordOf(a: Args, tree: Hash, was: RefSnapshot, before: Option<Change>, after: Change, refs: RefTable): OpInProgress {
    OpInProgress(a.author, Snap(Of(SnapObj(NewSnapshot(a, tree, before))), a.message),
                 [was] + [ChangeRef(after.id, before)],
                 [WorkspaceRefOf(refs, WorkspaceOf(a.view))] + [ChangeRef(after.id, Some(after))])
  }

  /** One step of writer `p`, or `None` where the step cannot be taken. The scan is given by its result:
      a store that only grew and holds the tree. */
  ghost function Step(sys: System, p: Pid, act: Action): Option<System> {
    var st := sys.st;
    match (act, PhaseOf(sys, p))
    case (Whole(cmd), Idle) =>
      if sys.lock.Some? || !Admissible(st, cmd) then None else Some(System(After(st, cmd), None, sys.phases))
    case (Discover(ws), Idle) =>
      if !WorkspaceKnown(st.refs, ws) then None else Moved(sys, p, st, Discovered(ViewOf(st.refs, ws)))
    case (Acquire(a), Discovered(view)) =>
      if sys.lock.Some? || |st.ops| > 0x8000_0000_0000_0000 || a.view != view then None
      else Some(System(st, Some(p), sys.phases[p := Locked(a)]))
    case (Open, Locked(a)) =>
      Moved(sys, p, st, Opened(a, NextId(st.ops)))
    case (Scan(stored, tree), Opened(a, n)) =>
      if !(Honest(stored) && Extends(st.objects, stored) && TreeOk(stored, tree)) then None
      else Moved(sys, p, st.(objects := stored), Scanned(a, n, stored, tree))
    case (Load, Scanned(a, n, stored, tree)) =>
      var id := CurrentFor(st.refs, a.view);
      if a.freshId in st.refs.changes || (id.Some? && id.value !in st.refs.changes) then None
      else Moved(sys, p, st, Loaded(a, n, stored, tree, if id.Some? then Some(st.refs.changes[id.value]) else None))
    case (PutSnapshot, Loaded(a, n, stored, tree, before)) =>
      if before.Some? && GetSnap(st.objects, before.value.current).Failure? then None
      else if before.Some? && GetSnap(st.objects, before.value.current).value.tree == tree && a.message.None? && !a.force then
        Moved(sys, p, st, Done(CommandOf(a, stored, tree)))
      else
        Moved(sys, p, st.(objects := Put(st.objects, SnapObj(NewSnapshot(a, tree, before)))),
              Stored(a, n, stored, tree, WorkspaceRefOf(st.refs, WorkspaceOf(a.view)), before, NextChange(a, tree, before)))
    case (SaveChange, Stored(a, n, stored, tree, was, before, after)) =>
      Moved(sys, p, st.(refs := Machine.PutChange(st.refs, after)), Saved(a, n, stored, tree, was, before, after))
    case (MoveHead, Saved(a, n, stored, tree, was, before, after)) =>
      Moved(sys, p, if before.None? then st.(refs := st.refs.(head := Some(after.id))) else st,
            Headed(a, n, stored, tree, was, before, after))
    case (AppendRecord, Headed(a, n, stored, tree, was, before, after)) =>
      Moved(sys, p, st.(ops := st.ops + [Finalize(RecordOf(a, tree, was, before, after, st.refs), n, a.now)]),
            Done(CommandOf(a, stored, tree)))
    case (Release, ph) =>
      if !PastLock(ph) || ph.Stored? || ph.Saved? || ph.Headed? then None
      else Some(System(st, None, sys.phases[p := Idle]))
    case _ => None
  }

  // --- the invariant ------------------------------------------------------------------------

  ghost predicate ScanOk(base: State, stored: Store, tree: Hash) {
    Honest(stored) && Extends(base.objects, stored) && TreeOk(stored, tree)
  }

  /** What was loaded is what the repository had when the lock was taken. */
  ghost predicate LoadOk(base: State, a: Args, before: Option<Change>) {
    var id := CurrentFor(base.refs, a.view);
    && (id.Some? ==> id.value in base.refs.changes && before == Some(base.refs.changes[id.value]))
    && (id.None? ==> before.None?)
    && a.freshId !in base.refs.changes
  }

  /** The snapshot differs from the current one, or is asked for. */
  ghost predicate Needed(a: Args, stored: Store, tree: Hash, before: Option<Change>) {
    before.Some? ==>
      && GetSnap(stored, before.value.current).Success?
      && !(GetSnap(stored, before.value.current).value.tree == tree && a.message.None? && !a.force)
  }

  function StoreAfter(a: Args, stored: Store, tree: Hash, before: Option<Change>): Store {
    Put(stored, SnapObj(NewSnapshot(a, tree, before)))
  }

  function RefsAfter(base: State, before: Option<Change>, after: Change): RefTable {
    var saved := Machine.PutChange(base.refs, after);
    if before.None? then saved.(head := Some(after.id)) else saved
  }

  /** How far a writer in the critical section has taken the repository from the state `base` in which
      it took the lock. */
  ghost predicate Critical(base: State, st: State, ph: Phase) {
    |base.ops| <= 0x8000_0000_0000_0000
    && match ph
    case Idle => false
    case Discovered(_) => false
    case Locked(_) => st == base
    case Opened(_, n) => st == base && n == NextId(base.ops)
    case Scanned(_, n, stored, tree) =>
      st == base.(objects := stored) && n == NextId(base.ops) && ScanOk(base, stored, tree)
    case Loaded(a, n, stored, tree, before) =>
      && st == base.(objects := stored) && n == NextId(base.ops) && ScanOk(base, stored, tree)
      && LoadOk(base, a, before)
    case Stored(a, n, stored, tree, was, before, after) =>
      && st == base.(objects := StoreAfter(a, stored, tree, before))
      && Ready(base, a, n, stored, tree, was, before, after)
    case Saved(a, n, stored, tree, was, before, after) =>
      && st == State(StoreAfter(a, stored, tree, before), Machine.PutChange(base.refs, after), base.ops)
      && Ready(base, a, n, stored, tree, was, before, after)
    case Headed(a, n, stored, tree, was, before, after) =>
      && st == State(StoreAfter(a, stored, tree, before), RefsAfter(base, before, after), base.ops)
      && Ready(base, a, n, stored, tree, was, before, after)
    case Done(cmd) => Admissible(base, cmd) && Exec(base, cmd) == Success(st)
  }

  /** The writer's local variables are right for the state in which it took the lock. */
  ghost predicate Ready(base: State, a: Args, n: nat, stored: Store, tree: Hash, was: RefSnapshot,
                        before: Option<Change>, after: Change) {
    && was == WorkspaceRefOf(base.refs, WorkspaceOf(a.view))
    && n == NextId(base.ops) && ScanOk(base, stored, tree) && LoadOk(base, a, before)
    && Needed(a, stored, tree, before) && after == NextChange(a, tree, before)
  }

  /** Whoever is past its lock holds the lock. */
  ghost predicate Exclusive(sys: System) {
    forall p: Pid :: PastLock(PhaseOf(sys, p)) ==> sys.lock == Some(p)
  }

  /** At most one writer is past its lock, and the repository is what a serial run of whole commands
      left, plus the progress of that writer. */
  ghost predicate SerialUpTo(sys: System, cs: seq<Cmd>) {
    && ValidRun(cs)
    && Exclusive(sys)
    && match sys.lock
       case None => sys.st == Run(cs)
       case Some(p) => Critical(Run(cs), sys.st, PhaseOf(sys, p))
  }

  lemma ValidStep(cs: seq<Cmd>, c: Cmd)
    requires ValidRun(cs) && Admissible(Run(cs), c)
    ensures ValidRun(cs + [c]) && Run(cs + [c]) == After(Run(cs), c)
  {
    assert (cs + [c])[..|cs|] == cs;
  }

  /** The record appended under the lock completes the command. */
  lemma AppendCompletes(base: State, a: Args, n: nat, stored: Store, tree: Hash, was: RefSnapshot,
                        before: Option<Change>, after: Change)
    requires Ready(base, a, n, stored, tree, was, before, after) && WellKeyed(base.refs)
    ensures var refs := RefsAfter(base, before, after);
            Exec(base, CommandOf(a, stored, tree))
            == Success(State(StoreAfter(a, stored, tree, before), refs,
                             base.ops + [Finalize(RecordOf(a, tree, was, before, after, refs), n, a.now)]))
  {
    if before.Some? {
      AdvanceMoves(before.value, NewSnapshot(a, tree, before));
    }
  }

  lemma ReadyIsAdmissible(base: State, a: Args, n: nat, stored: Store, tree: Hash, was: RefSnapshot,
                          before: Option<Change>, after: Change)
    requires Ready(base, a, n, stored, tree, was, before, after) && |base.ops| <= 0x8000_0000_0000_0000
    ensures Admissible(base, CommandOf(a, stored, tree))
  {
  }

  lemma UnchangedCompletes(base: State, a: Args, stored: Store, tree: Hash, before: Option<Change>)
    requires ScanOk(base, stored, tree) && LoadOk(base, a, before)
    requires before.Some? && GetSnap(stored, before.value.current).Success? && !Needed(a, stored, tree, before)
    ensures Exec(base, CommandOf(a, stored, tree)) == Success(base.(objects := stored))
  {
  }

  /** Every step keeps the invariant; a release adds the finished command to the serial run. */
  lemma StepKeepsSerial(sys: System, cs: seq<Cmd>, p: Pid, act: Action) returns (cs': seq<Cmd>)
    requires SerialUpTo(sys, cs) && Step(sys, p, act).Some?
    ensures SerialUpTo(Step(sys, p, act).value, cs')
  {
    OnlyOneMoves(sys, p, act);
    cs' := cs;
    match act {
      case Release => cs' := ReleaseIsSerial(sys, cs, p);
      case Whole(cmd) => ValidStep(cs, cmd); cs' := cs + [cmd];
      case Discover(_) => DiscoveryIsApart(sys, cs, p, act);
      case Acquire(_) => AcquireIsCritical(sys, p, act);
      case _ =>
        RunIsWellKeyed(cs);
        CriticalStep(Run(cs), sys, p, act);
    }
  }

  /** Steps that need the lock and keep it. */
  predicate Inside(act: Action) {
    !act.Whole? && !act.Discover? && !act.Acquire? && !act.Release?
  }

  /** Discovery touches neither the repository nor the writer in the critical section. */
  lemma DiscoveryIsApart(sys: System, cs: seq<Cmd>, p: Pid, act: Action)
    requires SerialUpTo(sys, cs) && act.Discover? && Step(sys, p, act).Some?
    ensures SerialUpTo(Step(sys, p, act).value, cs)
  {
    OnlyOneMoves(sys, p, act);
    StepMovesOne(sys, p, act);
    assert sys.lock.Some? ==> sys.lock.value != p;
  }

  lemma RunIsWellKeyed(cs: seq<Cmd>)
    requires ValidRun(cs)
    ensures WellKeyed(Run(cs).refs)
  {
    RunKeepsInv(cs);
    LogExplainsRefs(Run(cs).ops, Run(cs).refs);
  }

  lemma AcquireIsCritical(sys: System, p: Pid, act: Action)
    requires act.Acquire? && Step(sys, p, act).Some?
    ensures sys.lock.None? && Critical(sys.st, Step(sys, p, act).value.st, PhaseOf(Step(sys, p, act).value, p))
  {
  }

  lemma StepMovesOne(sys: System, p: Pid, act: Action)
    requires Step(sys, p, act).Some?
    ensures forall q: Pid | q != p :: PhaseOf(Step(sys, p, act).value, q) == PhaseOf(sys, q)
    ensures Step(sys, p, act).value.lock == if act.Release? then None else if act.Acquire? then Some(p) else sys.lock
    ensures act.Acquire? || act.Whole? ==> sys.lock.None?
    ensures act.Discover? ==> Step(sys, p, act).value.st == sys.st
    ensures PastLock(PhaseOf(sys, p)) <==> Inside(act) || act.Release?
    ensures PastLock(PhaseOf(Step(sys, p, act).value, p)) <==> Inside(act) || act.Acquire?
  {
  }

  lemma OnlyOneMoves(sys: System, p: Pid, act: Action)
    requires Step(sys, p, act).Some? && Exclusive(sys)
    ensures Exclusive(Step(sys, p, act).value)
    ensures Step(sys, p, act).value.lock ==
            if act.Release? || act.Whole? then None else if act.Discover? then sys.lock else Some(p)
  {
    StepMovesOne(sys, p, act);
    if Inside(act) || act.Release? {
      assert PastLock(PhaseOf(sys, p));
    }
  }

  lemma CriticalStep(base: State, sys: System, p: Pid, act: Action)
    requires Inside(act) && Step(sys, p, act).Some? && Critical(base, sys.st, PhaseOf(sys, p))
    requires WellKeyed(base.refs)
    ensures Critical(base, Step(sys, p, act).value.st, PhaseOf(Step(sys, p, act).value, p))
  {
    match act
    case PutSnapshot => PutIsCritical(base, sys, p);
    case AppendRecord => AppendIsCritical(base, sys, p);
    case _ =>
  }

  lemma PutIsCritical(base: State, sys: System, p: Pid)
    requires Step(sys, p, PutSnapshot).Some? && Critical(base, sys.st, PhaseOf(sys, p))
    ensures Critical(base, Step(sys, p, PutSnapshot).value.st, PhaseOf(Step(sys, p, PutSnapshot).value, p))
  {
    var ph := PhaseOf(sys, p);
    if ph.before.Some? && !Needed(ph.a, ph.stored, ph.tree, ph.before) {
      UnchangedCompletes(base, ph.a, ph.stored, ph.tree, ph.before);
    }
  }

  /** The state that the record of this writer completes. */
  function Completed(st: State, ph: Phase): State
    requires ph.Headed?
  {
    st.(ops := st.ops + [Finalize(RecordOf(ph.a, ph.tree, ph.was, ph.before, ph.after, st.refs), ph.nextId, ph.a.now)])
  }

  lemma HeadedCompletes(base: State, st: State, ph: Phase)
    requires ph.Headed? && Critical(base, st, ph) && WellKeyed(base.refs)
    ensures Critical(base, Completed(st, ph), Done(CommandOf(ph.a, ph.stored, ph.tree)))
  {
    AppendCompletes(base, ph.a, ph.nextId, ph.stored, ph.tree, ph.was, ph.before, ph.after);
    ReadyIsAdmissible(base, ph.a, ph.nextId, ph.stored, ph.tree, ph.was, ph.before, ph.after);
  }

  lemma AppendStepIs(sys: System, p: Pid)
    requires Step(sys, p, AppendRecord).Some?
    ensures PhaseOf(sys, p).Headed?
    ensures var ph, next := PhaseOf(sys, p), Step(sys, p, AppendRecord).value;
            next.st == Completed(sys.st, ph) && PhaseOf(next, p) == Done(CommandOf(ph.a, ph.stored, ph.tree))
  {
  }

  lemma AppendIsCritical(base: State, sys: System, p: Pid)
    requires Step(sys, p, AppendRecord).Some? && Critical(base, sys.st, PhaseOf(sys, p)) && WellKeyed(base.refs)
    ensures Critical(base, Step(sys, p, AppendRecord).value.st, PhaseOf(Step(sys, p, AppendRecord).value, p))
  {
    AppendStepIs(sys, p);
    HeadedCompletes(base, sys.st, PhaseOf(sys, p));
  }

  /** What a release adds to the serial run: the finished command, or the objects that a command left
      which gave up before writing any ref. */
  function Released(st: State, ph: Phase): Cmd {
    if ph.Done? then ph.cmd else StoreOnly(st.objects)
  }

  lemma ReleasedIsNext(base: State, st: State, ph: Phase)
    requires Critical(base, st, ph) && Honest(base.objects) && !ph.Stored? && !ph.Saved? && !ph.Headed?
    ensures Admissible(base, Released(st, ph)) && After(base, Released(st, ph)) == st
  {
  }

  lemma ReleaseMovesLockOnly(sys: System, p: Pid)
    requires Step(sys, p, Release).Some?
    ensures Step(sys, p, Release).value.st == sys.st
    ensures !PhaseOf(sys, p).Stored? && !PhaseOf(sys, p).Saved? && !PhaseOf(sys, p).Headed? && PastLock(PhaseOf(sys, p))
  {
  }

  lemma ReleaseIsSerial(sys: System, cs: seq<Cmd>, p: Pid) returns (cs': seq<Cmd>)
    requires SerialUpTo(sys, cs) && Step(sys, p, Release).Some?
    ensures SerialUpTo(Step(sys, p, Release).value, cs')
  {
    var ph := PhaseOf(sys, p);
    ReleaseMovesLockOnly(sys, p);
    OnlyOneMoves(sys, p, Release);
    assert Honest(Run(cs).objects) by {
      RunKeepsInv(cs);
    }
    cs' := SerialRelease(cs, sys.st, ph);
  }

  lemma SerialRelease(cs: seq<Cmd>, st: State, ph: Phase) returns (cs': seq<Cmd>)
    requires ValidRun(cs) && Critical(Run(cs), st, ph) && Honest(Run(cs).objects)
    requires !ph.Stored? && !ph.Saved? && !ph.Headed?
    ensures ValidRun(cs') && Run(cs') == st
  {
    ReleasedIsNext(Run(cs), st, ph);
    ValidStep(cs, Released(st, ph));
    cs' := cs + [Released(st, ph)];
  }

  // --- whole interleavings ------------------------------------------------------------------

  ghost function Interleave(sys: System, trace: seq<(Pid, Action)>): Option<System>
    decreases |trace|
  {
    if trace == [] then Some(sys)
    else
      var next := Step(sys, trace[0].0, trace[0].1);
      if next.None? then None else Interleave(next.value, trace[1..])
  }

  lemma {:induction false} InterleavingIsSerial(sys: System, cs: seq<Cmd>, trace: seq<(Pid, Action)>) returns (cs': seq<Cmd>)
    requires SerialUpTo(sys, cs) && Interleave(sys, trace).Some?
    ensures SerialUpTo(Interleave(sys, trace).value, cs')
    decreases |trace|
  {
    cs' := cs;
    if trace != [] {
      var ds := StepKeepsSerial(sys, cs, trace[0].0, trace[0].1);
      cs' := InterleavingIsSerial(Step(sys, trace[0].0, trace[0].1).value, ds, trace[1..]);
    }
  }

  lemma CriticalIsNumbered(base: State, st: State, ph: Phase)
    requires Critical(base, st, ph) && Inv(base)
    ensures Numbered(st.ops)
  {
    if ph.Done? {
      StepKeepsInv(base, ph.cmd);
    }
  }

  /** Every interleaving of any number of writers: at most one is past the lock; ids count from zero in
      the order of the file at every moment; and whenever the lock is free the repository is that of a
      serial run of whole commands, so that all that holds of runs holds of it. */
  lemma WritersAreSerial(trace: seq<(Pid, Action)>)
    requires Interleave(START, trace).Some?
    ensures var sys := Interleave(START, trace).value;
            && (forall p: Pid, q: Pid | PastLock(PhaseOf(sys, p)) && PastLock(PhaseOf(sys, q)) :: p == q)
            && Numbered(sys.st.ops)
            && (sys.lock.None? ==> Inv(sys.st) && exists cs :: ValidRun(cs) && Run(cs) == sys.st)
  {
    var sys := Interleave(START, trace).value;
    var cs := InterleavingIsSerial(START, [], trace);
    RunKeepsInv(cs);
    if sys.lock.Some? {
      CriticalIsNumbered(Run(cs), sys.st, PhaseOf(sys, sys.lock.value));
    }
  }

  // --- no lost snapshot ---------------------------------------------------------------------

  /** No change disappears and every history only gets longer. */
  ghost predicate HistoriesGrow(refs: RefTable, refs': RefTable) {
    forall id | id in refs.changes :: id in refs'.changes && refs.changes[id].history <= refs'.changes[id].history
  }

  /** The snapshot that the record names, if it records one, is in the history of a change. */
  ghost predicate SnapLive(refs: RefTable, op: Op) {
    op.kind.Snap? ==> exists id | id in refs.changes :: op.kind.snapshot in refs.changes[id].history
  }

  /** Every snapshot that the log records is in the history of a change. */
  ghost predicate RecordedSnapsLive(st: State) {
    forall op | op in st.ops :: SnapLive(st.refs, op)
  }

  /** Histories only get longer, and each new record is of a snapshot in a history, or of no snapshot. */
  ghost predicate LosesNothing(st: State, st': State) {
    && HistoriesGrow(st.refs, st'.refs)
    && forall op | op in st'.ops && op !in st.ops :: SnapLive(st'.refs, op)
  }

  lemma SnapsStayLive(st: State, st': State)
    requires RecordedSnapsLive(st) && LosesNothing(st, st')
    ensures RecordedSnapsLive(st')
  {
    forall op | op in st'.ops && op in st.ops && op.kind.Snap? ensures SnapLive(st'.refs, op) {
      assert SnapLive(st.refs, op);
      var id :| id in st.refs.changes && op.kind.snapshot in st.refs.changes[id].history;
      assert op.kind.snapshot in st'.refs.changes[id].history;
    }
  }

  /** A snapshot on top of an existing change. */
  lemma SnapLosesNothing(st: State, id: ChangeId, stored: Store, wsRefs: seq<RefSnapshot>, tree: Hash, author: Text,
                         message: Option<Text>, force: bool, now: nat)
    requires Inv(st) && Honest(stored) && Extends(st.objects, stored) && id in st.refs.changes
    ensures var r := SnapExisting(st, id, stored, wsRefs, tree, author, message, force, now);
            r.Success? && LosesNothing(st, r.value)
  {
    Effects.SnapExistingEffect(st, id, stored, wsRefs, tree, author, message, force, now);
    SnappedLosesNothing(st, SnapExisting(st, id, stored, wsRefs, tree, author, message, force, now).value, id, tree, author,
                        message, force, now);
  }

  lemma SnappedLosesNothing(st: State, next: State, id: ChangeId, tree: Hash, author: Text, message: Option<Text>, force: bool,
                            now: nat)
    requires id in st.refs.changes && IsSnap(st.refs.changes[id].current)
    requires Effects.Snapped(st, next, id, tree, author, message, force, now)
    ensures LosesNothing(st, next)
  {
    if next.ops != st.ops {
      forall x | x in st.refs.changes && x != id ensures x in next.refs.changes && next.refs.changes[x] == st.refs.changes[x] {
        assert Read(st.refs, ChangeKey(x)) == Read(next.refs, ChangeKey(x));
      }
      OneMoreRecord(st, next, id);
    }
  }

  lemma OneMoreRecord(st: State, st': State, id: ChangeId)
    requires |st'.ops| == |st.ops| + 1 && st'.ops[..|st.ops|] == st.ops && HistoriesGrow(st.refs, st'.refs)
    requires var op := st'.ops[|st.ops|];
             op.kind.Snap? ==> id in st'.refs.changes && op.kind.snapshot in st'.refs.changes[id].history
    ensures LosesNothing(st, st')
  {
    var op := st'.ops[|st.ops|];
    assert SnapLive(st'.refs, op);
    assert st'.ops == st.ops + [op];
  }

  /** The first snapshot of a new change. */
  lemma FirstSnapLosesNothing(st: State, stored: Store, tree: Hash, author: Text, message: Option<Text>, force: bool,
                              freshId: ChangeId, description: Text, now: nat)
    requires st.refs.head.None? && freshId !in st.refs.changes
    ensures LosesNothing(st, SnapIntoWorkspace(st, Main, stored, tree, author, message, force, freshId, description, now).value)
  {
    var next := SnapIntoWorkspace(st, Main, stored, tree, author, message, force, freshId, description, now).value;
    OneMoreRecord(st, next, freshId);
  }

  /** A record of another kind, and histories as they were. */
  lemma QuietRecord(st: State, st': State)
    requires |st'.ops| == |st.ops| + 1 && st'.ops[..|st.ops|] == st.ops && !st'.ops[|st.ops|].kind.Snap?
    requires HistoriesGrow(st.refs, st'.refs)
    ensures LosesNothing(st, st')
  {
    OneMoreRecord(st, st', []);
  }

  lemma NewLosesNothing(st: State, cmd: Cmd)
    requires Admissible(st, cmd) && Exec(st, cmd).Success? && (cmd.NewInWorkspace? || cmd.CreateChange?)
    ensures LosesNothing(st, Exec(st, cmd).value)
  {
    QuietRecord(st, Exec(st, cmd).value);
  }

  lemma TransitionLosesNothing(st: State, cmd: Cmd)
    requires WellKeyed(st.refs) && Exec(st, cmd).Success? && cmd.Transition?
    ensures LosesNothing(st, Exec(st, cmd).value)
  {
    QuietRecord(st, Exec(st, cmd).value);
  }

  lemma WorkspaceLosesNothing(st: State, cmd: Cmd)
    requires Exec(st, cmd).Success? && (cmd.MakeWorkspace? || cmd.DropWorkspace?)
    ensures LosesNothing(st, Exec(st, cmd).value)
  {
    QuietRecord(st, Exec(st, cmd).value);
  }

  lemma AnySnapLosesNothing(st: State, cmd: Cmd)
    requires Inv(st) && Admissible(st, cmd) && Exec(st, cmd).Success?
    requires cmd.SnapWorkspace? || cmd.SnapSeen? || cmd.SnapChange?
    ensures LosesNothing(st, Exec(st, cmd).value)
  {
    LogExplainsRefs(st.ops, st.refs);
    match cmd
    case SnapWorkspace(ws, stored, tree, author, message, force, freshId, description, now) =>
      if CurrentChange(st.refs, ws).Some? {
        var id := CurrentChange(st.refs, ws).value;
        SnapLosesNothing(st, id, stored, [WorkspaceRefOf(st.refs, ws)], tree, author, message, force, now);
      } else {
        FirstSnapLosesNothing(st, stored, tree, author, message, force, freshId, description, now);
      }
    case SnapSeen(wid, seen, stored, tree, author, message, force, now) =>
      SnapLosesNothing(st, seen, stored, [WorkspaceRefOf(st.refs, Secondary(wid))], tree, author, message, force, now);
    case SnapChange(id, stored, tree, author, message, force, now) =>
      SnapLosesNothing(st, id, stored, [], tree, author, message, force, now);
  }

  /** No command but undo loses a snapshot. */
  lemma CommandLosesNothing(st: State, cmd: Cmd)
    requires Inv(st) && Admissible(st, cmd) && !cmd.UndoLast?
    ensures LosesNothing(st, After(st, cmd))
  {
    if Exec(st, cmd).Success? {
      LogExplainsRefs(st.ops, st.refs);
      match cmd
      case Transition(_, _, _, _, _) => TransitionLosesNothing(st, cmd);
      case MakeWorkspace(_, _, _, _, _, _) => WorkspaceLosesNothing(st, cmd);
      case DropWorkspace(_, _, _, _) => WorkspaceLosesNothing(st, cmd);
      case NewInWorkspace(_, _, _, _, _, _) => NewLosesNothing(st, cmd);
      case CreateChange(_, _, _, _, _, _, _) => NewLosesNothing(st, cmd);
      case StoreOnly(_) =>
      case Collect(_) =>
      case _ => AnySnapLosesNothing(st, cmd);
    }
  }

  /** The step undoes nothing. */
  predicate NoUndo(act: Action) {
    act.Whole? ==> !act.cmd.UndoLast?
  }

  lemma StepLosesNothing(sys: System, cs: seq<Cmd>, p: Pid, act: Action)
    requires SerialUpTo(sys, cs) && Step(sys, p, act).Some? && NoUndo(act)
    ensures LosesNothing(sys.st, Step(sys, p, act).value.st)
  {
    RunKeepsInv(cs);
    match act
    case Whole(cmd) => CommandLosesNothing(sys.st, cmd);
    case SaveChange =>
      LogExplainsRefs(Run(cs).ops, Run(cs).refs);
      SavingGrowsHistories(Run(cs), sys.st, PhaseOf(sys, p));
    case AppendRecord => NewRecordIsLive(sys, cs, p);
    case _ => OtherStepsKeepChanges(sys, p, act);
  }

  lemma SavingGrowsHistories(base: State, st: State, ph: Phase)
    requires ph.Stored? && Critical(base, st, ph) && WellKeyed(base.refs)
    ensures HistoriesGrow(st.refs, Machine.PutChange(st.refs, ph.after))
  {
  }

  lemma OtherStepsKeepChanges(sys: System, p: Pid, act: Action)
    requires Step(sys, p, act).Some? && !act.SaveChange? && !act.Whole? && !act.AppendRecord?
    ensures Step(sys, p, act).value.st.refs.changes == sys.st.refs.changes
    ensures Step(sys, p, act).value.st.ops == sys.st.ops
  {
  }

  lemma HeadedIsSaved(base: State, st: State, ph: Phase)
    requires ph.Headed? && Critical(base, st, ph)
    ensures ph.after.id in st.refs.changes && st.refs.changes[ph.after.id] == ph.after
    ensures Of(SnapObj(NewSnapshot(ph.a, ph.tree, ph.before))) in ph.after.history
  {
    var snap := NewSnapshot(ph.a, ph.tree, ph.before);
    if ph.before.Some? {
      AdvanceMoves(ph.before.value, snap);
    }
    assert ph.after.history[|ph.after.history| - 1] == Of(SnapObj(snap));
  }

  lemma NewRecordIsLive(sys: System, cs: seq<Cmd>, p: Pid)
    requires SerialUpTo(sys, cs) && Step(sys, p, AppendRecord).Some?
    ensures LosesNothing(sys.st, Step(sys, p, AppendRecord).value.st)
  {
    assert PastLock(PhaseOf(sys, p));
    HeadedIsSaved(Run(cs), sys.st, PhaseOf(sys, p));
    OneMoreRecord(sys.st, Step(sys, p, AppendRecord).value.st, PhaseOf(sys, p).after.id);
  }

  ghost predicate NothingUndone(trace: seq<(Pid, Action)>) {
    forall step | step in trace :: NoUndo(step.1)
  }

  lemma {:induction false} InterleavingLosesNothing(sys: System, cs: seq<Cmd>, trace: seq<(Pid, Action)>)
    requires SerialUpTo(sys, cs) && Interleave(sys, trace).Some? && NothingUndone(trace)
    ensures HistoriesGrow(sys.st.refs, Interleave(sys, trace).value.st.refs)
    ensures RecordedSnapsLive(sys.st) ==> RecordedSnapsLive(Interleave(sys, trace).value.st)
    decreases |trace|
  {
    if trace != [] {
      var next := Step(sys, trace[0].0, trace[0].1).value;
      assert trace[0] in trace && forall step | step in trace[1..] :: step in trace;
      StepLosesNothing(sys, cs, trace[0].0, trace[0].1);
      var ds := StepKeepsSerial(sys, cs, trace[0].0, trace[0].1);
      InterleavingLosesNothing(next, ds, trace[1..]);
      if RecordedSnapsLive(sys.st) {
        SnapsStayLive(sys.st, next.st);
      }
    }
  }

  /** Without undo, no interleaving loses a snapshot: continuing only lengthens the histories, and each
      snapshot in the log is in the history of a change. */
  lemma NoSnapshotIsLost(trace: seq<(Pid, Action)>, more: seq<(Pid, Action)>)
    requires Interleave(START, trace).Some? && Interleave(Interleave(START, trace).value, more).Some?
    requires NothingUndone(more)
    ensures var now, later := Interleave(START, trace).value, Interleave(Interleave(START, trace).value, more).value;
            && HistoriesGrow(now.st.refs, later.st.refs)
            && (NothingUndone(trace) ==> RecordedSnapsLive(later.st))
  {
    var cs := InterleavingIsSerial(START, [], trace);
    InterleavingLosesNothing(Interleave(START, trace).value, cs, more);
    if NothingUndone(trace) {
      InterleavingLosesNothing(START, [], trace);
    }
  }

  // --- a workspace discovered before taking the lock ----------------------------------------

  /** The writer holds the lock and still goes by a manifest that was rewritten since it read it. */
  predicate IsStale(sys: System, p: Pid) {
    && PhaseOf(sys, p).Locked?
    && var v := PhaseOf(sys, p).a.view;
       v.At? && v.wid in sys.st.refs.workspaces && sys.st.refs.workspaces[v.wid].changeId != v.seen
  }

  /** A change is made and checked out somewhere. */
  lemma NewChecksOut(st: State, ws: Workspace, id: ChangeId)
    requires WorkspaceKnown(st.refs, ws) && id !in st.refs.changes && |st.ops| < 10
    requires CurrentChange(st.refs, ws).Some? ==> CurrentChange(st.refs, ws).value in st.refs.changes
    requires ws.Secondary? ==> st.refs.workspaces[ws.wid].id == ws.wid
    ensures var c := NewInWorkspace(ws, id, [], [], false, 0);
            && Admissible(st, c)
            && var next := After(st, c);
            && |next.ops| == |st.ops| + 1 && next.refs.changes.Keys == st.refs.changes.Keys + {id}
            && WorkspaceKnown(next.refs, ws) && CurrentChange(next.refs, ws) == Some(id)
  {
  }

  lemma MakeMakes(st: State, wid: WorkspaceId)
    requires st.refs.head.Some? && wid !in st.refs.workspaces && |st.ops| < 10
    ensures var c := MakeWorkspace(Main, wid, [], [], [], 0);
            && Admissible(st, c)
            && var next := After(st, c);
            && |next.ops| == |st.ops| + 1 && next.refs.changes == st.refs.changes
            && wid in next.refs.workspaces && next.refs.workspaces[wid].id == wid
            && next.refs.workspaces[wid].changeId == st.refs.head.value
  {
  }

  ghost predicate Reached(trace: seq<(Pid, Action)>, sys: System) {
    Interleave(START, trace) == Some(sys)
  }

  lemma {:induction false} InterleaveOneMore(sys: System, trace: seq<(Pid, Action)>, p: Pid, act: Action)
    requires Interleave(sys, trace).Some?
    ensures Interleave(sys, trace + [(p, act)]) == Step(Interleave(sys, trace).value, p, act)
    decreases |trace|
  {
    var all := trace + [(p, act)];
    if trace == [] {
      assert all[0] == (p, act) && all[1..] == [];
    } else {
      assert all[0] == trace[0] && all[1..] == trace[1..] + [(p, act)];
      InterleaveOneMore(Step(sys, trace[0].0, trace[0].1).value, trace[1..], p, act);
    }
  }

  lemma ReachedWhole(trace: seq<(Pid, Action)>, sys: System, p: Pid, cmd: Cmd) returns (trace': seq<(Pid, Action)>)
    requires Reached(trace, sys) && sys.lock.None? && PhaseOf(sys, p).Idle? && Admissible(sys.st, cmd)
    ensures Reached(trace', System(After(sys.st, cmd), None, sys.phases))
  {
    trace' := trace + [(p, Whole(cmd))];
    InterleaveOneMore(START, trace, p, Whole(cmd));
  }

  /** A repository with one secondary workspace on the change `id`. */
  lemma WorkspaceReached(id: ChangeId, wid: WorkspaceId) returns (trace: seq<(Pid, Action)>, st: State)
    ensures Reached(trace, System(st, None, map[])) && |st.ops| == 2 && st.refs.changes.Keys == {id}
    ensures wid in st.refs.workspaces && st.refs.workspaces[wid].id == wid && st.refs.workspaces[wid].changeId == id
  {
    NewChecksOut(INITIAL, Main, id);
    trace := ReachedWhole([], START, 0, NewInWorkspace(Main, id, [], [], false, 0));
    st := After(INITIAL, NewInWorkspace(Main, id, [], [], false, 0));
    MakeMakes(st, wid);
    trace := ReachedWhole(trace, System(st, None, map[]), 0, MakeWorkspace(Main, wid, [], [], [], 0));
    st := After(st, MakeWorkspace(Main, wid, [], [], [], 0));
  }

  lemma DiscoverThenLock(trace: seq<(Pid, Action)>, st: State, wid: WorkspaceId, cmd: Cmd, a: Args)
    returns (trace': seq<(Pid, Action)>)
    requires Reached(trace, System(st, None, map[])) && wid in st.refs.workspaces
    requires Admissible(st, cmd) && |After(st, cmd).ops| <= 0x8000_0000_0000_0000
    requires a.view == At(wid, st.refs.workspaces[wid].changeId)
    ensures exists phases: map<Pid, Phase> ::
              0 in phases && phases[0] == Locked(a) && Reached(trace', System(After(st, cmd), Some(0), phases))
  {
    var found: map<Pid, Phase> := map[0 := Discovered(a.view)];
    trace' := trace + [(0, Discover(Secondary(wid)))];
    InterleaveOneMore(START, trace, 0, Discover(Secondary(wid)));
    assert Reached(trace', System(st, None, found));
    trace' := ReachedWhole(trace', System(st, None, found), 1, cmd);
    InterleaveOneMore(START, trace', 0, Acquire(a));
    trace' := trace' + [(0, Acquire(a))];
    assert Reached(trace', System(After(st, cmd), Some(0), found[0 := Locked(a)]));
  }

  /** This happens: a writer finds a secondary workspace, another one makes a new change there, and the first
      one takes the lock. Its snap then goes to the old change, as `Effects.SeenSnapIsCurrentIff` says. */
  lemma StaleDiscoveryHappens()
    ensures exists trace: seq<(Pid, Action)>, p: Pid :: Interleave(START, trace).Some? && IsStale(Interleave(START, trace).value, p)
  {
    var trace, st := WorkspaceReached([1], [9]);
    NewChecksOut(st, Secondary([9]), [2]);
    var a := Args(At([9], [1]), [], None, false, [3], [], 0);
    trace := DiscoverThenLock(trace, st, [9], NewInWorkspace(Secondary([9]), [2], [], [], false, 0), a);
    assert IsStale(Interleave(START, trace).value, 0);
  }

  // --- a log opened before taking the lock --------------------------------------------------

  /** A handle that was opened when the log had `k` records appends with a proper id exactly when no
      record was appended since; otherwise it repeats the id of an existing record. */
  lemma StaleHandleRepeatsId(ops: seq<Op>, k: nat, op: OpInProgress, now: nat)
    requires Numbered(ops) && k <= |ops| <= 0x8000_0000_0000_0000
    ensures var after := ops + [Finalize(op, NextId(ops[..k]), now)];
            && (Numbered(after) <==> k == |ops|)
            && (k < |ops| ==> ops[k].id == after[|ops|].id)
  {
    NextIdOfNumbered(ops[..k]);
    assert (ops + [Finalize(op, k, now)])[|ops|].id == k;
  }
}
