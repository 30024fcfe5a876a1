/** Mark-and-sweep collection over the object store. */
module Gc {
  import opened Wrappers
  import opened Objects
  import opened Refs
  import opened OpLog
  import opened Repo

  datatype GcSummary = GcSummary(roots: nat, kept: nat, removed: nat, bytesFreed: nat, dryRun: bool)

  // --- roots --------------------------------------------------------------------------------

  /** The snapshots a change record names. */
  function Named(c: Change): set<Hash> {
    {c.current} + set h | h in c.history
  }

  function LiveRoots(refs: RefTable): set<Hash> {
    set id, h | id in refs.changes && h in Named(refs.changes[id]) :: h
  }

  function CaptureRoots(r: RefSnapshot): set<Hash> {
    if r.ChangeRef? && r.change.Some? then Named(r.change.value) else {}
  }

  function OpRoots(op: Op): set<Hash> {
    (if op.kind.Snap? then {op.kind.snapshot} else {})
    + set r, h | r in op.before + op.after && h in CaptureRoots(r) :: h
  }

  function LogRoots(ops: seq<Op>): set<Hash> {
    set op, h | op in ops && h in OpRoots(op) :: h
  }

  function RootsOf(st: State, includeOplog: bool): set<Hash> {
    LiveRoots(st.refs) + if includeOplog then LogRoots(st.ops) else {}
  }

  /** The change names the hash. */
  predicate Names(c: Change, h: Hash) {
    h == c.current || h in c.history
  }

  /** The record names the hash: as the snapshot that was taken, or in a change that it captured. */
  predicate RecordNames(op: Op, h: Hash) {
    || (op.kind.Snap? && op.kind.snapshot == h)
    || exists r | r in op.before + op.after :: r.ChangeRef? && r.change.Some? && Names(r.change.value, h)
  }

  lemma OpRootsAre(op: Op, h: Hash)
    ensures h in OpRoots(op) <==> RecordNames(op, h)
  {
    forall r | r in op.before + op.after
      ensures h in CaptureRoots(r) <==> r.ChangeRef? && r.change.Some? && Names(r.change.value, h)
    {
    }
  }

  /** The roots are the snapshots that live changes name and, if the log counts, those that its records name. */
  lemma RootsAre(st: State, includeOplog: bool, h: Hash)
    ensures h in RootsOf(st, includeOplog) <==>
            || (exists id | id in st.refs.changes :: Names(st.refs.changes[id], h))
            || (includeOplog && exists op | op in st.ops :: RecordNames(op, h))
  {
    forall id | id in st.refs.changes ensures h in Named(st.refs.changes[id]) <==> Names(st.refs.changes[id], h) {
    }
    forall op | op in st.ops ensures h in OpRoots(op) <==> RecordNames(op, h) {
      OpRootsAre(op, h);
    }
  }

  // --- the marked set -----------------------------------------------------------------------

  function Elements(hs: seq<Hash>): set<Hash> {
    set h | h in hs
  }

  lemma ElementsOfSplit(hs: seq<Hash>)
    requires hs != []
    ensures Elements(hs) == {hs[|hs| - 1]} + Elements(hs[..|hs| - 1])
  {
    assert forall h | h in hs :: h == hs[|hs| - 1] || h in hs[..|hs| - 1];
  }

  lemma ElementsOfAppend(hs: seq<Hash>, h: Hash)
    ensures Elements(hs + [h]) == Elements(hs) + {h}
  {
  }

  /** The hashes an object refers to, as far as the collector follows them. */
  function RefsOf(o: Object): set<Hash> {
    match o
    case SnapObj(snap) => {snap.tree} + Elements(snap.parents)
    case TreeObj(es) => set e | e in es && Followed(e.kind) :: e.target
    case _ => {}
  }

  function Edges(s: Store, h: Hash): set<Hash> {
    if h in s then RefsOf(s[h]) else {}
  }

  ghost predicate Closed(s: Store, m: set<Hash>) {
    forall h | h in m :: Edges(s, h) <= m
  }

  /** Every hash that can be named at all: a root or a reference of a stored object. */
  ghost function Universe(s: Store, roots: set<Hash>): set<Hash> {
    roots + set h, e | h in s && e in Edges(s, h) :: e
  }

  /** The least set that contains the roots and is closed under the followed references. */
  ghost function Marked(s: Store, roots: set<Hash>): set<Hash> {
    set h | h in Universe(s, roots) && forall m: set<Hash> | roots <= m && Closed(s, m) :: h in m
  }

  lemma MarkedIsLeast(s: Store, roots: set<Hash>)
    ensures roots <= Marked(s, roots) && Closed(s, Marked(s, roots))
    ensures forall m | roots <= m && Closed(s, m) :: Marked(s, roots) <= m
  {
    forall h | h in Marked(s, roots) ensures Edges(s, h) <= Marked(s, roots) {
      assert Edges(s, h) <= Universe(s, roots);
    }
  }

  /** The object names the hash as a parent, as its tree, or in an entry that is neither a symlink nor a
      submodule. */
  predicate Leads(o: Object, h: Hash) {
    || (o.SnapObj? && (h == o.snap.tree || h in o.snap.parents))
    || (o.TreeObj? && exists e | e in o.entries :: e.target == h && !e.kind.SymlinkKind? && !e.kind.SubmoduleKind?)
  }

  /** A way from a root through stored objects. */
  predicate IsWay(s: Store, roots: set<Hash>, way: seq<Hash>) {
    && way != [] && way[0] in roots
    && forall i | 0 <= i < |way| - 1 :: way[i] in s && Leads(s[way[i]], way[i + 1])
  }

  ghost predicate Reached(s: Store, roots: set<Hash>, h: Hash) {
    exists way :: IsWay(s, roots, way) && way[|way| - 1] == h
  }

  lemma EdgesLead(s: Store, h: Hash, t: Hash)
    ensures t in Edges(s, h) <==> h in s && Leads(s[h], t)
  {
  }

  lemma {:induction false} WayIsMarked(s: Store, roots: set<Hash>, way: seq<Hash>)
    requires IsWay(s, roots, way)
    ensures way[|way| - 1] in Marked(s, roots)
    decreases |way|
  {
    MarkedIsLeast(s, roots);
    if |way| > 1 {
      var init := way[..|way| - 1];
      WayIsMarked(s, roots, init);
      EdgesLead(s, init[|init| - 1], way[|way| - 1]);
    }
  }

  lemma OneStepFurther(s: Store, roots: set<Hash>, h: Hash, t: Hash)
    requires Reached(s, roots, h) && h in s && Leads(s[h], t)
    ensures Reached(s, roots, t)
  {
    var way :| IsWay(s, roots, way) && way[|way| - 1] == h;
    var further := way + [t];
    assert IsWay(s, roots, further) && further[|further| - 1] == t;
  }

  /** The marked hashes are those at the end of a way from a root. */
  lemma MarkedIsReached(s: Store, roots: set<Hash>)
    ensures forall h :: h in Marked(s, roots) <==> Reached(s, roots, h)
  {
    MarkedIsLeast(s, roots);
    var m := set h | h in Marked(s, roots) && Reached(s, roots, h);
    forall h | h in roots ensures h in m {
      assert IsWay(s, roots, [h]);
    }
    forall h, t | h in m && t in Edges(s, h) ensures t in m {
      EdgesLead(s, h, t);
      OneStepFurther(s, roots, h, t);
    }
    assert Closed(s, m);
    forall h ensures h in Marked(s, roots) <==> Reached(s, roots, h) {
      if Reached(s, roots, h) {
        var way :| IsWay(s, roots, way) && way[|way| - 1] == h;
        WayIsMarked(s, roots, way);
      }
    }
  }

  method RootsToQueue(roots: set<Hash>) returns (queue: seq<Hash>)
    ensures Elements(queue) == roots
  {
    queue := [];
    var left := roots;
    while left != {}
      invariant left <= roots && Elements(queue) == roots - left
      decreases |left|
    {
      var h :| h in left;
      ElementsOfAppend(queue, h);
      left := left - {h};
      queue := queue + [h];
    }
  }

  /** What the mark loop maintains: nothing outside the least set was touched, and whatever that
      set still needs is marked or queued. */
  ghost predicate Marking(s: Store, roots: set<Hash>, marked: set<Hash>, queued: set<Hash>) {
    && marked + queued <= Marked(s, roots)
    && roots <= marked + queued
    && forall h | h in marked :: Edges(s, h) <= marked + queued
  }

  lemma MarkingSkips(s: Store, roots: set<Hash>, marked: set<Hash>, h: Hash, rest: set<Hash>)
    requires Marking(s, roots, marked, {h} + rest) && h in marked
    ensures Marking(s, roots, marked, rest)
  {
    assert marked + ({h} + rest) == marked + rest;
  }

  lemma MarkingVisits(s: Store, roots: set<Hash>, marked: set<Hash>, h: Hash, rest: set<Hash>)
    requires Marking(s, roots, marked, {h} + rest) && Get(s, h).Success?
    ensures Marking(s, roots, marked + {h}, rest + RefsOf(Get(s, h).value))
  {
    MarkedIsLeast(s, roots);
    assert Edges(s, h) <= Marked(s, roots);
  }

  /** A missing object is marked as well, but leads nowhere. */
  lemma MarkingVisitsMissing(s: Store, roots: set<Hash>, marked: set<Hash>, h: Hash, rest: set<Hash>)
    requires Marking(s, roots, marked, {h} + rest) && h !in s
    ensures Marking(s, roots, marked + {h}, rest)
  {
    assert Edges(s, h) == {};
  }

  lemma MarkingDone(s: Store, roots: set<Hash>, marked: set<Hash>)
    requires Marking(s, roots, marked, {})
    ensures marked == Marked(s, roots)
  {
    MarkedIsLeast(s, roots);
    assert Closed(s, marked);
  }

  lemma Shrinks(universe: set<Hash>, marked: set<Hash>, h: Hash)
    requires h in universe && h !in marked
    ensures |universe - (marked + {h})| < |universe - marked|
  {
    assert universe - marked == (universe - (marked + {h})) + {h};
  }

  lemma RefsOfOneMore(es: seq<TreeEntry>, i: nat)
    requires i < |es|
    ensures RefsOf(TreeObj(es[..i + 1])) ==
            RefsOf(TreeObj(es[..i])) + if Followed(es[i].kind) then {es[i].target} else {}
  {
    assert es[..i + 1] == es[..i] + [es[i]];
    forall e ensures e in es[..i + 1] <==> e in es[..i] || e == es[i] {
    }
  }

  /** The pushes for one object, entry by entry. */
  method PushRefs(queue: seq<Hash>, o: Object) returns (r: seq<Hash>)
    ensures Elements(r) == Elements(queue) + RefsOf(o)
  {
    r := queue;
    match o {
      case SnapObj(snap) =>
        r := r + [snap.tree] + snap.parents;
      case TreeObj(es) =>
        var i := 0;
        while i < |es|
          invariant 0 <= i <= |es|
          invariant Elements(r) == Elements(queue) + RefsOf(TreeObj(es[..i]))
        {
          RefsOfOneMore(es, i);
          if Followed(es[i].kind) {
            ElementsOfAppend(r, es[i].target);
            r := r + [es[i].target];
          }
          i := i + 1;
        }
        assert es[..i] == es;
      case _ =>
    }
  }

  /** Reading the object does not stop the collection: it succeeds, or the object is missing. */
  predicate Readable(s: Store, h: Hash) {
    Get(s, h).Success? || Get(s, h) == Failure(NotFound)
  }

  /** Visits one unmarked hash. A missing object leads nowhere; any other failure to read stops the
      collection. */
  method Visit(s: Store, ghost roots: set<Hash>, ghost marked: set<Hash>, h: Hash, queue: seq<Hash>)
    returns (r: Result<seq<Hash>, Error>)
    requires Marking(s, roots, marked, {h} + Elements(queue))
    ensures r.Success? <==> Readable(s, h)
    ensures r.Success? ==> Marking(s, roots, marked + {h}, Elements(r.value))
    ensures r.Failure? ==> Get(s, h) == Failure(r.error)
  {
    match Get(s, h)
    case Failure(e) =>
      if e != NotFound {
        return Failure(e);
      }
      MarkingVisitsMissing(s, roots, marked, h, Elements(queue));
      return Success(queue);
    case Success(o) =>
      MarkingVisits(s, roots, marked, h, Elements(queue));
      var pushed := PushRefs(queue, o);
      return Success(pushed);
  }

  /** Drains the worklist, taking the most recently pushed hash first. It terminates because each
      visit either marks a new hash of a finite universe or shortens the worklist. */
  method Mark(s: Store, roots: set<Hash>) returns (r: Result<set<Hash>, Error>)
    ensures r.Success? <==> forall h | h in Marked(s, roots) :: Readable(s, h)
    ensures r.Success? ==> r.value == Marked(s, roots)
  {
    ghost var universe := Universe(s, roots);
    var marked := {};
    var queue := RootsToQueue(roots);
    MarkedIsLeast(s, roots);
    while queue != []
      invariant Marking(s, roots, marked, Elements(queue))
      invariant forall h | h in marked :: Readable(s, h)
      decreases |universe - marked|, |queue|
    {
      var h := queue[|queue| - 1];
      ElementsOfSplit(queue);
      queue := queue[..|queue| - 1];
      if h in marked {
        MarkingSkips(s, roots, marked, h, Elements(queue));
        continue;
      }
      Shrinks(universe, marked, h);
      assert h in Marked(s, roots);
      queue :- Visit(s, roots, marked, h, queue);
      marked := marked + {h};
    }
    MarkingDone(s, roots, marked);
    return Success(marked);
  }

  // --- the sweep ----------------------------------------------------------------------------

  function Sweep(s: Store, marked: set<Hash>): Store {
    map h | h in s && h in marked :: s[h]
  }

  lemma SweepIsRemoval(s: Store, marked: set<Hash>)
    ensures s - (s.Keys - marked) == Sweep(s, marked)
  {
  }

  ghost function PickHash(s: set<Hash>): Hash
    requires s != {}
    ensures PickHash(s) in s
  {
    var h :| h in s;
    h
  }

  /** The total size of the files of a set of objects. */
  ghost function TotalSize(size: Hash -> nat, s: set<Hash>): nat
    decreases |s|
  {
    if s == {} then 0
    else
      var h := PickHash(s);
      size(h) + TotalSize(size, s - {h})
  }

  lemma {:induction false} TotalSizeAdd(size: Hash -> nat, s: set<Hash>, x: Hash)
    requires x !in s
    ensures TotalSize(size, s + {x}) == TotalSize(size, s) + size(x)
    decreases |s|
  {
    var all := s + {x};
    var h := PickHash(all);
    if h == x {
      assert all - {h} == s;
    } else {
      assert all - {h} == (s - {h}) + {x};
      TotalSizeAdd(size, s - {h}, x);
      assert s == (s - {h}) + {h};
      TotalSizeAdd(size, s - {h}, h);
    }
  }

  method CollectLiveRoots(refs: RefTable) returns (roots: set<Hash>)
    ensures roots == LiveRoots(refs)
  {
    roots := {};
    var ids := refs.changes.Keys;
    while ids != {}
      invariant ids <= refs.changes.Keys
      invariant roots == set id, h | id in refs.changes && id !in ids && h in Named(refs.changes[id]) :: h
      decreases |ids|
    {
      var id :| id in ids;
      ghost var next := set x, h | x in refs.changes && x !in ids - {id} && h in Named(refs.changes[x]) :: h;
      assert next == roots + Named(refs.changes[id]);
      ids := ids - {id};
      roots := roots + Named(refs.changes[id]);
    }
  }

  lemma LogRootsStep(ops: seq<Op>, i: nat)
    requires i < |ops|
    ensures LogRoots(ops[..i + 1]) == LogRoots(ops[..i]) + OpRoots(ops[i])
  {
    assert ops[..i + 1] == ops[..i] + [ops[i]];
    assert forall op | op in ops[..i + 1] :: op in ops[..i] || op == ops[i];
    assert forall op | op in ops[..i] :: op in ops[..i + 1];
    assert ops[i] in ops[..i + 1];
  }

  method CollectLogRoots(ops: seq<Op>) returns (roots: set<Hash>)
    ensures roots == LogRoots(ops)
  {
    roots := {};
    var i := 0;
    while i < |ops|
      invariant 0 <= i <= |ops|
      invariant roots == LogRoots(ops[..i])
    {
      LogRootsStep(ops, i);
      roots := roots + OpRoots(ops[i]);
      i := i + 1;
    }
    assert ops[..i] == ops;
  }

  /** Splits the stored hashes into a count of the marked ones and a list of the others. */
  method Partition(s: Store, marked: set<Hash>) returns (kept: nat, toRemove: seq<Hash>)
    ensures kept == |s.Keys * marked|
    ensures forall h :: h in toRemove <==> h in s.Keys - marked
    ensures forall i, j | 0 <= i < j < |toRemove| :: toRemove[i] != toRemove[j]
  {
    kept, toRemove := 0, [];
    var unseen := s.Keys;
    ghost var seen: set<Hash> := {};
    while unseen != {}
      invariant seen + unseen == s.Keys && seen !! unseen
      invariant kept == |seen * marked|
      invariant forall h :: h in toRemove <==> h in seen - marked
      invariant forall i, j | 0 <= i < j < |toRemove| :: toRemove[i] != toRemove[j]
      decreases |unseen|
    {
      var h :| h in unseen;
      unseen := unseen - {h};
      if h in marked {
        assert (seen + {h}) * marked == seen * marked + {h};
        kept := kept + 1;
      } else {
        assert (seen + {h}) * marked == seen * marked;
        assert h !in toRemove;
        toRemove := toRemove + [h];
      }
      seen := seen + {h};
    }
    assert seen == s.Keys;
  }

  lemma RemoveOneMore(s: Store, gone: set<Hash>, h: Hash)
    ensures s - gone - {h} == s - (gone + {h})
  {
  }

  lemma ElementsOfTake(hs: seq<Hash>, i: nat)
    requires i < |hs| && forall j, k | 0 <= j < k < |hs| :: hs[j] != hs[k]
    ensures Elements(hs[..i + 1]) == Elements(hs[..i]) + {hs[i]} && hs[i] !in Elements(hs[..i])
  {
    assert hs[..i + 1] == hs[..i] + [hs[i]];
    ElementsOfAppend(hs[..i], hs[i]);
  }

  /** The objects listed before `i` are removed from `s`, unless it is a dry run, and counted. */
  ghost predicate RemovedUpTo(s: Store, dryRun: bool, hs: seq<Hash>, i: nat, size: Hash -> nat,
                              now: Store, removed: nat, bytesFreed: nat)
    requires i <= |hs|
  {
    var gone := Elements(hs[..i]);
    now == (if dryRun then s else s - gone) && removed == |gone| && bytesFreed == TotalSize(size, gone)
  }

  lemma NoneRemoved(s: Store, dryRun: bool, hs: seq<Hash>, size: Hash -> nat)
    ensures RemovedUpTo(s, dryRun, hs, 0, size, s, 0, 0)
  {
    assert Elements(hs[..0]) == {};
    assert s - {} == s;
  }

  lemma RemovedOneMore(s: Store, dryRun: bool, hs: seq<Hash>, i: nat, size: Hash -> nat,
                       now: Store, removed: nat, bytesFreed: nat)
    requires i < |hs| && forall j, k | 0 <= j < k < |hs| :: hs[j] != hs[k]
    requires RemovedUpTo(s, dryRun, hs, i, size, now, removed, bytesFreed)
    ensures RemovedUpTo(s, dryRun, hs, i + 1, size, if dryRun then now else now - {hs[i]}, removed + 1,
                        bytesFreed + size(hs[i]))
  {
    ElementsOfTake(hs, i);
    TotalSizeAdd(size, Elements(hs[..i]), hs[i]);
    RemoveOneMore(s, Elements(hs[..i]), hs[i]);
  }

  method RemoveAll(objects: ObjectStore, hs: seq<Hash>, dryRun: bool, size: Hash -> nat)
    returns (removed: nat, bytesFreed: nat)
    requires forall i, j | 0 <= i < j < |hs| :: hs[i] != hs[j]
    modifies objects
    ensures objects.files == if dryRun then old(objects.files) else old(objects.files) - Elements(hs)
    ensures removed == |Elements(hs)| && bytesFreed == TotalSize(size, Elements(hs))
  {
    ghost var s := objects.files;
    removed, bytesFreed := 0, 0;
    NoneRemoved(s, dryRun, hs, size);
    for i := 0 to |hs|
      invariant RemovedUpTo(s, dryRun, hs, i, size, objects.files, removed, bytesFreed)
    {
      RemovedOneMore(s, dryRun, hs, i, size, objects.files, removed, bytesFreed);
      if !dryRun {
        objects.Remove(hs[i]);
      }
      removed, bytesFreed := removed + 1, bytesFreed + size(hs[i]);
    }
    assert hs[..|hs|] == hs;
  }

  /** Every stored object is either kept or removed. */
  lemma KeptPlusRemoved(s: Store, m: set<Hash>)
    ensures |s.Keys * m| + |s.Keys - m| == |s|
    ensures Sweep(s, m).Keys == s.Keys * m
  {
    assert s.Keys == s.Keys * m + (s.Keys - m);
  }

  /** The collector. `size` is the size of each object's file. */
  method CollectGarbage(repo: Repository, dryRun: bool, includeOplog: bool, size: Hash -> nat)
    returns (r: Result<GcSummary, Error>)
    modifies repo.objects
    ensures var s := old(repo.objects.files);
            r.Success? <==> forall h | h in Marked(s, RootsOf(old(repo.Abs()), includeOplog)) :: Readable(s, h)
    ensures r.Failure? ==> repo.objects.files == old(repo.objects.files)
    ensures r.Success? ==>
              var s, roots := old(repo.objects.files), RootsOf(old(repo.Abs()), includeOplog);
              var m := Marked(s, roots);
              && repo.objects.files == (if dryRun then s else Sweep(s, m))
              && r.value == GcSummary(|roots|, |s.Keys * m|, |s.Keys - m|, TotalSize(size, s.Keys - m), dryRun)
              && r.value.kept + r.value.removed == |s|
  {
    ghost var s := repo.objects.files;
    var roots := CollectLiveRoots(repo.refs);
    if includeOplog {
      var more := CollectLogRoots(repo.ops);
      roots := roots + more;
    }
    assert roots == RootsOf(repo.Abs(), includeOplog);
    var marked :- Mark(repo.objects.files, roots);
    var kept, toRemove := Partition(repo.objects.files, marked);
    assert Elements(toRemove) == s.Keys - marked;
    var removed, bytesFreed := RemoveAll(repo.objects, toRemove, dryRun, size);
    SweepIsRemoval(s, marked);
    KeptPlusRemoved(s, marked);
    return Success(GcSummary(|roots|, kept, removed, bytesFreed, dryRun));
  }

  // --- what the sweep keeps -----------------------------------------------------------------

  /** A second collection with the same roots finds nothing to remove. */
  lemma SecondSweepRemovesNothing(s: Store, roots: set<Hash>)
    ensures var swept := Sweep(s, Marked(s, roots));
            && swept.Keys - Marked(swept, roots) == {}
            && Sweep(swept, Marked(swept, roots)) == swept
  {
    var m := Marked(s, roots);
    var swept := Sweep(s, m);
    MarkedIsLeast(s, roots);
    MarkedIsLeast(swept, roots);
    var both := m * Marked(swept, roots);
    forall h | h in both ensures Edges(s, h) <= both {
      assert h in s ==> Edges(swept, h) == Edges(s, h);
    }
    assert Closed(s, both);
    assert m <= both;
  }

  /** Whatever a marked hash reached before the sweep it still reaches afterwards. */
  lemma {:induction false} SweepKeepsComplete(s: Store, m: set<Hash>, h: Hash)
    requires Closed(s, m) && h in m && Complete(s, h)
    ensures Complete(Sweep(s, m), h)
    decreases h
  {
    match h.obj
    case SnapObj(snap) =>
      assert Edges(s, h) == {snap.tree} + Elements(snap.parents);
      SweepKeepsComplete(s, m, snap.tree);
      forall p | p in snap.parents ensures Complete(Sweep(s, m), p) {
        assert p in Edges(s, h);
        SweepKeepsComplete(s, m, p);
      }
    case TreeObj(es) =>
      forall e | e in es && Followed(e.kind) ensures Complete(Sweep(s, m), e.target) {
        assert e.target in Edges(s, h);
        SweepKeepsComplete(s, m, e.target);
      }
    case _ =>
  }

  /** Every symlink below `h` leads to a marked blob. */
  ghost predicate SymlinksMarked(h: Hash, m: set<Hash>)
    requires h.Of?
    decreases h
  {
    match h.obj
    case SnapObj(snap) =>
      && snap.tree.Of? && SymlinksMarked(snap.tree, m)
      && forall p | p in snap.parents :: p.Of? && SymlinksMarked(p, m)
    case TreeObj(es) =>
      forall e | e in es && !e.kind.SubmoduleKind? ::
        && e.target.Of? && SymlinksMarked(e.target, m)
        && (e.kind.SymlinkKind? ==> e.target in m)
    case _ => true
  }

  /** The collector does not follow symlinks, although their targets are stored as blobs. A marked
      object that was stored with all its content still is exactly when every symlink below it
      happens to lead to a blob marked for another reason. */
  lemma {:induction false} SweepKeepsContentIff(s: Store, m: set<Hash>, h: Hash)
    requires Closed(s, m) && h in m && FullyStored(s, h)
    ensures FullyStored(Sweep(s, m), h) <==> SymlinksMarked(h, m)
    decreases h
  {
    match h.obj
    case SnapObj(snap) =>
      assert Edges(s, h) == {snap.tree} + Elements(snap.parents);
      SweepKeepsContentIff(s, m, snap.tree);
      forall p | p in snap.parents
        ensures p.Of? && (FullyStored(Sweep(s, m), p) <==> SymlinksMarked(p, m))
      {
        assert p in Edges(s, h);
        SweepKeepsContentIff(s, m, p);
      }
    case TreeObj(es) =>
      forall e | e in es && !e.kind.SubmoduleKind?
        ensures e.target.Of?
        ensures FullyStored(Sweep(s, m), e.target)
                <==> SymlinksMarked(e.target, m) && (e.kind.SymlinkKind? ==> e.target in m)
      {
        if Followed(e.kind) {
            assert e.target in Edges(s, h);
        }
        if e.target in m {
          SweepKeepsContentIff(s, m, e.target);
        }
      }
    case _ =>
  }

  /** A tree holding a single symlink loses the blob with the symlink's target. */
  lemma SymlinkTargetIsSwept()
    ensures exists s: Store, root: Hash ::
              && Honest(s) && FullyStored(s, root) && IsSnap(root)
              && !FullyStored(Sweep(s, Marked(s, {root})), root)
  {
    var blob := BlobObj([1]);
    var link := TreeEntry([97], SymlinkKind, Of(blob), SYMLINK, None);
    var tree := TreeObj([link]);
    var snap := SnapObj(Snapshot([], Of(tree), [], 0, None));
    var root := Of(snap);
    var s: Store := map[Of(blob) := blob, Of(tree) := tree, root := snap];
    var m := {root, Of(tree)};
    assert RefsOf(tree) == {} && RefsOf(snap) == {Of(tree)};
    assert Closed(s, m);
    MarkedIsLeast(s, {root});
    var swept := Sweep(s, Marked(s, {root}));
    assert Of(blob) !in m && Of(blob) !in swept;
    assert link in tree.entries;
    assert !FullyStored(swept, Of(tree));
    assert !FullyStored(swept, root);
    assert FullyStored(s, Of(blob));
    assert FullyStored(s, Of(tree));
    assert snap.snap.tree == Of(tree) && snap.snap.parents == [];
    assert FullyStored(s, root);
    assert IsSnap(root);
    assert Honest(s);
  }
}
