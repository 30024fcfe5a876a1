/** Comparing two trees: a walk of both in lockstep that prunes equal hashes and reports one change
    per path. Hunks are added when a change is emitted, in `DiffWalk`.

    Stored trees are read as maps in which a later entry overrides an earlier one of the same name,
    so nothing here needs them to be sorted. */
module Diff {
  import opened Wrappers
  import opened Lex
  import opened Objects
  import opened Trees
  import opened TreeAlgebra

  datatype ChangeKind = Added | Removed | Modified | TypeChanged(was: EntryKind, now: EntryKind)

  datatype FileDiff = FileDiff(path: Path, kind: ChangeKind, entryKind: EntryKind,
                               fromTarget: Option<Hash>, toTarget: Option<Hash>)

  // --- trees as maps ------------------------------------------------------------------------

  function EntriesOf(h: Hash): seq<TreeEntry> {
    if IsTree(h) then h.obj.entries else []
  }

  function OptionalEntries(h: Option<Hash>): seq<TreeEntry> {
    if h.Some? then EntriesOf(h.value) else []
  }

  function Sub(e: TreeEntry): seq<TreeEntry> {
    EntriesOf(e.target)
  }

  /** The number of entries at all levels. */
  function Size(es: seq<TreeEntry>): nat
    decreases es, 1
  {
    if es == [] then 0 else SizeOfEntry(es[0]) + Size(es[1..])
  }

  function SizeOfEntry(e: TreeEntry): nat
    decreases e, 0
  {
    if IsTree(e.target) then 1 + Size(e.target.obj.entries) else 1
  }

  /** The entry that survives collecting the list into a map. */
  function Last(es: seq<TreeEntry>, n: Text): (r: Option<TreeEntry>)
    ensures r.Some? ==> r.value in es && r.value.name == n && Size(Sub(r.value)) < Size(es)
    ensures r.None? <==> n !in AllNames(es)
  {
    if es == [] then None
    else
      assert AllNames(es) == [es[0].name] + AllNames(es[1..]);
      var later := Last(es[1..], n);
      if later.Some? then later
      else if es[0].name == n then Some(es[0])
      else None
  }

  function AllNames(es: seq<TreeEntry>): seq<Text> {
    seq(|es|, i requires 0 <= i < |es| => es[i].name)
  }

  lemma LastIsFind(es: seq<TreeEntry>, n: Text)
    requires Sorted(es)
    ensures Last(es, n) == Find(es, n)
  {
    if Last(es, n).Some? {
      FindMember(es, Last(es, n).value);
    }
    if Find(es, n).Some? {
      var i :| 0 <= i < |es| && es[i] == Find(es, n).value;
      assert AllNames(es)[i] == n;
    }
  }

  /** The names of both sides, each once, in order. */
  function UnionNames(f: seq<TreeEntry>, t: seq<TreeEntry>): seq<Text> {
    Dedup(Sorting.SortBy(Sorting.Itself, AllNames(f) + AllNames(t)))
  }

  function Dedup(ns: seq<Text>): seq<Text> {
    if |ns| <= 1 then ns
    else if ns[0] == ns[1] then Dedup(ns[1..])
    else [ns[0]] + Dedup(ns[1..])
  }

  lemma {:induction false} DedupAscends(ns: seq<Text>)
    requires Sorting.SortedBy(Sorting.Itself, ns)
    ensures Ascending(Dedup(ns)) && forall n :: n in Dedup(ns) <==> n in ns
  {
    if |ns| > 1 {
      var rest := Dedup(ns[1..]);
      DedupAscends(ns[1..]);
      assert ns == [ns[0]] + ns[1..];
      if ns[0] == ns[1] {
        assert ns[1] in ns[1..];
      } else {
        forall j | 0 <= j < |rest| ensures Less(ns[0], rest[j]) {
          assert rest[j] in ns[1..];
          var k :| 0 < k < |ns| && ns[k] == rest[j];
          assert !Less(Sorting.Itself(ns[k]), Sorting.Itself(ns[0])) && !Less(Sorting.Itself(ns[1]), Sorting.Itself(ns[0]));
          Trichotomy(ns[0], ns[1]);
          if k > 1 {
            assert !Less(Sorting.Itself(ns[k]), Sorting.Itself(ns[1]));
            Trichotomy(ns[1], ns[k]);
            if ns[1] != ns[k] { Transitive(ns[0], ns[1], ns[k]); }
          }
        }
      }
    }
  }

  lemma UnionNamesAscend(f: seq<TreeEntry>, t: seq<TreeEntry>)
    ensures Ascending(UnionNames(f, t))
    ensures forall n :: n in UnionNames(f, t) <==> n in AllNames(f) || n in AllNames(t)
  {
    var all := AllNames(f) + AllNames(t);
    var sorted := Sorting.SortBy(Sorting.Itself, all);
    Sorting.SortBySorted(Sorting.Itself, all);
    DedupAscends(sorted);
    forall n ensures n in sorted <==> n in all {
      assert n in multiset(sorted) <==> n in multiset(all);
    }
  }

  // --- the change list ----------------------------------------------------------------------

  function Beneath(prefix: Path, ds: seq<FileDiff>): (r: seq<FileDiff>)
    ensures |r| == |ds| && forall i | 0 <= i < |ds| :: r[i] == ds[i].(path := prefix + ds[i].path)
  {
    seq(|ds|, i requires 0 <= i < |ds| => ds[i].(path := prefix + ds[i].path))
  }

  function DiffEntries(f: seq<TreeEntry>, t: seq<TreeEntry>): (r: seq<FileDiff>)
    ensures forall d | d in r :: d.path != []
    decreases Size(f) + Size(t), 2
  {
    DiffNames(f, t, UnionNames(f, t))
  }

  function DiffNames(f: seq<TreeEntry>, t: seq<TreeEntry>, names: seq<Text>): (r: seq<FileDiff>)
    ensures forall d | d in r :: d.path != [] && d.path[0] in names
    decreases Size(f) + Size(t), 1, |names|
  {
    if names == [] then [] else DiffName(f, t, names[0]) + DiffNames(f, t, names[1..])
  }

  function DiffName(f: seq<TreeEntry>, t: seq<TreeEntry>, n: Text): (r: seq<FileDiff>)
    ensures forall d | d in r :: d.path != [] && d.path[0] == n
    decreases Size(f) + Size(t), 0
  {
    match (Last(f, n), Last(t, n))
    case (Some(a), Some(b)) =>
      if a.target == b.target && a.kind == b.kind then []
      else if a.kind.TreeKind? && b.kind.TreeKind? then Beneath([n], DiffEntries(Sub(a), Sub(b)))
      else if a.kind != b.kind then
        [FileDiff([n], TypeChanged(a.kind, b.kind), b.kind, Some(a.target), Some(b.target))]
      else [FileDiff([n], Modified, b.kind, Some(a.target), Some(b.target))]
    case (Some(a), None) =>
      if a.kind.TreeKind? then Beneath([n], DiffEntries(Sub(a), []))
      else [FileDiff([n], Removed, a.kind, Some(a.target), None)]
    case (None, Some(b)) =>
      if b.kind.TreeKind? then Beneath([n], DiffEntries([], Sub(b)))
      else [FileDiff([n], Added, b.kind, None, Some(b.target))]
    case (None, None) => []
  }

  // --- applying a change list ---------------------------------------------------------------

  datatype Content = Content(kind: EntryKind, target: Hash)

  /** The leaf at a path: its kind and target, for anything that is not a directory. */
  function LeafAt(es: seq<TreeEntry>, p: Path): Option<Content>
    decreases |p|
  {
    if p == [] then None
    else
      match Last(es, p[0])
      case None => None
      case Some(e) =>
        if e.kind.TreeKind? then LeafAt(Sub(e), p[1..])
        else if |p| == 1 then Some(Content(e.kind, e.target))
        else None
  }

  /** What one change does to the leaf at `p`. A change of type replaces all that lies at and below
      its path. */
  function ApplyAt(d: FileDiff, p: Path, v: Option<Content>): Option<Content> {
    match d.kind
    case TypeChanged(_, now) =>
      if !(d.path <= p) then v
      else if now.TreeKind? then LeafAt(OptionalEntries(d.toTarget), p[|d.path|..])
      else if p == d.path && d.toTarget.Some? then Some(Content(now, d.toTarget.value))
      else None
    case Removed => if p == d.path then None else v
    case _ => if p == d.path && d.toTarget.Some? then Some(Content(d.entryKind, d.toTarget.value)) else v
  }

  function ApplyAll(ds: seq<FileDiff>, p: Path, v: Option<Content>): Option<Content> {
    if ds == [] then v else ApplyAll(ds[1..], p, ApplyAt(ds[0], p, v))
  }

  lemma {:induction false} ApplyAppend(a: seq<FileDiff>, b: seq<FileDiff>, p: Path, v: Option<Content>)
    ensures ApplyAll(a + b, p, v) == ApplyAll(b, p, ApplyAll(a, p, v))
  {
    if a == [] {
      assert a + b == b;
    } else {
      assert (a + b)[1..] == a[1..] + b;
      ApplyAppend(a[1..], b, p, ApplyAt(a[0], p, v));
    }
  }

  lemma {:induction false} ApplyElsewhere(ds: seq<FileDiff>, p: Path, v: Option<Content>)
    requires forall d | d in ds :: d.path != [] && (p == [] || d.path[0] != p[0])
    ensures ApplyAll(ds, p, v) == v
  {
    if ds != [] {
      assert ds[0] in ds;
      ApplyElsewhere(ds[1..], p, v);
    }
  }

  lemma ApplyBeneath1(n: Text, d: FileDiff, q: Path, v: Option<Content>)
    ensures ApplyAt(d.(path := [n] + d.path), [n] + q, v) == ApplyAt(d, q, v)
  {
    TailsCompare([n] + d.path, [n] + q);
    assert ([n] + d.path)[1..] == d.path && ([n] + q)[1..] == q;
    if d.path <= q {
      assert ([n] + q)[|d.path| + 1..] == q[|d.path|..];
    }
  }

  lemma {:induction false} ApplyBeneath(n: Text, ds: seq<FileDiff>, q: Path, v: Option<Content>)
    ensures ApplyAll(Beneath([n], ds), [n] + q, v) == ApplyAll(ds, q, v)
  {
    if ds != [] {
      assert Beneath([n], ds)[1..] == Beneath([n], ds[1..]);
      ApplyBeneath1(n, ds[0], q, v);
      ApplyBeneath(n, ds[1..], q, ApplyAt(ds[0], q, v));
    }
  }

  lemma {:induction false} ApplyNames(f: seq<TreeEntry>, t: seq<TreeEntry>, names: seq<Text>, p: Path, v: Option<Content>)
    requires Ascending(names) && p != []
    ensures ApplyAll(DiffNames(f, t, names), p, v)
            == if p[0] in names then ApplyAll(DiffName(f, t, p[0]), p, v) else v
    decreases |names|
  {
    if names != [] {
      var n := names[0];
      ApplyAppend(DiffName(f, t, n), DiffNames(f, t, names[1..]), p, v);
      if n == p[0] {
        if n in names[1..] {
          Asymmetric(n, n);
        }
        ApplyElsewhere(DiffNames(f, t, names[1..]), p, ApplyAll(DiffName(f, t, n), p, v));
      } else {
        ApplyElsewhere(DiffName(f, t, n), p, v);
        ApplyNames(f, t, names[1..], p, v);
      }
    }
  }

  /** Applying the change list to the leaves of the old tree gives the leaves of the new one, at every
      path: pruning on hashes hides no difference. */
  lemma {:induction false} DiffTransforms(f: seq<TreeEntry>, t: seq<TreeEntry>, p: Path)
    ensures ApplyAll(DiffEntries(f, t), p, LeafAt(f, p)) == LeafAt(t, p)
    decreases Size(f) + Size(t), 1
  {
    if p == [] {
      ApplyElsewhere(DiffEntries(f, t), p, None);
    } else {
      OneNameApplies(f, t, p, LeafAt(f, p));
      NameTransforms(f, t, p);
    }
  }

  lemma OneNameApplies(f: seq<TreeEntry>, t: seq<TreeEntry>, p: Path, v: Option<Content>)
    requires p != []
    ensures ApplyAll(DiffEntries(f, t), p, v) == ApplyAll(DiffName(f, t, p[0]), p, v)
  {
    UnionNamesAscend(f, t);
    ApplyNames(f, t, UnionNames(f, t), p, v);
    if p[0] !in UnionNames(f, t) {
      assert Last(f, p[0]).None? && Last(t, p[0]).None?;
    }
  }

  lemma {:induction false} NameTransforms(f: seq<TreeEntry>, t: seq<TreeEntry>, p: Path)
    requires p != []
    ensures ApplyAll(DiffName(f, t, p[0]), p, LeafAt(f, p)) == LeafAt(t, p)
    decreases Size(f) + Size(t), 0
  {
    var n, q := p[0], p[1..];
    var x, y := Last(f, n), Last(t, n);
    if IsTreeOrNone(x) && IsTreeOrNone(y) {
      if x != y && !(x.Some? && y.Some? && x.value.target == y.value.target) {
        var a, b := SubOrEmpty(x), SubOrEmpty(y);
        assert p == [n] + q;
        assert DiffName(f, t, n) == Beneath([n], DiffEntries(a, b));
        LeafBelow(f, p);
        LeafBelow(t, p);
        ApplyBeneath(n, DiffEntries(a, b), q, LeafAt(a, q));
        DiffTransforms(a, b, q);
      }
    } else {
      EntryTransforms(f, t, p);
    }
  }

  lemma LeafBelow(es: seq<TreeEntry>, p: Path)
    requires p != [] && IsTreeOrNone(Last(es, p[0]))
    ensures LeafAt(es, p) == LeafAt(SubOrEmpty(Last(es, p[0])), p[1..])
  {
  }

  /** A change that is reported for one name replaces the leaves at and below it. */
  lemma EntryTransforms(f: seq<TreeEntry>, t: seq<TreeEntry>, p: Path)
    requires p != [] && !(IsTreeOrNone(Last(f, p[0])) && IsTreeOrNone(Last(t, p[0])))
    ensures ApplyAll(DiffName(f, t, p[0]), p, LeafAt(f, p)) == LeafAt(t, p)
  {
    var ds := DiffName(f, t, p[0]);
    assert [p[0]] <= p && (|p| == 1 <==> p == [p[0]]);
    if |ds| == 1 {
      assert ApplyAll(ds, p, LeafAt(f, p)) == ApplyAt(ds[0], p, LeafAt(f, p));
    }
  }

  predicate IsTreeOrNone(e: Option<TreeEntry>) {
    e.Some? ==> e.value.kind.TreeKind?
  }

  function SubOrEmpty(e: Option<TreeEntry>): seq<TreeEntry> {
    if e.Some? then Sub(e.value) else []
  }

  // --- exactly which changes are reported ---------------------------------------------------

  /** The entry at a path. */
  function NodeAt(es: seq<TreeEntry>, p: Path): Option<TreeEntry>
    requires p != []
    decreases |p|
  {
    match Last(es, p[0])
    case None => None
    case Some(e) =>
      if |p| == 1 then Some(e)
      else if e.kind.TreeKind? then NodeAt(Sub(e), p[1..])
      else None
  }

  /** The change between what a path named before and what it names now, if a change list has to
      mention it. Modes and visibility tags do not count, nor do directories as such. */
  function Change(p: Path, x: Option<TreeEntry>, y: Option<TreeEntry>): Option<FileDiff> {
    if IsTreeOrNone(x) && IsTreeOrNone(y) then None
    else if x.None? then Some(FileDiff(p, Added, y.value.kind, None, Some(y.value.target)))
    else if y.None? then Some(FileDiff(p, Removed, x.value.kind, Some(x.value.target), None))
    else if x.value.kind != y.value.kind then
      Some(FileDiff(p, TypeChanged(x.value.kind, y.value.kind), y.value.kind, Some(x.value.target), Some(y.value.target)))
    else if x.value.target != y.value.target then
      Some(FileDiff(p, Modified, y.value.kind, Some(x.value.target), Some(y.value.target)))
    else None
  }

  predicate KindsClash(x: Option<TreeEntry>, y: Option<TreeEntry>) {
    x.Some? && y.Some? && x.value.kind != y.value.kind
  }

  /** No proper ancestor changes its type, which would swallow the changes below it. */
  predicate Exposed(f: seq<TreeEntry>, t: seq<TreeEntry>, p: Path) {
    forall k | 0 < k < |p| :: !KindsClash(NodeAt(f, p[..k]), NodeAt(t, p[..k]))
  }

  lemma {:induction false} InDiffNames(f: seq<TreeEntry>, t: seq<TreeEntry>, names: seq<Text>, d: FileDiff)
    ensures d in DiffNames(f, t, names) <==> d.path != [] && d.path[0] in names && d in DiffName(f, t, d.path[0])
    decreases |names|
  {
    if names != [] {
      InDiffNames(f, t, names[1..], d);
      assert d in DiffNames(f, t, names) <==> d in DiffName(f, t, names[0]) || d in DiffNames(f, t, names[1..]);
    }
  }

  lemma InDiffName(f: seq<TreeEntry>, t: seq<TreeEntry>, d: FileDiff)
    requires d.path != []
    ensures d in DiffEntries(f, t) <==> d in DiffName(f, t, d.path[0])
  {
    UnionNamesAscend(f, t);
    InDiffNames(f, t, UnionNames(f, t), d);
    if d.path[0] !in UnionNames(f, t) {
      assert Last(f, d.path[0]).None? && Last(t, d.path[0]).None?;
    }
  }

  lemma InBeneath(n: Text, ds: seq<FileDiff>, d: FileDiff)
    requires d.path != [] && d.path[0] == n
    ensures d in Beneath([n], ds) <==> d.(path := d.path[1..]) in ds
  {
    var tail := d.(path := d.path[1..]);
    assert d.path == [n] + tail.path;
    if tail in ds {
      var i :| 0 <= i < |ds| && ds[i] == tail;
      assert Beneath([n], ds)[i] == d;
    }
    if d in Beneath([n], ds) {
      var i :| 0 <= i < |ds| && Beneath([n], ds)[i] == d;
      assert ([n] + ds[i].path)[1..] == ds[i].path;
      assert ds[i] == tail;
    }
  }

  lemma ExposedBelow(f: seq<TreeEntry>, t: seq<TreeEntry>, p: Path)
    requires |p| > 1
    requires IsTreeOrNone(Last(f, p[0])) && IsTreeOrNone(Last(t, p[0]))
    ensures Exposed(f, t, p) <==> Exposed(SubOrEmpty(Last(f, p[0])), SubOrEmpty(Last(t, p[0])), p[1..])
  {
    var a, b, q := SubOrEmpty(Last(f, p[0])), SubOrEmpty(Last(t, p[0])), p[1..];
    forall k | 0 < k < |q|
      ensures NodeAt(f, p[..k + 1]) == NodeAt(a, q[..k]) && NodeAt(t, p[..k + 1]) == NodeAt(b, q[..k])
    {
      assert p[..k + 1][1..] == q[..k];
    }
    if Exposed(f, t, p) {
      forall k | 0 < k < |q| ensures !KindsClash(NodeAt(a, q[..k]), NodeAt(b, q[..k])) {
        assert !KindsClash(NodeAt(f, p[..k + 1]), NodeAt(t, p[..k + 1]));
      }
    } else {
      var k :| 0 < k < |p| && KindsClash(NodeAt(f, p[..k]), NodeAt(t, p[..k]));
      assert k != 1;
      assert KindsClash(NodeAt(a, q[..k - 1]), NodeAt(b, q[..k - 1]));
    }
  }

  /** A change is reported exactly when it is what happened at its path and no ancestor of that path
      changed its type. */
  lemma {:induction false} DiffReportsIff(f: seq<TreeEntry>, t: seq<TreeEntry>, d: FileDiff)
    ensures d in DiffEntries(f, t)
            <==> && d.path != []
                 && Change(d.path, NodeAt(f, d.path), NodeAt(t, d.path)) == Some(d)
                 && Exposed(f, t, d.path)
    decreases Size(f) + Size(t), 1
  {
    if d.path != [] {
      InDiffName(f, t, d);
      NameReportsIff(f, t, d);
    }
  }

  lemma {:induction false} NameReportsIff(f: seq<TreeEntry>, t: seq<TreeEntry>, d: FileDiff)
    requires d.path != []
    ensures d in DiffName(f, t, d.path[0])
            <==> && Change(d.path, NodeAt(f, d.path), NodeAt(t, d.path)) == Some(d)
                 && Exposed(f, t, d.path)
    decreases Size(f) + Size(t), 0
  {
    var p, n := d.path, d.path[0];
    var x, y := Last(f, n), Last(t, n);
    if IsTreeOrNone(x) && IsTreeOrNone(y) {
      if x == y || (x.Some? && y.Some? && x.value.target == y.value.target) {
        assert DiffName(f, t, n) == [];
        SameSubtreeReportsNothing(f, t, p);
      } else {
        assert DiffName(f, t, n) == Beneath([n], DiffEntries(SubOrEmpty(x), SubOrEmpty(y)));
        InBeneath(n, DiffEntries(SubOrEmpty(x), SubOrEmpty(y)), d);
        if |p| > 1 {
          DiffReportsIff(SubOrEmpty(x), SubOrEmpty(y), d.(path := p[1..]));
          ReportedBelow(f, t, d);
        }
      }
    } else {
      EntryReportsIff(f, t, d);
    }
  }

  /** Whether a change is to be reported depends on the sub-trees alone. */
  lemma ReportedBelow(f: seq<TreeEntry>, t: seq<TreeEntry>, d: FileDiff)
    requires |d.path| > 1 && IsTreeOrNone(Last(f, d.path[0])) && IsTreeOrNone(Last(t, d.path[0]))
    ensures var a, b, q := SubOrEmpty(Last(f, d.path[0])), SubOrEmpty(Last(t, d.path[0])), d.path[1..];
            && (Change(d.path, NodeAt(f, d.path), NodeAt(t, d.path)) == Some(d)
                <==> Change(q, NodeAt(a, q), NodeAt(b, q)) == Some(d.(path := q)))
            && (Exposed(f, t, d.path) <==> Exposed(a, b, q))
  {
    NodeBelow(f, d.path);
    NodeBelow(t, d.path);
    ExposedBelow(f, t, d.path);
    ChangePath(d, d.path[1..], NodeAt(f, d.path), NodeAt(t, d.path));
  }

  lemma ChangePath(d: FileDiff, q: Path, x: Option<TreeEntry>, y: Option<TreeEntry>)
    ensures Change(d.path, x, y) == Some(d) <==> Change(q, x, y) == Some(d.(path := q))
  {
  }

  lemma NodeBelow(es: seq<TreeEntry>, p: Path)
    requires |p| > 1 && IsTreeOrNone(Last(es, p[0]))
    ensures NodeAt(es, p) == NodeAt(SubOrEmpty(Last(es, p[0])), p[1..])
  {
  }

  lemma SameSubtreeReportsNothing(f: seq<TreeEntry>, t: seq<TreeEntry>, p: Path)
    requires p != [] && IsTreeOrNone(Last(f, p[0])) && IsTreeOrNone(Last(t, p[0]))
    requires SubOrEmpty(Last(f, p[0])) == SubOrEmpty(Last(t, p[0]))
    ensures Change(p, NodeAt(f, p), NodeAt(t, p)) == None
  {
    if |p| > 1 {
      NodeBelow(f, p);
      NodeBelow(t, p);
    }
  }

  lemma EntryReportsIff(f: seq<TreeEntry>, t: seq<TreeEntry>, d: FileDiff)
    requires d.path != [] && !(IsTreeOrNone(Last(f, d.path[0])) && IsTreeOrNone(Last(t, d.path[0])))
    ensures d in DiffName(f, t, d.path[0])
            <==> && Change(d.path, NodeAt(f, d.path), NodeAt(t, d.path)) == Some(d)
                 && Exposed(f, t, d.path)
  {
    if |d.path| == 1 {
      assert d.path == [d.path[0]];
    } else {
      OneEntryDecides(f, t, d.path);
    }
  }

  /** Below a path where one side has a leaf, either both sides have nothing or the types clash. */
  lemma OneEntryDecides(f: seq<TreeEntry>, t: seq<TreeEntry>, p: Path)
    requires |p| > 1 && !(IsTreeOrNone(Last(f, p[0])) && IsTreeOrNone(Last(t, p[0])))
    ensures (NodeAt(f, p).None? && NodeAt(t, p).None?) || !Exposed(f, t, p)
  {
    assert NodeAt(f, p[..1]) == Last(f, p[0]) && NodeAt(t, p[..1]) == Last(t, p[0]);
    if KindsClash(Last(f, p[0]), Last(t, p[0])) {
      assert KindsClash(NodeAt(f, p[..1]), NodeAt(t, p[..1]));
    }
  }

  // --- order --------------------------------------------------------------------------------

  /** Strictly increasing by components, and no path below another. */
  predicate InOrder(ds: seq<FileDiff>) {
    forall i, j | 0 <= i < j < |ds| ::
      PathLess(ds[i].path, ds[j].path) && Incomparable(ds[i].path, ds[j].path)
  }

  lemma BeneathInOrder(n: Text, ds: seq<FileDiff>)
    requires InOrder(ds)
    ensures InOrder(Beneath([n], ds))
  {
    forall i, j | 0 <= i < j < |ds|
      ensures PathLess([n] + ds[i].path, [n] + ds[j].path) && Incomparable([n] + ds[i].path, [n] + ds[j].path)
    {
      var a, b := ds[i].path, ds[j].path;
      assert ([n] + a)[1..] == a && ([n] + b)[1..] == b;
      TailsCompare([n] + a, [n] + b);
    }
  }

  lemma {:induction false} DiffInOrder(f: seq<TreeEntry>, t: seq<TreeEntry>)
    ensures InOrder(DiffEntries(f, t))
    decreases Size(f) + Size(t), 2
  {
    UnionNamesAscend(f, t);
    NamesInOrder(f, t, UnionNames(f, t));
  }

  lemma {:induction false} NamesInOrder(f: seq<TreeEntry>, t: seq<TreeEntry>, names: seq<Text>)
    requires Ascending(names)
    ensures InOrder(DiffNames(f, t, names))
    decreases Size(f) + Size(t), 1, |names|
  {
    if names != [] {
      NameInOrder(f, t, names[0]);
      NamesInOrder(f, t, names[1..]);
      var first, rest := DiffName(f, t, names[0]), DiffNames(f, t, names[1..]);
      forall i, j | 0 <= i < |first| && 0 <= j < |rest|
        ensures PathLess(first[i].path, rest[j].path) && Incomparable(first[i].path, rest[j].path)
      {
        assert first[i] in first && rest[j] in rest;
        Asymmetric(names[0], rest[j].path[0]);
      }
    }
  }

  lemma {:induction false} NameInOrder(f: seq<TreeEntry>, t: seq<TreeEntry>, n: Text)
    ensures InOrder(DiffName(f, t, n))
    decreases Size(f) + Size(t), 0
  {
    var x, y := Last(f, n), Last(t, n);
    if IsTreeOrNone(x) && IsTreeOrNone(y) && (x.Some? || y.Some?) {
      var a, b := SubOrEmpty(x), SubOrEmpty(y);
      if !(x.Some? && y.Some? && x.value.target == y.value.target) {
        DiffInOrder(a, b);
        BeneathInOrder(n, DiffEntries(a, b));
      }
    }
  }

  lemma {:induction false} LeafIsNode(es: seq<TreeEntry>, p: Path)
    requires p != []
    ensures LeafAt(es, p) == match NodeAt(es, p)
                             case None => None
                             case Some(e) => if e.kind.TreeKind? then None else Some(Content(e.kind, e.target))
    decreases |p|
  {
    if |p| > 1 && Last(es, p[0]).Some? && Last(es, p[0]).value.kind.TreeKind? {
      LeafIsNode(Sub(Last(es, p[0]).value), p[1..]);
    }
  }

  /** Nothing is reported exactly when the two trees hold the same leaves. */
  lemma DiffEmptyIff(f: seq<TreeEntry>, t: seq<TreeEntry>)
    ensures DiffEntries(f, t) == [] <==> forall p :: LeafAt(f, p) == LeafAt(t, p)
  {
    var ds := DiffEntries(f, t);
    if ds == [] {
      forall p ensures LeafAt(f, p) == LeafAt(t, p) {
        DiffTransforms(f, t, p);
      }
    } else {
      DiffReportsIff(f, t, ds[0]);
      var p := ds[0].path;
      LeafIsNode(f, p);
      LeafIsNode(t, p);
      assert LeafAt(f, p) != LeafAt(t, p);
    }
  }

  lemma SelfDiffIsEmpty(es: seq<TreeEntry>)
    ensures DiffEntries(es, es) == []
  {
    DiffEmptyIff(es, es);
  }
}
