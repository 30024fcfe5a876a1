/** The comparison as it runs: fetching trees from the store, with a filter on textual paths. */
module DiffWalk {
  import opened Wrappers
  import opened Lex
  import opened Objects
  import opened Trees
  import opened TreeAlgebra
  import opened TreeEdit
  import opened LineCuts
  import opened Diff

  // --- the path filter ----------------------------------------------------------------------

  /** A path passes when it starts with a filter or a filter starts with it. */
  predicate Passes(paths: seq<Text>, t: Text) {
    paths == [] || exists p | p in paths :: p <= t || t <= p
  }

  function Kept(paths: seq<Text>, ds: seq<FileDiff>): seq<FileDiff> {
    if ds == [] then []
    else (if Passes(paths, Join(ds[0].path)) then [ds[0]] else []) + Kept(paths, ds[1..])
  }

  /** Every textual prefix of a passing path passes, so no passing path lies below a failing one. */
  lemma PrefixPasses(paths: seq<Text>, t: Text, u: Text)
    requires t <= u && Passes(paths, u)
    ensures Passes(paths, t)
  {
    if paths != [] {
      var p :| p in paths && (p <= u || u <= p);
      if p <= u {
        assert p == u[..|p|] && t == u[..|t|];
      }
    }
  }

  lemma {:induction false} NothingKeptBelow(paths: seq<Text>, prefix: Path, ds: seq<FileDiff>)
    requires !Passes(paths, Join(prefix)) && forall d | d in ds :: prefix <= d.path
    ensures Kept(paths, ds) == []
  {
    if ds != [] {
      assert ds[0] in ds;
      JoinPrefix(prefix, ds[0].path);
      if Passes(paths, Join(ds[0].path)) {
        PrefixPasses(paths, Join(prefix), Join(ds[0].path));
      }
      NothingKeptBelow(paths, prefix, ds[1..]);
    }
  }

  lemma Regroup(a: seq<FileDiff>, b: seq<FileDiff>, c: seq<FileDiff>)
    ensures a + (b + c) == a + b + c
  {
  }

  lemma {:induction false} KeptAppend(paths: seq<Text>, a: seq<FileDiff>, b: seq<FileDiff>)
    ensures Kept(paths, a + b) == Kept(paths, a) + Kept(paths, b)
  {
    if a == [] {
      assert a + b == b;
    } else {
      var head := if Passes(paths, Join(a[0].path)) then [a[0]] else [];
      assert (a + b)[0] == a[0] && (a + b)[1..] == a[1..] + b;
      KeptAppend(paths, a[1..], b);
      Regroup(head, Kept(paths, a[1..]), Kept(paths, b));
    }
  }

  lemma BeneathTwice(prefix: Path, n: Text, ds: seq<FileDiff>)
    ensures Beneath(prefix, Beneath([n], ds)) == Beneath(prefix + [n], ds)
  {
    forall i | 0 <= i < |ds| ensures prefix + ([n] + ds[i].path) == prefix + [n] + ds[i].path {
    }
  }

  lemma BeneathRoot(ds: seq<FileDiff>)
    ensures Beneath([], ds) == ds
  {
    forall i | 0 <= i < |ds| ensures Beneath([], ds)[i] == ds[i] {
      assert [] + ds[i].path == ds[i].path;
    }
  }

  // --- the walk -----------------------------------------------------------------------------

  /** What the walk adds for one name, and for the rest of a list of names. */
  ghost function KeptName(f: seq<TreeEntry>, t: seq<TreeEntry>, n: Text, prefix: Path, paths: seq<Text>): seq<FileDiff> {
    Kept(paths, Beneath(prefix, DiffName(f, t, n)))
  }

  ghost function KeptNames(f: seq<TreeEntry>, t: seq<TreeEntry>, names: seq<Text>, prefix: Path, paths: seq<Text>): seq<FileDiff> {
    Kept(paths, Beneath(prefix, DiffNames(f, t, names)))
  }

  ghost function KeptAll(f: seq<TreeEntry>, t: seq<TreeEntry>, prefix: Path, paths: seq<Text>): seq<FileDiff> {
    Kept(paths, Beneath(prefix, DiffEntries(f, t)))
  }

  lemma KeptNamesStep(f: seq<TreeEntry>, t: seq<TreeEntry>, names: seq<Text>, prefix: Path, paths: seq<Text>)
    requires names != []
    ensures KeptNames(f, t, names, prefix, paths)
            == KeptName(f, t, names[0], prefix, paths) + KeptNames(f, t, names[1..], prefix, paths)
  {
    var a, b := DiffName(f, t, names[0]), DiffNames(f, t, names[1..]);
    assert Beneath(prefix, a + b) == Beneath(prefix, a) + Beneath(prefix, b);
    KeptAppend(paths, Beneath(prefix, a), Beneath(prefix, b));
  }

  lemma FilteredNameIsEmpty(f: seq<TreeEntry>, t: seq<TreeEntry>, n: Text, prefix: Path, paths: seq<Text>)
    requires !Passes(paths, Join(prefix + [n]))
    ensures KeptName(f, t, n, prefix, paths) == []
  {
    var ds := DiffName(f, t, n);
    forall i | 0 <= i < |ds| ensures prefix + [n] <= prefix + ds[i].path {
      assert ds[i] in ds;
      assert ds[i].path == [n] + ds[i].path[1..];
    }
    NothingKeptBelow(paths, prefix + [n], Beneath(prefix, ds));
  }

  lemma KeptSubtree(f: seq<TreeEntry>, t: seq<TreeEntry>, n: Text, prefix: Path, paths: seq<Text>)
    requires IsTreeOrNone(Last(f, n)) && IsTreeOrNone(Last(t, n)) && Last(f, n) != Last(t, n)
    requires Last(f, n).Some? && Last(t, n).Some? ==> Last(f, n).value.target != Last(t, n).value.target
    ensures KeptName(f, t, n, prefix, paths)
            == KeptAll(SubOrEmpty(Last(f, n)), SubOrEmpty(Last(t, n)), prefix + [n], paths)
  {
    BeneathTwice(prefix, n, DiffEntries(SubOrEmpty(Last(f, n)), SubOrEmpty(Last(t, n))));
  }

  lemma KeptSingle(f: seq<TreeEntry>, t: seq<TreeEntry>, n: Text, prefix: Path, paths: seq<Text>, d: FileDiff)
    requires DiffName(f, t, n) == [d] && d.path == [n] && Passes(paths, Join(prefix + [n]))
    ensures KeptName(f, t, n, prefix, paths) == [d.(path := prefix + [n])]
  {
    var ds := Beneath(prefix, DiffName(f, t, n));
    assert ds == [d.(path := prefix + [n])];
    assert Kept(paths, ds[1..]) == [];
  }

  // --- emitting changes ---------------------------------------------------------------------

  /** A change as it is reported, with its hunks, which are whatever the line-diff library makes of the
      two texts. */
  datatype Emitted<+H> = Emitted(change: FileDiff, binary: bool, hunks: Option<H>)

  /** How changes are emitted: whether hunks are left out, and the library's function. */
  datatype Style<H> = Style(noHunks: bool, hunksOf: (Text, Text) -> H)

  /** Only the content of regular files is compared, and not across a change of type. */
  predicate HasContent(d: FileDiff) {
    !d.kind.TypeChanged? && d.entryKind.FileKind?
  }

  function ContentOf(s: Store, target: Option<Hash>): Result<Text, Error> {
    match target
    case None => Success([])
    case Some(h) => GetBlob(s, h)
  }

  function Emit<H>(s: Store, d: FileDiff, style: Style<H>): Result<Emitted<H>, Error> {
    if !HasContent(d) || style.noHunks then Success(Emitted(d, false, None))
    else
      var a :- ContentOf(s, d.fromTarget);
      var b :- ContentOf(s, d.toTarget);
      if IsBinary(a) || IsBinary(b) then Success(Emitted(d, true, None))
      else Success(Emitted(d, false, Some(style.hunksOf(a, b))))
  }

  /** `out` with the given changes emitted after it, up to the first content that cannot be read. */
  function EmitAll<H>(s: Store, ds: seq<FileDiff>, style: Style<H>, out: seq<Emitted<H>>): Result<seq<Emitted<H>>, Error>
    decreases |ds|
  {
    if ds == [] then Success(out)
    else
      var e :- Emit(s, ds[0], style);
      EmitAll(s, ds[1..], style, out + [e])
  }

  lemma {:induction false} EmitAppend<H>(s: Store, a: seq<FileDiff>, b: seq<FileDiff>, style: Style<H>, out: seq<Emitted<H>>)
    ensures EmitAll(s, a + b, style, out) ==
            var first := EmitAll(s, a, style, out);
            if first.Failure? then first else EmitAll(s, b, style, first.value)
    decreases |a|
  {
    if a == [] {
      assert a + b == b;
    } else {
      assert (a + b)[0] == a[0] && (a + b)[1..] == a[1..] + b;
      var e := Emit(s, a[0], style);
      if e.Success? {
        EmitAppend(s, a[1..], b, style, out + [e.value]);
      }
    }
  }

  /** A regular file was added, removed or modified, and hunks are asked for. */
  predicate Compared<H>(d: FileDiff, style: Style<H>) {
    && !style.noHunks && d.entryKind == FileKind
    && (d.kind == Added || d.kind == Removed || d.kind == Modified)
  }

  /** Such a change has a content that cannot be read. */
  predicate Unreadable<H>(s: Store, d: FileDiff, style: Style<H>) {
    && Compared(d, style)
    && ((d.fromTarget.Some? && GetBlob(s, d.fromTarget.value).Failure?)
        || (d.toTarget.Some? && GetBlob(s, d.toTarget.value).Failure?))
  }

  /** The content on one side of a change; a side that does not exist counts as empty. */
  predicate IsContent(s: Store, target: Option<Hash>, t: Text) {
    if target.None? then t == [] else GetBlob(s, target.value) == Success(t)
  }

  /** The change is reported with hunks of its two texts or with the mark of a binary, where they are
      compared, and otherwise with neither. */
  ghost predicate Shows<H>(s: Store, d: FileDiff, style: Style<H>, e: Emitted<H>) {
    && e.change == d
    && !(e.binary && e.hunks.Some?)
    && (e.binary || e.hunks.Some? <==> Compared(d, style))
    && (Compared(d, style) ==>
          exists a, b | IsContent(s, d.fromTarget, a) && IsContent(s, d.toTarget, b) ::
            && (e.binary <==> IsBinary(a) || IsBinary(b))
            && (e.hunks.Some? ==> e.hunks.value == style.hunksOf(a, b)))
  }

  /** `r` is `out` followed by one element for each change. */
  ghost predicate ShowsAll<H>(s: Store, ds: seq<FileDiff>, style: Style<H>, out: seq<Emitted<H>>, r: seq<Emitted<H>>) {
    && |r| == |out| + |ds| && out <= r
    && forall i | 0 <= i < |ds| :: Shows(s, ds[i], style, r[|out| + i])
  }

  /** Emitting fails exactly when the content of some change has to be read and cannot be; otherwise each
      change is shown, in order. */
  lemma {:induction false} EmissionFailsIff<H>(s: Store, ds: seq<FileDiff>, style: Style<H>, out: seq<Emitted<H>>)
    ensures EmitAll(s, ds, style, out).Failure? <==> exists d | d in ds :: Unreadable(s, d, style)
    ensures EmitAll(s, ds, style, out).Success? ==> ShowsAll(s, ds, style, out, EmitAll(s, ds, style, out).value)
    decreases |ds|
  {
    if ds != [] {
      var e := Emit(s, ds[0], style);
      assert forall d | d in ds :: d == ds[0] || d in ds[1..];
      EmittedShows(s, ds[0], style);
      if e.Success? {
        EmissionFailsIff(s, ds[1..], style, out + [e.value]);
        if EmitAll(s, ds, style, out).Success? {
          ShowsOneMore(s, ds, style, out, e.value, EmitAll(s, ds, style, out).value);
        }
      }
    }
  }

  lemma EmittedShows<H>(s: Store, d: FileDiff, style: Style<H>)
    ensures Emit(s, d, style).Failure? <==> Unreadable(s, d, style)
    ensures Emit(s, d, style).Success? ==> Shows(s, d, style, Emit(s, d, style).value)
  {
    if Compared(d, style) && !Unreadable(s, d, style) {
      assert IsContent(s, d.fromTarget, ContentOf(s, d.fromTarget).value);
      assert IsContent(s, d.toTarget, ContentOf(s, d.toTarget).value);
    }
  }

  lemma ShowsOneMore<H>(s: Store, ds: seq<FileDiff>, style: Style<H>, out: seq<Emitted<H>>, e: Emitted<H>, r: seq<Emitted<H>>)
    requires ds != [] && Shows(s, ds[0], style, e) && ShowsAll(s, ds[1..], style, out + [e], r)
    ensures ShowsAll(s, ds, style, out, r)
  {
    assert r[|out|] == (out + [e])[|out|];
    forall i | 0 < i < |ds| ensures Shows(s, ds[i], style, r[|out| + i]) {
      assert Shows(s, ds[1..][i - 1], style, r[|out + [e]| + (i - 1)]);
    }
  }

  // --- complete stores ----------------------------------------------------------------------

  /** The tree and what the collector follows from it are stored, and its files lead to blobs. */
  ghost predicate Readable(s: Store, es: seq<TreeEntry>) {
    Honest(s) && Complete(s, TreeHash(es)) && FilesAreBlobs(es)
  }

  lemma {:induction false} FileNodeIsReadable(s: Store, es: seq<TreeEntry>, p: Path)
    requires Readable(s, es) && p != [] && NodeAt(es, p).Some? && NodeAt(es, p).value.kind.FileKind?
    ensures GetBlob(s, NodeAt(es, p).value.target).Success?
    decreases |p|
  {
    var e := Last(es, p[0]).value;
    assert e in es && Followed(e.kind) && Complete(s, e.target);
    if |p| > 1 {
      assert NodeAt(es, p) == NodeAt(Sub(e), p[1..]);
      assert IsTree(e.target) by {
        assert Last([], p[1]).None?;
      }
      FileNodeIsReadable(s, Sub(e), p[1..]);
    }
  }

  /** The contents of a reported change are those of the files that its path named before and names now. */
  lemma ContentsAreFiles(p: Path, x: Option<TreeEntry>, y: Option<TreeEntry>, d: FileDiff)
    requires Change(p, x, y) == Some(d) && HasContent(d)
    ensures d.fromTarget.Some? ==> x.Some? && x.value.kind.FileKind? && x.value.target == d.fromTarget.value
    ensures d.toTarget.Some? ==> y.Some? && y.value.kind.FileKind? && y.value.target == d.toTarget.value
  {
  }

  lemma SideIsReadable(s: Store, es: seq<TreeEntry>, p: Path, x: Option<TreeEntry>, target: Option<Hash>)
    requires Readable(s, es) && p != [] && x == NodeAt(es, p)
    requires target.Some? ==> x.Some? && x.value.kind.FileKind? && x.value.target == target.value
    ensures ContentOf(s, target).Success?
  {
    if target.Some? {
      FileNodeIsReadable(s, es, p);
    }
  }

  lemma ChangeIsReadable<H>(s: Store, f: seq<TreeEntry>, t: seq<TreeEntry>, d: FileDiff, style: Style<H>)
    requires Readable(s, f) && Readable(s, t)
    requires d.path != [] && Change(d.path, NodeAt(f, d.path), NodeAt(t, d.path)) == Some(d)
    ensures !Unreadable(s, d, style)
  {
    if HasContent(d) {
      ContentsAreFiles(d.path, NodeAt(f, d.path), NodeAt(t, d.path), d);
      SideIsReadable(s, f, d.path, NodeAt(f, d.path), d.fromTarget);
      SideIsReadable(s, t, d.path, NodeAt(t, d.path), d.toTarget);
    }
  }

  lemma ReportedIsReadable<H>(s: Store, f: seq<TreeEntry>, t: seq<TreeEntry>, d: FileDiff, style: Style<H>)
    requires Readable(s, f) && Readable(s, t) && d in DiffEntries(f, t)
    ensures !Unreadable(s, d, style)
  {
    DiffReportsIff(f, t, d);
    ChangeIsReadable(s, f, t, d, style);
  }

  lemma {:induction false} KeptAreMembers(paths: seq<Text>, ds: seq<FileDiff>)
    ensures forall d :: d in Kept(paths, ds) <==> d in ds && Passes(paths, Join(d.path))
  {
    if ds != [] {
      KeptAreMembers(paths, ds[1..]);
      assert forall d :: d in ds <==> d == ds[0] || d in ds[1..];
    }
  }

  /** On trees that are stored with their contents, every change list can be emitted with its hunks. */
  lemma CompleteTreesAreShown<H>(s: Store, f: seq<TreeEntry>, t: seq<TreeEntry>, paths: seq<Text>, style: Style<H>,
                                 out: seq<Emitted<H>>)
    requires Readable(s, f) && Readable(s, t)
    ensures EmitAll(s, Kept(paths, DiffEntries(f, t)), style, out).Success?
  {
    var ds := Kept(paths, DiffEntries(f, t));
    EmissionFailsIff(s, ds, style, out);
    KeptAreMembers(paths, DiffEntries(f, t));
    forall d | d in ds ensures !Unreadable(s, d, style) {
      ReportedIsReadable(s, f, t, d, style);
    }
  }

  method EmitChange<H>(store: ObjectStore, d: FileDiff, style: Style<H>) returns (r: Result<Emitted<H>, Error>)
    ensures r == Emit(store.files, d, style)
    ensures r.Failure? <==> Unreadable(store.files, d, style)
    ensures r.Success? ==> Shows(store.files, d, style, r.value)
  {
    EmittedShows(store.files, d, style);
    var binary, hunks := false, None;
    if HasContent(d) && !style.noHunks {
      var fromBytes :- ContentOf(store.files, d.fromTarget);
      var toBytes :- ContentOf(store.files, d.toTarget);
      if IsBinary(fromBytes) || IsBinary(toBytes) {
        binary := true;
      } else {
        hunks := Some(style.hunksOf(fromBytes, toBytes));
      }
    }
    return Success(Emitted(d, binary, hunks));
  }

  // --- the recursion ------------------------------------------------------------------------

  /** The sub-trees of these entries can be fetched. */
  ghost predicate Fetchable(s: Store, es: seq<TreeEntry>) {
    forall e | e in es && e.kind.TreeKind? :: TreesStored(s, e.target)
  }

  ghost predicate FetchableTree(s: Store, h: Option<Hash>) {
    h.Some? ==> TreesStored(s, h.value)
  }

  /** The walk emitted the given changes after `out`. With all trees stored this is all that can happen,
      errors included; otherwise it may also fail on a tree. */
  ghost predicate Walked<H>(s: Store, stored: bool, ds: seq<FileDiff>, style: Style<H>, out: seq<Emitted<H>>,
                            r: Result<seq<Emitted<H>>, Error>) {
    r.Success? || stored ==> r == EmitAll(s, ds, style, out)
  }

  method FetchEntries(store: ObjectStore, h: Option<Hash>) returns (r: Result<seq<TreeEntry>, Error>)
    ensures r.Success? ==> r.value == OptionalEntries(h)
    ensures Honest(store.files) && FetchableTree(store.files, h) ==> r.Success?
  {
    match h
    case None => return Success([]);
    case Some(x) => return GetTree(store.files, x);
  }

  /** The names still to be walked, after some were. */
  lemma NamesAdvance<H>(s: Store, f: seq<TreeEntry>, t: seq<TreeEntry>, names: seq<Text>, i: nat, prefix: Path,
                        paths: seq<Text>, style: Style<H>, before: seq<Emitted<H>>)
    requires i < |names|
    ensures EmitAll(s, KeptNames(f, t, names[i..], prefix, paths), style, before) ==
            var one := EmitAll(s, KeptName(f, t, names[i], prefix, paths), style, before);
            if one.Failure? then one
            else EmitAll(s, KeptNames(f, t, names[i + 1..], prefix, paths), style, one.value)
  {
    KeptNamesStep(f, t, names[i..], prefix, paths);
    assert names[i..][0] == names[i] && names[i..][1..] == names[i + 1..];
    EmitAppend(s, KeptName(f, t, names[i], prefix, paths), KeptNames(f, t, names[i + 1..], prefix, paths), style, before);
  }

  method DiffSubtree<H>(store: ObjectStore, from: Option<Hash>, to: Option<Hash>, prefix: Path,
                        paths: seq<Text>, style: Style<H>, out: seq<Emitted<H>>)
    returns (r: Result<seq<Emitted<H>>, Error>)
    ensures Walked(store.files, Honest(store.files) && FetchableTree(store.files, from) && FetchableTree(store.files, to),
                   KeptAll(OptionalEntries(from), OptionalEntries(to), prefix, paths), style, out, r)
    decreases Size(OptionalEntries(from)) + Size(OptionalEntries(to)), 3
  {
    if from.Some? && to.Some? && from == to {
      SelfDiffIsEmpty(OptionalEntries(from));
      return Success(out);
    }
    var f :- FetchEntries(store, from);
    var t :- FetchEntries(store, to);
    r := DiffLists(store, f, t, prefix, paths, style, out);
  }

  /** What the names from the `i`-th on still have to add. */
  ghost function Pending<H>(s: Store, f: seq<TreeEntry>, t: seq<TreeEntry>, names: seq<Text>, i: nat, prefix: Path,
                            paths: seq<Text>, style: Style<H>, acc: seq<Emitted<H>>): Result<seq<Emitted<H>>, Error>
    requires i <= |names|
  {
    EmitAll(s, KeptNames(f, t, names[i..], prefix, paths), style, acc)
  }

  lemma NothingPending<H>(s: Store, f: seq<TreeEntry>, t: seq<TreeEntry>, names: seq<Text>, prefix: Path,
                          paths: seq<Text>, style: Style<H>, acc: seq<Emitted<H>>)
    ensures Pending(s, f, t, names, |names|, prefix, paths, style, acc) == Success(acc)
  {
    assert names[|names|..] == [];
    assert KeptNames(f, t, [], prefix, paths) == [];
  }

  lemma AllPending<H>(s: Store, f: seq<TreeEntry>, t: seq<TreeEntry>, prefix: Path,
                      paths: seq<Text>, style: Style<H>, acc: seq<Emitted<H>>)
    ensures Pending(s, f, t, UnionNames(f, t), 0, prefix, paths, style, acc)
            == EmitAll(s, KeptAll(f, t, prefix, paths), style, acc)
  {
    assert UnionNames(f, t)[0..] == UnionNames(f, t);
  }

  /** Walking the `i`-th name leaves the rest pending, or is the failure that was pending. */
  lemma OneLessPending<H>(s: Store, stored: bool, f: seq<TreeEntry>, t: seq<TreeEntry>, names: seq<Text>, i: nat, prefix: Path,
                          paths: seq<Text>, style: Style<H>, acc: seq<Emitted<H>>, r: Result<seq<Emitted<H>>, Error>)
    requires i < |names| && Walked(s, stored, KeptName(f, t, names[i], prefix, paths), style, acc, r)
    ensures r.Success? ==> Pending(s, f, t, names, i, prefix, paths, style, acc)
                           == Pending(s, f, t, names, i + 1, prefix, paths, style, r.value)
    ensures r.Failure? && stored ==> Pending(s, f, t, names, i, prefix, paths, style, acc) == r
  {
    NamesAdvance(s, f, t, names, i, prefix, paths, style, acc);
  }

  method DiffLists<H>(store: ObjectStore, f: seq<TreeEntry>, t: seq<TreeEntry>, prefix: Path,
                      paths: seq<Text>, style: Style<H>, out: seq<Emitted<H>>)
    returns (r: Result<seq<Emitted<H>>, Error>)
    ensures Walked(store.files, Honest(store.files) && Fetchable(store.files, f) && Fetchable(store.files, t),
                   KeptAll(f, t, prefix, paths), style, out, r)
    decreases Size(f) + Size(t), 2
  {
    AllPending(store.files, f, t, prefix, paths, style, out);
    r := DiffAllNames(store, f, t, UnionNames(f, t), prefix, paths, style, out);
  }

  /** The loop over names. */
  method DiffAllNames<H>(store: ObjectStore, f: seq<TreeEntry>, t: seq<TreeEntry>, names: seq<Text>, prefix: Path,
                         paths: seq<Text>, style: Style<H>, out: seq<Emitted<H>>)
    returns (r: Result<seq<Emitted<H>>, Error>)
    ensures r.Success? || (Honest(store.files) && Fetchable(store.files, f) && Fetchable(store.files, t)) ==>
              r == Pending(store.files, f, t, names, 0, prefix, paths, style, out)
    decreases Size(f) + Size(t), 1
  {
    ghost var stored := Honest(store.files) && Fetchable(store.files, f) && Fetchable(store.files, t);
    ghost var all := Pending(store.files, f, t, names, 0, prefix, paths, style, out);
    var acc := out;
    var i := 0;
    while i < |names|
      invariant 0 <= i <= |names|
      invariant Pending(store.files, f, t, names, i, prefix, paths, style, acc) == all
    {
      var next := DiffOne(store, f, t, names[i], prefix, paths, style, acc);
      OneLessPending(store.files, stored, f, t, names, i, prefix, paths, style, acc, next);
      acc :- next;
      i := i + 1;
    }
    NothingPending(store.files, f, t, names, prefix, paths, style, acc);
    return Success(acc);
  }

  /** The body of the loop over names. */
  method DiffOne<H>(store: ObjectStore, f: seq<TreeEntry>, t: seq<TreeEntry>, n: Text, prefix: Path,
                    paths: seq<Text>, style: Style<H>, out: seq<Emitted<H>>)
    returns (r: Result<seq<Emitted<H>>, Error>)
    ensures Walked(store.files, Honest(store.files) && Fetchable(store.files, f) && Fetchable(store.files, t),
                   KeptName(f, t, n, prefix, paths), style, out, r)
    decreases Size(f) + Size(t), 0
  {
    if !Passes(paths, Join(prefix + [n])) {
      FilteredNameIsEmpty(f, t, n, prefix, paths);
      return Success(out);
    }
    var d: FileDiff;
    match (Last(f, n), Last(t, n)) {
      case (Some(a), Some(b)) =>
        if a.target == b.target && a.kind == b.kind {
          assert KeptName(f, t, n, prefix, paths) == [];
          return Success(out);
        }
        if a.kind.TreeKind? && b.kind.TreeKind? {
          KeptSubtree(f, t, n, prefix, paths);
          r := DiffSubtree(store, Some(a.target), Some(b.target), prefix + [n], paths, style, out);
          return;
        }
        d := FileDiff([n], if a.kind != b.kind then TypeChanged(a.kind, b.kind) else Modified, b.kind,
                      Some(a.target), Some(b.target));
      case (Some(a), None) =>
        if a.kind.TreeKind? {
          KeptSubtree(f, t, n, prefix, paths);
          r := DiffSubtree(store, Some(a.target), None, prefix + [n], paths, style, out);
          return;
        }
        d := FileDiff([n], Removed, a.kind, Some(a.target), None);
      case (None, Some(b)) =>
        if b.kind.TreeKind? {
          KeptSubtree(f, t, n, prefix, paths);
          r := DiffSubtree(store, None, Some(b.target), prefix + [n], paths, style, out);
          return;
        }
        d := FileDiff([n], Added, b.kind, None, Some(b.target));
      case (None, None) =>
        assert KeptName(f, t, n, prefix, paths) == [];
        return Success(out);
    }
    KeptSingle(f, t, n, prefix, paths, d);
    var e :- EmitChange(store, d.(path := prefix + [n]), style);
    return Success(out + [e]);
  }

  /** The texts agree as far as both go. */
  predicate Agree(a: Text, b: Text) {
    forall i | 0 <= i < |a| && i < |b| :: a[i] == b[i]
  }

  /** A report of the given changes: strictly by path, none below another, each change shown, and
      in it just the changes whose path agrees with a filter, if there are any. */
  ghost predicate Reports<H>(s: Store, all: seq<FileDiff>, paths: seq<Text>, style: Style<H>, r: seq<Emitted<H>>) {
    && (forall i, j | 0 <= i < j < |r| ::
          PathLess(r[i].change.path, r[j].change.path) && Incomparable(r[i].change.path, r[j].change.path))
    && (forall e | e in r :: Shows(s, e.change, style, e))
    && forall d :: (exists e | e in r :: e.change == d)
                   <==> d in all && (paths == [] || exists p | p in paths :: Agree(p, Join(d.path)))
  }

  lemma PassesIffAgrees(paths: seq<Text>, t: Text)
    ensures Passes(paths, t) <==> paths == [] || exists p | p in paths :: Agree(p, t)
  {
    forall p ensures Agree(p, t) <==> p <= t || t <= p {
      if |p| <= |t| {
        assert Agree(p, t) ==> p == t[..|p|];
      } else {
        assert Agree(p, t) ==> t == p[..|t|];
      }
    }
  }

  lemma {:induction false} KeptInOrder(paths: seq<Text>, ds: seq<FileDiff>)
    requires InOrder(ds)
    ensures InOrder(Kept(paths, ds))
  {
    if ds != [] {
      KeptInOrder(paths, ds[1..]);
      KeptAreMembers(paths, ds[1..]);
      var rest := Kept(paths, ds[1..]);
      forall j | 0 <= j < |rest| ensures PathLess(ds[0].path, rest[j].path) && Incomparable(ds[0].path, rest[j].path) {
        assert rest[j] in ds[1..];
        var k :| 0 < k < |ds| && ds[k] == rest[j];
      }
    }
  }

  lemma ShownIsListed<H>(s: Store, ds: seq<FileDiff>, style: Style<H>, r: seq<Emitted<H>>)
    requires ShowsAll(s, ds, style, [], r)
    ensures |r| == |ds| && forall i | 0 <= i < |r| :: r[i].change == ds[i] && Shows(s, ds[i], style, r[i])
    ensures forall d :: (exists e | e in r :: e.change == d) <==> d in ds
  {
    forall i | 0 <= i < |r| ensures r[i].change == ds[i] && Shows(s, ds[i], style, r[i]) {
      assert Shows(s, ds[i], style, r[0 + i]);
    }
    forall d ensures (exists e | e in r :: e.change == d) <==> d in ds {
      if d in ds {
        var i :| 0 <= i < |ds| && ds[i] == d;
        assert r[i] in r && r[i].change == d;
      }
      if e :| e in r && e.change == d {
        var i :| 0 <= i < |r| && r[i] == e;
        assert ds[i] == d;
      }
    }
  }

  lemma ShownIsReport<H>(s: Store, all: seq<FileDiff>, paths: seq<Text>, style: Style<H>, r: seq<Emitted<H>>)
    requires InOrder(all) && ShowsAll(s, Kept(paths, all), style, [], r)
    ensures Reports(s, all, paths, style, r)
  {
    KeptInOrder(paths, all);
    KeptAreMembers(paths, all);
    ShownIsListed(s, Kept(paths, all), style, r);
    forall d ensures d in Kept(paths, all) <==> d in all && (paths == [] || exists p | p in paths :: Agree(p, Join(d.path))) {
      PassesIffAgrees(paths, Join(d.path));
    }
  }

  /** Filtering by a path shows every change at or below it. */
  lemma FilterShowsBelow<H>(s: Store, all: seq<FileDiff>, q: Path, style: Style<H>, r: seq<Emitted<H>>, d: FileDiff)
    requires Reports(s, all, [Join(q)], style, r) && d in all && q <= d.path
    ensures exists e | e in r :: e.change == d
  {
    JoinPrefix(q, d.path);
    var p := Join(q);
    assert p in [p] && Agree(p, Join(d.path));
  }

  /** The filtered walk reports the changes of the whole list that agree with a filter. With all trees stored
      it fails exactly on a content that has to be compared and cannot be read; on complete stores it never
      fails. */
  method DiffTrees<H>(store: ObjectStore, from: Hash, to: Hash, paths: seq<Text>, style: Style<H>)
    returns (r: Result<seq<Emitted<H>>, Error>)
    ensures r.Success? ==> Reports(store.files, DiffEntries(EntriesOf(from), EntriesOf(to)), paths, style, r.value)
    ensures Honest(store.files) && TreesStored(store.files, from) && TreesStored(store.files, to) ==>
              (r.Failure? <==> exists d | d in DiffEntries(EntriesOf(from), EntriesOf(to)) ::
                                 && Unreadable(store.files, d, style)
                                 && (paths == [] || exists p | p in paths :: Agree(p, Join(d.path))))
    ensures Honest(store.files) && StoredWithFiles(store.files, from) && StoredWithFiles(store.files, to) ==> r.Success?
    ensures from == to ==> r == Success([])
  {
    ghost var all := DiffEntries(EntriesOf(from), EntriesOf(to));
    KeptFailsIff(store.files, all, paths, style);
    DiffInOrder(EntriesOf(from), EntriesOf(to));
    if from == to {
      SelfDiffIsEmpty(EntriesOf(from));
      ShownIsReport<H>(store.files, all, paths, style, []);
      return Success([]);
    }
    BeneathRoot(all);
    r := DiffSubtree(store, Some(from), Some(to), [], paths, style, []);
    if r.Success? {
      ShownIsReport(store.files, all, paths, style, r.value);
    }
    if Honest(store.files) && StoredWithFiles(store.files, from) && StoredWithFiles(store.files, to) {
      CompleteTreesAreShown(store.files, EntriesOf(from), EntriesOf(to), paths, style, []);
    }
  }

  lemma KeptFailsIff<H>(s: Store, all: seq<FileDiff>, paths: seq<Text>, style: Style<H>)
    ensures var r := EmitAll(s, Kept(paths, all), style, []);
            && (r.Failure? <==> exists d | d in all :: Unreadable(s, d, style)
                                                       && (paths == [] || exists p | p in paths :: Agree(p, Join(d.path))))
            && (r.Success? ==> ShowsAll(s, Kept(paths, all), style, [], r.value))
  {
    KeptAreMembers(paths, all);
    EmissionFailsIff(s, Kept(paths, all), style, []);
    forall d | d in all ensures d in Kept(paths, all) <==> paths == [] || exists p | p in paths :: Agree(p, Join(d.path)) {
      PassesIffAgrees(paths, Join(d.path));
    }
  }

  /** All trees below the hash and the contents of their files are stored. */
  ghost predicate StoredWithFiles(s: Store, h: Hash) {
    TreesStored(s, h) && Complete(s, h) && FilesAreBlobs(EntriesOf(h))
  }

  // --- the change list of a write -----------------------------------------------------------

  lemma {:induction false} OnlyOneNameDiffers(f: seq<TreeEntry>, t: seq<TreeEntry>, names: seq<Text>, n: Text)
    requires Ascending(names) && forall m | m != n :: Last(f, m) == Last(t, m)
    ensures DiffNames(f, t, names) == if n in names then DiffName(f, t, n) else []
    decreases |names|
  {
    if names != [] {
      OnlyOneNameDiffers(f, t, names[1..], n);
      if names[0] == n && n in names[1..] {
        Asymmetric(n, n);
      }
      if names[0] != n {
        assert DiffName(f, t, names[0]) == [];
      } else {
        assert DiffName(f, t, n) + [] == DiffName(f, t, n);
      }
    }
  }

  lemma DiffOfInsert(es: seq<TreeEntry>, e: TreeEntry)
    requires Sorted(es)
    ensures DiffEntries(es, Insert(es, e)) == DiffName(es, Insert(es, e), e.name)
    ensures Last(es, e.name) == Find(es, e.name) && Last(Insert(es, e), e.name) == Some(e)
  {
    var t := Insert(es, e);
    InsertSorted(es, e);
    forall m ensures Last(t, m) == if m == e.name then Some(e) else Last(es, m) {
      FindInsert(es, e, m);
      LastIsFind(es, m);
      LastIsFind(t, m);
    }
    LastIsFind(es, e.name);
    UnionNamesAscend(es, t);
    OnlyOneNameDiffers(es, t, UnionNames(es, t), e.name);
    assert e.name in AllNames(t);
  }

  /** The change list that a single path write should have: nothing when the path already held the
      same kind and object. */
  function WriteDiff(es: seq<TreeEntry>, p: Path, leaf: Leaf): seq<FileDiff>
    requires p != []
  {
    match Change(p, EntryAt(es, p), Some(leaf.At(p[|p| - 1])))
    case None => []
    case Some(d) => [d]
  }

  lemma WriteDiffBelow(es: seq<TreeEntry>, p: Path, leaf: Leaf)
    requires |p| > 1 && (Find(es, p[0]).Some? ==> IsDir(Find(es, p[0]).value))
    ensures WriteDiff(es, p, leaf) == Beneath([p[0]], WriteDiff(Below(Find(es, p[0])), p[1..], leaf))
  {
    assert p == [p[0]] + p[1..];
    assert EntryAt(es, p) == EntryAt(Below(Find(es, p[0])), p[1..]);
  }

  /** Comparing a tree with the result of one path write reports that path and nothing else, and not
      even that when the path already held the same object. */
  lemma {:induction false} DiffOfWrite(es: seq<TreeEntry>, p: Path, leaf: Leaf)
    requires WellFormed(es) && p != [] && !leaf.kind.TreeKind? && PutAt(es, p, leaf).Success?
    ensures DiffEntries(es, PutAt(es, p, leaf).value) == WriteDiff(es, p, leaf)
    decreases |p|
  {
    if |p| == 1 {
      DiffOfInsert(es, leaf.At(p[0]));
      DiffOfFileEntry(es, p, leaf);
    } else {
      var below := Find(es, p[0]);
      var sub := PutAt(Below(below), p[1..], leaf).value;
      DiffOfInsert(es, DirEntry(p[0], sub));
      DiffOfWrite(Below(below), p[1..], leaf);
      WriteDiffBelow(es, p, leaf);
      DiffOfDirEntry(es, Insert(es, DirEntry(p[0], sub)), p[0], sub);
    }
  }

  lemma DiffOfFileEntry(es: seq<TreeEntry>, p: Path, leaf: Leaf)
    requires |p| == 1 && !leaf.kind.TreeKind?
    requires var t := Insert(es, leaf.At(p[0])); Last(es, p[0]) == Find(es, p[0]) && Last(t, p[0]) == Some(leaf.At(p[0]))
    ensures DiffName(es, Insert(es, leaf.At(p[0])), p[0]) == WriteDiff(es, p, leaf)
  {
    assert p == [p[0]];
    assert EntryAt(es, p) == Last(es, p[0]);
    DiffOfLeaf(es, Insert(es, leaf.At(p[0])), p[0], leaf.At(p[0]));
  }

  lemma DiffOfLeaf(f: seq<TreeEntry>, t: seq<TreeEntry>, n: Text, y: TreeEntry)
    requires Last(t, n) == Some(y) && !y.kind.TreeKind?
    ensures DiffName(f, t, n) == match Change([n], Last(f, n), Some(y))
                                 case None => []
                                 case Some(d) => [d]
  {
  }

  lemma DiffOfDirEntry(f: seq<TreeEntry>, t: seq<TreeEntry>, n: Text, sub: seq<TreeEntry>)
    requires Last(f, n) == Find(f, n) && (Find(f, n).Some? ==> IsDir(Find(f, n).value))
    requires Last(t, n) == Some(DirEntry(n, sub))
    ensures DiffName(f, t, n) == Beneath([n], DiffEntries(Below(Find(f, n)), sub))
  {
    if Last(f, n).Some? && Last(f, n).value.target == TreeHash(sub) {
      SelfDiffIsEmpty(sub);
      assert DiffName(f, t, n) == [];
    } else {
      assert DiffName(f, t, n) == Beneath([n], DiffEntries(SubOrEmpty(Last(f, n)), SubOrEmpty(Last(t, n))));
    }
  }
}
