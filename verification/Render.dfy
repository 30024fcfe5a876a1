/** Rendering a stored tree into a directory, and restoring a working directory to a snapshot. */
module Render {
  import opened Wrappers
  import opened Lex
  import opened Objects
  import opened Trees
  import opened TreeAlgebra
  import opened Disk
  import Scan

  datatype Stats = Stats(files: nat, bytes: nat, unsealed: nat, skipped: nat)

  /** The optional decryption routine, given the cipher text and the entry's joined path, and what
      to do when it refuses. */
  datatype Policy = Policy(unseal: Option<(Text, Text) -> Option<Text>>, skipUnsealable: bool)

  /** A directory being rendered into. It keeps what was written before an error. */
  datatype Rendering = Rendering(dir: Directory, stats: Stats, error: Option<Error>) {
    function Fail(e: Error): Rendering {
      this.(error := Some(e))
    }
  }

  /** `fs::write` keeps the permissions of a file it overwrites; the mode can only add execution. */
  function WriteFile(acc: Rendering, e: TreeEntry, bytes: Text): Rendering {
    if e.name in acc.dir && !acc.dir[e.name].File? then acc.Fail(Unsupported)
    else acc.(dir := acc.dir[e.name := Placed(acc.dir, e, bytes)])
  }

  function Placed(dir: Directory, e: TreeEntry, bytes: Text): Node {
    File(bytes, IsExecutable(e.mode) || (e.name in dir && dir[e.name].File? && dir[e.name].exec))
  }

  function RenderAll(s: Store, es: seq<TreeEntry>, prefix: Path, pol: Policy, acc: Rendering): Rendering
    decreases es, 1
  {
    if es == [] || acc.error.Some? then acc
    else RenderAll(s, es[1..], prefix, pol, RenderOne(s, es[0], prefix, pol, acc))
  }

  function RenderOne(s: Store, e: TreeEntry, prefix: Path, pol: Policy, acc: Rendering): Rendering
    decreases e, 0
  {
    match e.kind
    case FileKind => (
      match GetBlob(s, e.target)
      case Failure(err) => acc.Fail(err)
      case Success(bytes) =>
        var w := WriteFile(acc, e, bytes);
        if w.error.Some? then w
        else w.(stats := acc.stats.(files := acc.stats.files + 1, bytes := acc.stats.bytes + |bytes|))
      )
    case TreeKind => (
      if e.name in acc.dir then acc.Fail(AlreadyExists)
      else
        match GetTree(s, e.target)
        case Failure(err) => Rendering(acc.dir[e.name := Dir(map[])], acc.stats, Some(err))
        case Success(sub) =>
          var r := RenderAll(s, sub, prefix + [e.name], pol, Rendering(map[], acc.stats, None));
          Rendering(acc.dir[e.name := Dir(r.dir)], r.stats, r.error)
      )
    case SymlinkKind => (
      match GetBlob(s, e.target)
      case Failure(err) => acc.Fail(err)
      case Success(target) =>
        if !LinkOk(target) then acc.Fail(Corrupt)
        else if e.name in acc.dir then acc.Fail(AlreadyExists)
        else acc.(dir := acc.dir[e.name := Link(target)])
      )
    case SealedKind => RenderSealed(s, e, prefix, pol, acc)
    case ConflictKind => acc.Fail(Unsupported)
    case SubmoduleKind => acc.Fail(Unsupported)
  }

  function RenderSealed(s: Store, e: TreeEntry, prefix: Path, pol: Policy, acc: Rendering): Rendering {
    if pol.unseal.None? then acc.Fail(SealedPresent)
    else
      match Get(s, e.target)
      case Failure(err) => acc.Fail(err)
      case Success(o) =>
        if !o.SealedObj? then acc.Fail(WrongKind)
        else
          match pol.unseal.value(o.cipher, Join(prefix + [e.name]))
          case None =>
            if pol.skipUnsealable then acc.(stats := acc.stats.(skipped := acc.stats.skipped + 1))
            else acc.Fail(Unsupported)
          case Some(plain) =>
            var w := WriteFile(acc, e, plain);
            if w.error.Some? then w
            else w.(stats := acc.stats.(unsealed := acc.stats.unsealed + 1, bytes := acc.stats.bytes + |plain|))
  }

  method RenderTree(store: ObjectStore, treeHash: Hash, prefix: Path, pol: Policy, dst: Rendering)
    returns (acc: Rendering)
    requires dst.error.None?
    ensures var got := GetTree(store.files, treeHash);
            acc == if got.Failure? then dst.Fail(got.error) else RenderAll(store.files, got.value, prefix, pol, dst)
    decreases treeHash
  {
    acc := dst;
    var got := GetTree(store.files, treeHash);
    if got.Failure? {
      return dst.Fail(got.error);
    }
    var tree := got.value;
    var i := 0;
    while i < |tree| && acc.error.None?
      invariant 0 <= i <= |tree|
      invariant RenderAll(store.files, tree, prefix, pol, dst) ==
                RenderAll(store.files, tree[i..], prefix, pol, acc)
    {
      var e := tree[i];
      assert tree[i..][0] == e && tree[i..][1..] == tree[i + 1..];
      ghost var start := acc;
      if e.kind.TreeKind? {
        if e.name in acc.dir {
          acc := acc.Fail(AlreadyExists);
        } else {
          assert e in tree && e.target < treeHash;
          var sub := RenderTree(store, e.target, prefix + [e.name], pol, Rendering(map[], acc.stats, None));
          acc := Rendering(acc.dir[e.name := Dir(sub.dir)], sub.stats, sub.error);
        }
      } else {
        acc := RenderOne(store.files, e, prefix, pol, acc);
      }
      assert acc == RenderOne(store.files, e, prefix, pol, start);
      i := i + 1;
    }
  }

  // --- what rendering produces --------------------------------------------------------------

  /** Trees of files, symlinks and directories only. */
  ghost predicate Plain(es: seq<TreeEntry>)
    decreases es, 1
  {
    forall e | e in es :: PlainEntry(e)
  }

  ghost predicate PlainEntry(e: TreeEntry)
    decreases e, 0
  {
    ValidName(e.name)
    && match e.kind
       case FileKind => e.target.Of? && e.target.obj.BlobObj?
       case SymlinkKind => LeadsToLink(e.target)
       case TreeKind => IsTree(e.target) && Sorted(e.target.obj.entries) && Plain(e.target.obj.entries)
       case _ => false
  }

  lemma {:induction false} TidyIsPlain(es: seq<TreeEntry>, ignore: seq<Text>)
    requires Tidy(es, ignore)
    ensures Plain(es)
    decreases es
  {
    forall e | e in es && e.kind.TreeKind? ensures Plain(e.target.obj.entries) {
      TidyIsPlain(e.target.obj.entries, ignore);
    }
  }

  ghost predicate TargetsStored(s: Store, es: seq<TreeEntry>) {
    forall e | e in es && !e.kind.SubmoduleKind? :: FullyStored(s, e.target)
  }

  /** The only names a plain tree may share with its destination are files over files. */
  predicate Fits(es: seq<TreeEntry>, dir: Directory) {
    forall e | e in es && e.name in dir :: e.kind.FileKind? && dir[e.name].File?
  }

  /** The node an entry leaves behind, given what was there. */
  function Overlaid(dir: Directory, e: TreeEntry): Node {
    if e.kind.FileKind? && e.target.Of? && e.target.obj.BlobObj? then Placed(dir, e, e.target.obj.bytes)
    else NodeFor(e)
  }

  function Overlay(es: seq<TreeEntry>, dir: Directory): Directory {
    map n | n in Names(es) :: Overlaid(dir, Find(es, n).value)
  }

  /** Regular files at any depth. */
  function FileCount(es: seq<TreeEntry>): nat
    decreases es, 1
  {
    if es == [] then 0 else FilesIn(es[0]) + FileCount(es[1..])
  }

  function FilesIn(e: TreeEntry): nat
    decreases e, 0
  {
    if e.kind.FileKind? then 1
    else if IsDir(e) then FileCount(e.target.obj.entries)
    else 0
  }

  /** Their total size. */
  function ByteCount(es: seq<TreeEntry>): nat
    decreases es, 1
  {
    if es == [] then 0 else BytesIn(es[0]) + ByteCount(es[1..])
  }

  function BytesIn(e: TreeEntry): nat
    decreases e, 0
  {
    if e.kind.FileKind? && e.target.Of? && e.target.obj.BlobObj? then |e.target.obj.bytes|
    else if IsDir(e) then ByteCount(e.target.obj.entries)
    else 0
  }

  lemma OverlayOnNothing(es: seq<TreeEntry>)
    ensures Overlay(es, map[]) == Rendered(es)
  {
  }

  lemma TailNames(es: seq<TreeEntry>)
    requires Sorted(es) && es != []
    ensures forall n :: Find(es[1..], n) == if n == es[0].name then None else Find(es, n)
    ensures Names(es) == Names(es[1..]) + {es[0].name} && es[0].name !in Names(es[1..])
  {
    forall n ensures Find(es[1..], n) == if n == es[0].name then None else Find(es, n) {
      NotFirst(es, n);
    }
    assert es[0] in es && forall e | e in es :: e == es[0] || e in es[1..];
    assert Find(es[1..], es[0].name) == None;
  }

  lemma OverlaidElsewhere(dir: Directory, n: Text, node: Node, e: TreeEntry)
    requires e.name != n
    ensures Overlaid(dir[n := node], e) == Overlaid(dir, e)
  {
  }

  /** What one name is after overlaying the first entry, then the rest. */
  lemma OverlayStepAt(es: seq<TreeEntry>, dir: Directory, node: Node, n: Text)
    requires Sorted(es) && es != [] && node == Overlaid(dir, es[0])
    ensures var next := dir[es[0].name := node];
            && (n in Names(es) <==> n == es[0].name || n in Names(es[1..]))
            && (n in Names(es[1..]) ==>
                  n != es[0].name && Overlaid(next, Find(es[1..], n).value) == Overlaid(dir, Find(es, n).value))
            && (n == es[0].name ==> node == Overlaid(dir, Find(es, n).value) && n !in Names(es[1..]))
  {
    TailNames(es);
    assert Find(es, es[0].name) == Some(es[0]);
    if n in Names(es[1..]) {
      assert Find(es[1..], n) == Find(es, n);
      OverlaidElsewhere(dir, es[0].name, node, Find(es[1..], n).value);
    }
  }

  lemma OverlayStep(es: seq<TreeEntry>, dir: Directory, node: Node)
    requires Sorted(es) && es != [] && node == Overlaid(dir, es[0])
    ensures dir[es[0].name := node] + Overlay(es[1..], dir[es[0].name := node]) == dir + Overlay(es, dir)
  {
    var rest, all := Overlay(es[1..], dir[es[0].name := node]), Overlay(es, dir);
    forall n
      ensures n in all <==> n == es[0].name || n in rest
      ensures n in rest ==> n != es[0].name && rest[n] == all[n]
    {
      OverlayStepAt(es, dir, node, n);
    }
    OverlayStepAt(es, dir, node, es[0].name);
    MergedAlike(dir, es[0].name, node, rest, all);
  }

  lemma MergedAlike(dir: Directory, k: Text, node: Node, rest: Directory, all: Directory)
    requires forall n :: n in all <==> n == k || n in rest
    requires forall n :: n in rest ==> n != k && rest[n] == all[n]
    requires all[k] == node
    ensures dir[k := node] + rest == dir + all
  {
  }

  predicate FitsOne(e: TreeEntry, dir: Directory) {
    e.name in dir ==> e.kind.FileKind? && dir[e.name].File?
  }

  lemma FitsStep(es: seq<TreeEntry>, dir: Directory, node: Node)
    requires Sorted(es) && es != []
    ensures Fits(es, dir) <==> FitsOne(es[0], dir) && Fits(es[1..], dir[es[0].name := node])
  {
    var next := dir[es[0].name := node];
    TailNames(es);
    assert forall e | e in es :: e == es[0] || e in es[1..];
    forall e | e in es[1..] ensures FitsOne(e, dir) <==> FitsOne(e, next) {
      assert e.name in Names(es[1..]);
    }
    assert Fits(es, dir) <==> forall e | e in es :: FitsOne(e, dir);
    assert Fits(es[1..], next) <==> forall e | e in es[1..] :: FitsOne(e, next);
  }

  function Weigh(e: TreeEntry, st: Stats): Stats {
    st.(files := st.files + FilesIn(e), bytes := st.bytes + BytesIn(e))
  }

  /** Success exactly when the tree fits; then one node per entry, every other name left alone,
      and files and bytes counted. */
  ghost predicate RendersFully(es: seq<TreeEntry>, acc: Rendering, r: Rendering) {
    && (r.error.None? <==> Fits(es, acc.dir))
    && (Fits(es, acc.dir) ==>
          && r.dir == acc.dir + Overlay(es, acc.dir)
          && r.stats == acc.stats.(files := acc.stats.files + FileCount(es),
                                   bytes := acc.stats.bytes + ByteCount(es)))
  }

  lemma RendersFullyStep(es: seq<TreeEntry>, acc: Rendering, next: Rendering, r: Rendering)
    requires Sorted(es) && es != [] && acc.error.None?
    requires FitsOne(es[0], acc.dir)
    requires next == Rendering(acc.dir[es[0].name := Overlaid(acc.dir, es[0])], Weigh(es[0], acc.stats), None)
    requires RendersFully(es[1..], next, r)
    ensures RendersFully(es, acc, r)
  {
    FitsStep(es, acc.dir, Overlaid(acc.dir, es[0]));
    OverlayStep(es, acc.dir, Overlaid(acc.dir, es[0]));
  }

  /** One entry of a stored plain tree. */
  lemma {:induction false} RenderOnePlain(s: Store, e: TreeEntry, prefix: Path, pol: Policy, acc: Rendering)
    requires Honest(s) && PlainEntry(e) && FullyStored(s, e.target) && acc.error.None?
    ensures var next := RenderOne(s, e, prefix, pol, acc);
            && (next.error.None? <==> FitsOne(e, acc.dir))
            && (FitsOne(e, acc.dir) ==>
                  next == Rendering(acc.dir[e.name := Overlaid(acc.dir, e)], Weigh(e, acc.stats), None))
    decreases e, 0
  {
    if !e.kind.TreeKind? {
      RenderLeafPlain(s, e, prefix, pol, acc);
    } else if e.name !in acc.dir {
      var sub := e.target.obj.entries;
      RenderPlain(s, sub, prefix + [e.name], pol, Rendering(map[], acc.stats, None));
      RenderDirPlain(s, e, prefix, pol, acc);
    }
  }

  lemma RenderDirPlain(s: Store, e: TreeEntry, prefix: Path, pol: Policy, acc: Rendering)
    requires Honest(s) && PlainEntry(e) && e.kind.TreeKind? && FullyStored(s, e.target)
    requires acc.error.None? && e.name !in acc.dir
    requires var sub, empty := e.target.obj.entries, Rendering(map[], acc.stats, None);
             RendersFully(sub, empty, RenderAll(s, sub, prefix + [e.name], pol, empty))
    ensures RenderOne(s, e, prefix, pol, acc)
            == Rendering(acc.dir[e.name := Overlaid(acc.dir, e)], Weigh(e, acc.stats), None)
  {
    var sub, empty := e.target.obj.entries, Rendering(map[], acc.stats, None);
    var r := RenderAll(s, sub, prefix + [e.name], pol, empty);
    OverlayOnNothing(sub);
    assert map[] + Overlay(sub, map[]) == Rendered(sub);
    assert r.dir == Rendered(sub);
  }

  lemma RenderLeafPlain(s: Store, e: TreeEntry, prefix: Path, pol: Policy, acc: Rendering)
    requires Honest(s) && PlainEntry(e) && !e.kind.TreeKind? && FullyStored(s, e.target) && acc.error.None?
    ensures var next := RenderOne(s, e, prefix, pol, acc);
            && (next.error.None? <==> FitsOne(e, acc.dir))
            && (FitsOne(e, acc.dir) ==>
                  next == Rendering(acc.dir[e.name := Overlaid(acc.dir, e)], Weigh(e, acc.stats), None))
  {
  }

  /** Rendering a stored plain tree renders it fully. */
  lemma {:induction false} RenderPlain(s: Store, es: seq<TreeEntry>, prefix: Path, pol: Policy, acc: Rendering)
    requires Honest(s) && Sorted(es) && Plain(es) && TargetsStored(s, es) && acc.error.None?
    ensures RendersFully(es, acc, RenderAll(s, es, prefix, pol, acc))
    decreases es, 1
  {
    if es == [] {
      assert acc.dir + Overlay(es, acc.dir) == acc.dir;
    } else {
      var e := es[0];
      assert e in es;
      RenderOnePlain(s, e, prefix, pol, acc);
      var next := RenderOne(s, e, prefix, pol, acc);
      if FitsOne(e, acc.dir) {
        SortedTail(es);
        RenderPlain(s, es[1..], prefix, pol, next);
        RendersFullyStep(es, acc, next, RenderAll(s, es[1..], prefix, pol, next));
      } else {
        assert RenderAll(s, es[1..], prefix, pol, next) == next;
        FitsStep(es, acc.dir, Special);
      }
    }
  }

  lemma SortedTail(es: seq<TreeEntry>)
    requires Sorted(es) && es != []
    ensures Sorted(es[1..]) && forall e | e in es[1..] :: e in es
  {
  }

  /** Materializing a scanned directory elsewhere reproduces it, minus ignored names. */
  lemma RenderOfScanIsStrip(s: Store, d: Node, ignore: seq<Text>, pol: Policy, st: Stats)
    requires Honest(s) && Scannable(d, ignore) && FullyStored(s, TreeHash(ScanEntries(d, ignore)))
    ensures var r := RenderAll(s, ScanEntries(d, ignore), [], pol, Rendering(map[], st, None));
            r.error.None? && Dir(r.dir) == Strip(d, ignore)
  {
    var es := ScanEntries(d, ignore);
    ScanIsTidy(d, ignore);
    TidyIsPlain(es, ignore);
    RenderPlain(s, es, [], pol, Rendering(map[], st, None));
    OverlayOnNothing(es);
    RenderingOfScan(d, ignore);
    assert map[] + Overlay(es, map[]) == Overlay(es, map[]);
  }

  // --- sealed entries -----------------------------------------------------------------------

  /** The paths holding sealed entries, in tree order. */
  function SealedPaths(s: Store, es: seq<TreeEntry>, prefix: Path): Result<seq<Path>, Error>
    decreases es, 1
  {
    if es == [] then Success([])
    else
      var here :- SealedIn(s, es[0], prefix);
      var rest :- SealedPaths(s, es[1..], prefix);
      Success(here + rest)
  }

  function SealedIn(s: Store, e: TreeEntry, prefix: Path): Result<seq<Path>, Error>
    decreases e, 0
  {
    if e.kind.SealedKind? then Success([prefix + [e.name]])
    else if !e.kind.TreeKind? then Success([])
    else
      match GetTree(s, e.target)
      case Failure(err) => Failure(err)
      case Success(sub) => SealedPaths(s, sub, prefix + [e.name])
  }

  /** The result of a walk that has collected `out` and still faces `rest`. */
  function Resume(out: seq<Path>, rest: Result<seq<Path>, Error>): Result<seq<Path>, Error> {
    if rest.Success? then Success(out + rest.value) else rest
  }

  lemma ResumeStep(s: Store, tree: seq<TreeEntry>, i: nat, prefix: Path, out: seq<Path>)
    requires i < |tree|
    ensures var here := SealedIn(s, tree[i], prefix);
            Resume(out, SealedPaths(s, tree[i..], prefix)) ==
            if here.Failure? then here else Resume(out + here.value, SealedPaths(s, tree[i + 1..], prefix))
  {
    assert tree[i..][0] == tree[i] && tree[i..][1..] == tree[i + 1..];
    var here, rest := SealedIn(s, tree[i], prefix), SealedPaths(s, tree[i + 1..], prefix);
    if here.Success? && rest.Success? {
      assert out + (here.value + rest.value) == out + here.value + rest.value;
    }
  }

  method WalkForSealed(store: ObjectStore, treeHash: Hash, prefix: Path) returns (r: Result<seq<Path>, Error>)
    ensures var got := GetTree(store.files, treeHash);
            r == if got.Failure? then Failure(got.error) else SealedPaths(store.files, got.value, prefix)
    decreases treeHash
  {
    var tree :- GetTree(store.files, treeHash);
    var out: seq<Path> := [];
    var i := 0;
    ghost var all := SealedPaths(store.files, tree, prefix);
    assert tree[0..] == tree && (all.Success? ==> [] + all.value == all.value);
    while i < |tree|
      invariant 0 <= i <= |tree|
      invariant Resume(out, SealedPaths(store.files, tree[i..], prefix)) == SealedPaths(store.files, tree, prefix)
    {
      var e := tree[i];
      ResumeStep(store.files, tree, i, prefix, out);
      if e.kind.SealedKind? {
        out := out + [prefix + [e.name]];
      } else if e.kind.TreeKind? {
        assert e in tree && e.target < treeHash;
        var sub :- WalkForSealed(store, e.target, prefix + [e.name]);
        out := out + sub;
      } else {
        assert out + [] == out;
      }
      i := i + 1;
    }
    assert out + [] == out;
    return Success(out);
  }

  const NOT_PLAIN: set<EntryKind> := {SealedKind, ConflictKind, SubmoduleKind}

  ghost predicate HasKind(es: seq<TreeEntry>, kinds: set<EntryKind>)
    decreases es, 1
  {
    exists e :: e in es && KindIn(e, kinds)
  }

  ghost predicate KindIn(e: TreeEntry, kinds: set<EntryKind>)
    decreases e, 0
  {
    e.kind in kinds || (IsDir(e) && HasKind(e.target.obj.entries, kinds))
  }

  lemma HasKindStep(es: seq<TreeEntry>, kinds: set<EntryKind>)
    requires es != []
    ensures HasKind(es, kinds) <==> KindIn(es[0], kinds) || HasKind(es[1..], kinds)
  {
    assert es[0] in es && forall e | e in es :: e == es[0] || e in es[1..];
  }

  /** Names are valid, every entry leads to an object of the right type, and directories are sorted. */
  ghost predicate Typed(es: seq<TreeEntry>)
    decreases es
  {
    && Sorted(es)
    && forall e | e in es ::
         ValidName(e.name)
         && match e.kind
            case TreeKind => IsTree(e.target) && Typed(e.target.obj.entries)
            case FileKind => e.target.Of? && e.target.obj.BlobObj?
            case SymlinkKind => e.target.Of? && e.target.obj.BlobObj?
            case _ => true
  }

  /** The sealed check is empty exactly on trees without sealed entries. */
  lemma {:induction false} SealedCheckIsExact(s: Store, es: seq<TreeEntry>, prefix: Path)
    requires Honest(s) && Typed(es) && TargetsStored(s, es)
    ensures SealedPaths(s, es, prefix).Success?
    ensures SealedPaths(s, es, prefix).value == [] <==> !HasKind(es, {SealedKind})
    decreases es
  {
    if es != [] {
      var e := es[0];
      assert e in es;
      HasKindStep(es, {SealedKind});
      SealedCheckIsExact(s, es[1..], prefix);
      if e.kind.TreeKind? {
        SealedCheckIsExact(s, e.target.obj.entries, prefix + [e.name]);
      }
    }
  }

  lemma SealedTail(es: seq<TreeEntry>, q: Path)
    requires Sorted(es) && es != [] && q != []
    ensures EntryAt(es, q) ==
            if q[0] != es[0].name then EntryAt(es[1..], q)
            else if |q| == 1 then Some(es[0])
            else if IsDir(es[0]) then EntryAt(es[0].target.obj.entries, q[1..])
            else None
    ensures q[0] == es[0].name ==> EntryAt(es[1..], q).None?
  {
    TailNames(es);
    assert Find(es, es[0].name) == Some(es[0]);
  }

  /** The path is below the prefix and leads to a sealed entry. */
  predicate IsSealedPath(es: seq<TreeEntry>, prefix: Path, p: Path) {
    prefix < p && EntryAt(es, p[|prefix|..]).Some? && EntryAt(es, p[|prefix|..]).value.kind.SealedKind?
  }

  lemma SealedBelow(e: TreeEntry, prefix: Path, p: Path)
    requires prefix < p && p[|prefix|] == e.name
    ensures prefix + [e.name] <= p && (|p| == |prefix| + 1 ==> p == prefix + [e.name])
    ensures p[|prefix|..][0] == e.name && p[|prefix|..][1..] == p[|prefix + [e.name]|..]
  {
  }

  lemma {:induction false} SealedInIff(s: Store, e: TreeEntry, prefix: Path, p: Path)
    requires Honest(s) && Typed([e]) && TargetsStored(s, [e])
    ensures SealedIn(s, e, prefix).Success?
    ensures p in SealedIn(s, e, prefix).value <==>
            && prefix < p && p[|prefix|] == e.name
            && if |p| == |prefix| + 1 then e.kind.SealedKind?
               else IsDir(e) && IsSealedPath(e.target.obj.entries, prefix + [e.name], p)
    decreases e, 0
  {
    assert e in [e];
    if prefix < p && p[|prefix|] == e.name {
      SealedBelow(e, prefix, p);
    }
    if e.kind.TreeKind? {
      assert FullyStored(s, e.target);
      SealedPathsAre(s, e.target.obj.entries, prefix + [e.name], p);
    }
  }

  /** The list has exactly the paths of sealed entries, at any depth. */
  lemma {:induction false} SealedPathsAre(s: Store, es: seq<TreeEntry>, prefix: Path, p: Path)
    requires Honest(s) && Typed(es) && TargetsStored(s, es)
    ensures SealedPaths(s, es, prefix).Success?
    ensures p in SealedPaths(s, es, prefix).value <==> IsSealedPath(es, prefix, p)
    decreases es, 1
  {
    if es != [] {
      assert es[0] in es;
      SortedTail(es);
      SealedInIff(s, es[0], prefix, p);
      SealedPathsAre(s, es[1..], prefix, p);
      if prefix < p {
        SealedTail(es, p[|prefix|..]);
        if p[|prefix|] == es[0].name {
          SealedBelow(es[0], prefix, p);
        }
      }
    }
  }

  /** The blobs of all symlinks hold proper targets. */
  ghost predicate LinksProper(es: seq<TreeEntry>)
    decreases es
  {
    forall e | e in es ::
      (e.kind.SymlinkKind? ==> LeadsToLink(e.target)) && (IsDir(e) ==> LinksProper(e.target.obj.entries))
  }

  /** The blobs of all symlinks are stored. */
  ghost predicate LinksStored(s: Store, es: seq<TreeEntry>)
    decreases es, 1
  {
    forall e | e in es :: LinksStoredIn(s, e)
  }

  ghost predicate LinksStoredIn(s: Store, e: TreeEntry)
    decreases e, 0
  {
    (e.kind.SymlinkKind? ==> e.target in s) && (IsDir(e) ==> LinksStored(s, e.target.obj.entries))
  }

  lemma {:induction false} PlainIff(es: seq<TreeEntry>)
    requires Typed(es)
    ensures Plain(es) <==> !HasKind(es, NOT_PLAIN) && LinksProper(es)
    decreases es
  {
    forall e | e in es && e.kind.TreeKind?
      ensures Plain(e.target.obj.entries)
              <==> !HasKind(e.target.obj.entries, NOT_PLAIN) && LinksProper(e.target.obj.entries)
    {
      PlainIff(e.target.obj.entries);
    }
  }

  /** What the collector follows from the entries is stored. */
  ghost predicate FollowedStored(s: Store, es: seq<TreeEntry>) {
    forall e | e in es && Followed(e.kind) :: Complete(s, e.target)
  }

  lemma StepFirst(s: Store, es: seq<TreeEntry>)
    requires es != []
    ensures Plain(es) && LinksStored(s, es)
            <==> (PlainEntry(es[0]) && LinksStoredIn(s, es[0])) && (Plain(es[1..]) && LinksStored(s, es[1..]))
  {
    assert es[0] in es && forall e | e in es :: e == es[0] || e in es[1..];
  }

  lemma RenderStopsAtLeaf(s: Store, e: TreeEntry, prefix: Path, pol: Policy, acc: Rendering)
    requires Honest(s) && Typed([e]) && FollowedStored(s, [e]) && pol.unseal.None? && !e.kind.TreeKind?
    requires acc.error.None? && e.name !in acc.dir
    ensures RenderOne(s, e, prefix, pol, acc).error.None? <==> PlainEntry(e) && LinksStoredIn(s, e)
    ensures RenderOne(s, e, prefix, pol, acc).dir.Keys <= acc.dir.Keys + {e.name}
  {
    assert e in [e];
    if Followed(e.kind) {
      assert Complete(s, e.target);
    }
  }

  lemma {:induction false} RenderStopsAtEntry(s: Store, e: TreeEntry, prefix: Path, pol: Policy, acc: Rendering)
    requires Honest(s) && Typed([e]) && FollowedStored(s, [e]) && pol.unseal.None?
    requires acc.error.None? && e.name !in acc.dir
    ensures RenderOne(s, e, prefix, pol, acc).error.None? <==> PlainEntry(e) && LinksStoredIn(s, e)
    ensures RenderOne(s, e, prefix, pol, acc).dir.Keys <= acc.dir.Keys + {e.name}
    decreases e, 0
  {
    assert e in [e];
    if e.kind.TreeKind? {
      assert Followed(e.kind) && Complete(s, e.target);
      RenderSucceedsIff(s, e.target.obj.entries, prefix + [e.name], pol, Rendering(map[], acc.stats, None));
    } else {
      RenderStopsAtLeaf(s, e, prefix, pol, acc);
    }
  }

  lemma NamesStayFree(es: seq<TreeEntry>, before: Directory, after: Directory)
    requires Sorted(es) && es != [] && after.Keys <= before.Keys + {es[0].name}
    requires forall e | e in es :: e.name !in before
    ensures forall e | e in es[1..] :: e.name !in after
  {
    TailNames(es);
    forall e | e in es[1..] ensures e.name !in after {
      assert e.name in Names(es[1..]);
    }
  }

  /** Without decryption, and with everything stored that the collector follows, rendering into a directory
      free of the root names succeeds exactly on plain trees whose symlinks still have their blobs. Plain
      trees have no Sealed, Conflict and Submodule entries at any depth, and proper symlink targets. */
  lemma {:induction false} RenderSucceedsIff(s: Store, es: seq<TreeEntry>, prefix: Path, pol: Policy, acc: Rendering)
    requires Honest(s) && Typed(es) && FollowedStored(s, es) && pol.unseal.None?
    requires acc.error.None? && forall e | e in es :: e.name !in acc.dir
    ensures RenderAll(s, es, prefix, pol, acc).error.None? <==> Plain(es) && LinksStored(s, es)
    ensures Plain(es) <==> !HasKind(es, NOT_PLAIN) && LinksProper(es)
    decreases es, 1
  {
    PlainIff(es);
    if es != [] {
      var e, next := es[0], RenderOne(s, es[0], prefix, pol, acc);
      assert e in es;
      StepFirst(s, es);
      RenderStopsAtEntry(s, e, prefix, pol, acc);
      if next.error.None? {
        NamesStayFree(es, acc.dir, next.dir);
        SortedTail(es);
        RenderSucceedsIff(s, es[1..], prefix, pol, next);
      } else {
        assert RenderAll(s, es[1..], prefix, pol, next) == next;
      }
    }
  }

  /** With all content stored no symlink lacks its blob. */
  lemma {:induction false} StoredTargetsHaveLinks(s: Store, es: seq<TreeEntry>)
    requires TargetsStored(s, es)
    ensures LinksStored(s, es)
    decreases es
  {
    forall e | e in es ensures LinksStoredIn(s, e) {
      if IsDir(e) {
        StoredTargetsHaveLinks(s, e.target.obj.entries);
      }
    }
  }

  /** A plain tree of which the collector kept what it follows has all its content stored exactly when its
      symlinks have their blobs. */
  lemma {:induction false} PlainIsFullIff(s: Store, es: seq<TreeEntry>)
    requires Honest(s) && Plain(es) && FollowedStored(s, es)
    ensures TargetsStored(s, es) <==> LinksStored(s, es)
    decreases es
  {
    if TargetsStored(s, es) {
      StoredTargetsHaveLinks(s, es);
    } else {
      var e :| e in es && !e.kind.SubmoduleKind? && !FullyStored(s, e.target);
      assert PlainEntry(e);
      if e.kind.TreeKind? {
        PlainIsFullIff(s, e.target.obj.entries);
      }
      assert !LinksStoredIn(s, e);
    }
  }

  // --- materializing a snapshot -------------------------------------------------------------

  const NO_STATS: Stats := Stats(0, 0, 0, 0)

  /** A snapshot rendered into a new directory. */
  function Materialized(s: Store, h: Hash, pol: Policy): Rendering {
    var empty := Rendering(map[], NO_STATS, None);
    match GetSnap(s, h)
    case Failure(e) => empty.Fail(e)
    case Success(snap) =>
      match GetTree(s, snap.tree)
      case Failure(e) => empty.Fail(e)
      case Success(es) => RenderAll(s, es, [], pol, empty)
  }

  /** The destination must not exist; what was rendered before an error stays. */
  method MaterializeChangeInto(store: ObjectStore, h: Hash, dst: Option<Node>, pol: Policy)
    returns (made: Option<Node>, r: Result<Stats, Error>)
    ensures dst.Some? ==> made == dst && r == Failure(AlreadyExists)
    ensures dst.None? ==>
              var m := Materialized(store.files, h, pol);
              && made == Some(Dir(m.dir))
              && r == if m.error.Some? then Failure(m.error.value) else Success(m.stats)
  {
    if dst.Some? {
      return dst, Failure(AlreadyExists);
    }
    var got := GetSnap(store.files, h);
    if got.Failure? {
      return Some(Dir(map[])), Failure(got.error);
    }
    var done := RenderTree(store, got.value.tree, [], pol, Rendering(map[], NO_STATS, None));
    made := Some(Dir(done.dir));
    r := if done.error.Some? then Failure(done.error.value) else Success(done.stats);
  }

  /** Where everything is stored that the collector follows, a snapshot can be materialized exactly when its
      tree is plain and its symlinks still have their blobs; then it becomes just what the tree stands for. */
  lemma MaterializesIff(s: Store, h: Hash, pol: Policy)
    requires Honest(s) && Complete(s, h) && IsSnap(h) && IsTree(h.obj.snap.tree) && Typed(h.obj.snap.tree.obj.entries)
    requires pol.unseal.None?
    ensures var m, es := Materialized(s, h, pol), h.obj.snap.tree.obj.entries;
            && (m.error.None? <==> Plain(es) && LinksStored(s, es))
            && (m.error.None? ==> m.dir == Rendered(es))
  {
    var es, empty := h.obj.snap.tree.obj.entries, Rendering(map[], NO_STATS, None);
    assert GetTree(s, h.obj.snap.tree) == Success(es);
    RenderSucceedsIff(s, es, [], pol, empty);
    if Plain(es) && LinksStored(s, es) {
      PlainIsFullIff(s, es);
      RenderPlain(s, es, [], pol, empty);
      OverlayOnNothing(es);
      assert map[] + Overlay(es, map[]) == Overlay(es, map[]);
    }
  }

  // --- restore ------------------------------------------------------------------------------

  const PROTECTED: seq<Text> := [TIG_DIR, WORKTREE_DIR, MARKER_FILE]

  /** The names that scans skip, and those that clearing spares. */
  lemma ReservedNames()
    ensures |DEFAULT_IGNORE| == 2 && Spells(DEFAULT_IGNORE[0], ".tig") && Spells(DEFAULT_IGNORE[1], ".tig-worktrees")
    ensures |PROTECTED| == 3 && Spells(PROTECTED[0], ".tig") && Spells(PROTECTED[1], ".tig-worktrees")
    ensures Spells(PROTECTED[2], ".tig-workspace")
  {
    TigName();
    WorktreesName();
    MarkerName();
  }

  function Cleared(root: Directory): Directory {
    map n | n in root && n in PROTECTED :: root[n]
  }

  datatype RestoreOutcome = RestoreOutcome(tree: Hash, render: Stats, removed: nat)

  class Workdir {
    var root: Directory

    /** Deletes every top-level entry that is not protected. */
    method Clear() returns (removed: nat)
      modifies this
      ensures root == Cleared(old(root))
      ensures removed == |set n | n in old(root) && n !in PROTECTED|
    {
      removed := 0;
      ghost var start, gone := root, {};
      var unread := root.Keys;
      while unread != {}
        invariant unread <= start.Keys
        invariant gone == set n | n in start && n !in unread && n !in PROTECTED
        invariant root == map n | n in start && n !in gone :: start[n]
        invariant removed == |gone|
        decreases |unread|
      {
        var n :| n in unread;
        unread := unread - {n};
        if n !in PROTECTED {
          gone := gone + {n};
          root := root - {n};
          removed := removed + 1;
        }
      }
      assert gone == set n | n in start && n !in PROTECTED;
      assert root == Cleared(start);
    }
  }

  /** Whether the checks of a restore let it touch the working directory. `scanned` is the store after
      the scan that looks for unsaved work; a forced restore does not scan. */
  ghost predicate RestoreAllowed(s: Store, scanned: Store, target: Hash, root: Directory, current: Hash, force: bool,
                                 pol: Policy) {
    && GetSnap(s, target).Success?
    && (pol.unseal.None? ==>
          var es := GetTree(s, GetSnap(s, target).value.tree);
          es.Success? && SealedPaths(s, es.value, []) == Success([]))
    && (!force ==>
          && Scannable(Dir(root), DEFAULT_IGNORE)
          && GetSnap(scanned, current).Success?
          && GetSnap(scanned, current).value.tree == TreeHash(ScanEntries(Dir(root), DEFAULT_IGNORE)))
  }

  /** The error with which the target stops a restore before the working directory is looked at. */
  function StoppedBy(s: Store, target: Hash, pol: Policy): Option<Error> {
    match GetSnap(s, target)
    case Failure(e) => Some(e)
    case Success(snap) =>
      if pol.unseal.Some? then None
      else
        match GetTree(s, snap.tree)
        case Failure(e) => Some(e)
        case Success(es) =>
          match SealedPaths(s, es, [])
          case Failure(e) => Some(e)
          case Success(paths) => if paths == [] then None else Some(SealedPresent)
  }

  /** The working directory scans to another tree than that of the current snapshot, and that matters. */
  ghost predicate IsDirty(scanned: Store, root: Directory, current: Hash, force: bool) {
    && !force && Scannable(Dir(root), DEFAULT_IGNORE) && GetSnap(scanned, current).Success?
    && GetSnap(scanned, current).value.tree != TreeHash(ScanEntries(Dir(root), DEFAULT_IGNORE))
  }

  method RestoreTreeInto(store: ObjectStore, target: Hash, wd: Workdir, current: Hash, force: bool, pol: Policy)
    returns (r: Result<RestoreOutcome, Error>)
    modifies store, wd
    ensures Extends(old(store.files), store.files)
    ensures !RestoreAllowed(old(store.files), store.files, target, old(wd.root), current, force, pol) ==>
              r.Failure? && wd.root == old(wd.root)
    ensures RestoreAllowed(old(store.files), store.files, target, old(wd.root), current, force, pol) ==>
              var es := GetTree(store.files, GetSnap(old(store.files), target).value.tree);
              var start := Rendering(Cleared(old(wd.root)), NO_STATS, None);
              var done := if es.Failure? then start.Fail(es.error) else RenderAll(store.files, es.value, [], pol, start);
              && wd.root == done.dir
              && (r.Success? <==> done.error.None?)
              && (r.Failure? ==> r.error == done.error.value)
              && (r.Success? ==> r.value == RestoreOutcome(GetSnap(old(store.files), target).value.tree, done.stats,
                                                           |set n | n in old(wd.root) && n !in PROTECTED|))
    ensures StoppedBy(old(store.files), target, pol).Some? ==>
              r == Failure(StoppedBy(old(store.files), target, pol).value) && store.files == old(store.files)
    ensures StoppedBy(old(store.files), target, pol).None? && IsDirty(store.files, old(wd.root), current, force) ==>
              r == Failure(Dirty)
  {
    var snap :- GetSnap(store.files, target);
    if pol.unseal.None? {
      var sealed :- WalkForSealed(store, snap.tree, []);
      if sealed != [] {
        return Failure(SealedPresent);
      }
    }
    if !force {
      var now :- Scan.ScanDir(store, Dir(wd.root), DEFAULT_IGNORE);
      var currentSnap :- GetSnap(store.files, current);
      if now != currentSnap.tree {
        return Failure(Dirty);
      }
    }
    var removed := wd.Clear();
    var done := RenderTree(store, snap.tree, [], pol, Rendering(wd.root, NO_STATS, None));
    wd.root := done.dir;
    if done.error.Some? {
      return Failure(done.error.value);
    }
    return Success(RestoreOutcome(snap.tree, done.stats, removed));
  }

  /** The tree has its own marker file, and its executable bit covers the one on disk. */
  predicate MarkerCovered(es: seq<TreeEntry>, root: Directory) {
    match Find(es, MARKER_FILE)
    case None => false
    case Some(e) => MARKER_FILE in root && root[MARKER_FILE].File? && root[MARKER_FILE].exec ==> IsExecutable(e.mode)
  }

  /** A marker file survives the clearing, and the default scan does not ignore it. So a restored
      working directory scans back to the target tree exactly when there was no marker, or the
      tree has its own file of that name whose executable bit covers the old one. */
  lemma RestoreThenScanIff(s: Store, es: seq<TreeEntry>, root: Directory, pol: Policy)
    requires Honest(s) && Tidy(es, DEFAULT_IGNORE) && TargetsStored(s, es)
    requires RenderAll(s, es, [], pol, Rendering(Cleared(root), NO_STATS, None)).error.None?
    ensures var d := Dir(RenderAll(s, es, [], pol, Rendering(Cleared(root), NO_STATS, None)).dir);
            Scannable(d, DEFAULT_IGNORE) && ScanEntries(d, DEFAULT_IGNORE) == es
            <==> MARKER_FILE !in root || MarkerCovered(es, root)
  {
    TidyIsPlain(es, DEFAULT_IGNORE);
    RenderPlain(s, es, [], pol, Rendering(Cleared(root), NO_STATS, None));
    var d := Dir(RenderAll(s, es, [], pol, Rendering(Cleared(root), NO_STATS, None)).dir);
    MarkerIsNotIgnored();
    if MARKER_FILE !in root || MarkerCovered(es, root) {
      ScanOfRendering(es, DEFAULT_IGNORE);
      OverlaidOutsideIgnored(es, root);
      SameScan(d, Dir(Rendered(es)), DEFAULT_IGNORE);
    } else {
      ScanLookup(d, DEFAULT_IGNORE, MARKER_FILE);
      ModesRoundTrip();
    }
  }

  /** A marker file that the target does not have spoils the restored directory: it does not scan back. */
  lemma ForeignMarkerSpoilsRestore() returns (s: Store, root: Directory, pol: Policy)
    ensures Honest(s) && Tidy([], DEFAULT_IGNORE) && MARKER_FILE in root
    ensures var r := RenderAll(s, [], [], pol, Rendering(Cleared(root), NO_STATS, None));
            r.error.None? && !(Scannable(Dir(r.dir), DEFAULT_IGNORE) && ScanEntries(Dir(r.dir), DEFAULT_IGNORE) == [])
  {
    s, root, pol := map[], map[MARKER_FILE := File([], false)], Policy(None, false);
    RestoreThenScanIff(s, [], root, pol);
  }

  /** When no foreign marker stays behind, the restored directory is the rendering, up to names the
      scan ignores. */
  lemma OverlaidOutsideIgnored(es: seq<TreeEntry>, root: Directory)
    requires Tidy(es, DEFAULT_IGNORE) && Fits(es, Cleared(root))
    requires MARKER_FILE !in root || MarkerCovered(es, root)
    ensures var d := Dir(Cleared(root) + Overlay(es, Cleared(root)));
            && Kept(d, DEFAULT_IGNORE) == Kept(Dir(Rendered(es)), DEFAULT_IGNORE)
            && forall n | n in Kept(d, DEFAULT_IGNORE) :: d.children[n] == Rendered(es)[n]
  {
    var d := Dir(Cleared(root) + Overlay(es, Cleared(root)));
    forall n | n in d.children && n !in DEFAULT_IGNORE
      ensures n in Names(es) && d.children[n] == Rendered(es)[n]
    {
      if n in Cleared(root) {
        assert n == MARKER_FILE;
      }
      var e := Find(es, n).value;
      assert e in es;
    }
  }

  lemma MarkerIsNotIgnored()
    ensures MARKER_FILE !in DEFAULT_IGNORE
  {
    assert |MARKER_FILE| == |WORKTREE_DIR| && MARKER_FILE[9] != WORKTREE_DIR[9];
  }

  lemma SameScannable(a: Node, b: Node, ignore: seq<Text>)
    requires a.Dir? && b.Dir? && Scannable(b, ignore)
    requires Kept(a, ignore) == Kept(b, ignore)
    requires forall n | n in Kept(a, ignore) :: a.children[n] == b.children[n]
    ensures Scannable(a, ignore)
  {
    forall n | n in a.children && n !in ignore
      ensures ValidName(n) && !a.children[n].Special? && (a.children[n].Dir? ==> Scannable(a.children[n], ignore))
    {
      assert n in Kept(a, ignore);
      assert n in Kept(b, ignore);
      assert a.children[n] == b.children[n];
    }
  }

  lemma SameScanLookup(a: Node, b: Node, ignore: seq<Text>, n: Text)
    requires a.Dir? && b.Dir? && Kept(a, ignore) == Kept(b, ignore)
    requires n in Kept(a, ignore) ==> a.children[n] == b.children[n]
    ensures Find(ScanEntries(a, ignore), n) == Find(ScanEntries(b, ignore), n)
    ensures Sorted(ScanEntries(a, ignore)) && Sorted(ScanEntries(b, ignore))
  {
    ScanLookup(a, ignore, n);
    ScanLookup(b, ignore, n);
    assert n in Kept(a, ignore) <==> n in Kept(b, ignore);
  }

  /** Directories that agree outside ignored names scan alike. */
  lemma SameScan(a: Node, b: Node, ignore: seq<Text>)
    requires a.Dir? && b.Dir? && Scannable(b, ignore)
    requires Kept(a, ignore) == Kept(b, ignore)
    requires forall n | n in Kept(a, ignore) :: a.children[n] == b.children[n]
    ensures Scannable(a, ignore) && ScanEntries(a, ignore) == ScanEntries(b, ignore)
  {
    SameScannable(a, b, ignore);
    SameScanLookup(a, b, ignore, []);
    forall n ensures Find(ScanEntries(a, ignore), n) == Find(ScanEntries(b, ignore), n) {
      SameScanLookup(a, b, ignore, n);
    }
    SameLookups(ScanEntries(a, ignore), ScanEntries(b, ignore));
  }

  /** What an unforced restore clears is what the current snapshot renders to, as far as the scan for
      unsaved work looks. */
  lemma UnforcedRestoreClearsWhatWasScanned(s: Store, scanned: Store, target: Hash, root: Directory, current: Hash, pol: Policy)
    requires RestoreAllowed(s, scanned, target, root, current, false, pol)
    ensures Dir(Rendered(GetSnap(scanned, current).value.tree.obj.entries)) == Strip(Dir(root), DEFAULT_IGNORE)
  {
    RenderingOfScan(Dir(root), DEFAULT_IGNORE);
  }

  /** No name at any depth below the node is ignored by the scan. */
  predicate NothingIgnoredBelow(node: Node, ignore: seq<Text>) {
    node.Dir? ==> forall n | n in node.children :: n !in ignore && NothingIgnoredBelow(node.children[n], ignore)
  }

  lemma {:induction false} StripKeepsIff(node: Node, ignore: seq<Text>)
    ensures Strip(node, ignore) == node <==> NothingIgnoredBelow(node, ignore)
    decreases node
  {
    if node.Dir? {
      var kept := Strip(node, ignore).children;
      forall n | n in node.children
        ensures Strip(node.children[n], ignore) == node.children[n] <==> NothingIgnoredBelow(node.children[n], ignore)
      {
        StripKeepsIff(node.children[n], ignore);
      }
      if NothingIgnoredBelow(node, ignore) {
        assert kept == node.children;
      } else {
        var n :| n in node.children && !(n !in ignore && NothingIgnoredBelow(node.children[n], ignore));
        assert n !in kept || kept[n] != node.children[n];
      }
    }
  }

  /** The cleared entry is, whole, in the rendering of the tree. */
  predicate Recoverable(n: Text, root: Directory, es: seq<TreeEntry>)
    requires n in root
  {
    n in Rendered(es) && Rendered(es)[n] == root[n]
  }

  /** The scan ignores names at every depth, but clearing protects them only at the top. So an unforced
      restore loses nothing that the current snapshot does not have exactly when no entry it clears has
      an ignored name below it. */
  lemma UnforcedRestoreLosesNothingIff(s: Store, scanned: Store, target: Hash, root: Directory, current: Hash, pol: Policy)
    requires RestoreAllowed(s, scanned, target, root, current, false, pol)
    ensures (forall n | n in root && n !in Cleared(root) ::
               Recoverable(n, root, GetSnap(scanned, current).value.tree.obj.entries))
            <==> forall n | n in root && n !in Cleared(root) :: NothingIgnoredBelow(root[n], DEFAULT_IGNORE)
  {
    UnforcedRestoreClearsWhatWasScanned(s, scanned, target, root, current, pol);
    var es := GetSnap(scanned, current).value.tree.obj.entries;
    forall n | n in root && n !in Cleared(root)
      ensures Recoverable(n, root, es) <==> NothingIgnoredBelow(root[n], DEFAULT_IGNORE)
    {
      StripKeepsIff(root[n], DEFAULT_IGNORE);
      assert n !in PROTECTED && n !in DEFAULT_IGNORE;
      assert Rendered(es) == Strip(Dir(root), DEFAULT_IGNORE).children;
    }
  }

  /** The restore is allowed without force and succeeds, and the directory `n` had a nested repository
      that it no longer has. */
  ghost predicate LosesNested(s: Store, h: Hash, root: Directory, n: Text, pol: Policy) {
    && Honest(s) && FullyStored(s, h) && IsSnap(h) && IsTree(h.obj.snap.tree)
    && RestoreAllowed(s, s, h, root, h, false, pol)
    && n in root && root[n].Dir? && TIG_DIR in root[n].children
    && var r := RenderAll(s, h.obj.snap.tree.obj.entries, [], pol, Rendering(Cleared(root), NO_STATS, None));
    r.error.None? && n in r.dir && r.dir[n].Dir? && TIG_DIR !in r.dir[n].children
  }

  /** Restoring the current snapshot itself, unforced, into a directory with a nested repository
      deletes that repository. */
  lemma NestedRepositoryIsLost() returns (s: Store, h: Hash, root: Directory, n: Text, pol: Policy)
    ensures LosesNested(s, h, root, n, pol)
  {
    n, pol := [97], Policy(None, false);
    var nested := Dir(map[TIG_DIR := Dir(map[])]);
    root := map[n := nested];
    var es := [DirEntry(n, [])];
    var snap := Snapshot([], TreeHash(es), [], 0, None);
    h := Of(SnapObj(snap));
    s := map[h := SnapObj(snap), TreeHash(es) := TreeObj(es), TreeHash([]) := TreeObj([])];
    NestedScan(n);
    assert FullyStored(s, TreeHash([])) && FullyStored(s, TreeHash(es)) && FullyStored(s, h);
    NestedHasNoSealed(s, n);
    assert RestoreAllowed(s, s, h, root, h, false, pol);
    NestedRendering(s, n, root, pol);
  }

  lemma NestedRendering(s: Store, n: Text, root: Directory, pol: Policy)
    requires n == [97] && Honest(s) && FullyStored(s, TreeHash([])) && root.Keys == {n}
    ensures var r := RenderAll(s, [DirEntry(n, [])], [], pol, Rendering(Cleared(root), NO_STATS, None));
            r.error.None? && n in r.dir && r.dir[n].Dir? && TIG_DIR !in r.dir[n].children
  {
    var es := [DirEntry(n, [])];
    assert n !in PROTECTED && n !in Cleared(root);
    assert Plain([]) && Plain(es);
    assert Find(es, n) == Some(es[0]);
    RenderPlain(s, es, [], pol, Rendering(Cleared(root), NO_STATS, None));
    var r := RenderAll(s, es, [], pol, Rendering(Cleared(root), NO_STATS, None));
    assert n in Overlay(es, Cleared(root));
    assert r.dir[n] == NodeFor(es[0]) == Dir(Rendered([]));
    assert TIG_DIR !in Names([]);
  }

  lemma NestedScan(n: Text)
    requires n == [97]
    ensures var root := Dir(map[n := Dir(map[TIG_DIR := Dir(map[])])]);
            Scannable(root, DEFAULT_IGNORE) && ScanEntries(root, DEFAULT_IGNORE) == [DirEntry(n, [])]
  {
    var nested := Dir(map[TIG_DIR := Dir(map[])]);
    var root := Dir(map[n := nested]);
    assert TIG_DIR == DEFAULT_IGNORE[0] && n !in DEFAULT_IGNORE;
    assert Scannable(nested, DEFAULT_IGNORE);
    EmptyScanIff(nested.children, DEFAULT_IGNORE);
    ScanLookup(root, DEFAULT_IGNORE, n);
    var es := [DirEntry(n, [])];
    forall m ensures Find(ScanEntries(root, DEFAULT_IGNORE), m) == Find(es, m) {
      ScanLookup(root, DEFAULT_IGNORE, m);
    }
    SameLookups(ScanEntries(root, DEFAULT_IGNORE), es);
  }

  lemma NestedHasNoSealed(s: Store, n: Text)
    requires GetTree(s, TreeHash([])) == Success([])
    ensures SealedPaths(s, [DirEntry(n, [])], []) == Success([])
  {
    var e := DirEntry(n, []);
    assert SealedPaths(s, [e][1..], []) == Success([]);
    assert SealedIn(s, e, []) == Success([]);
    var none: seq<Path> := [];
    assert none + none == none;
  }

  /** The sealed check does not make the render safe: a submodule passes it, and the render then
      fails after the working directory was cleared. */
  lemma SealedCheckIsNotEnough()
    ensures exists es: seq<TreeEntry>, s: Store, pol: Policy ::
              && Honest(s) && Typed(es) && TargetsStored(s, es) && pol.unseal.None?
              && SealedPaths(s, es, []) == Success([])
              && RenderAll(s, es, [], pol, Rendering(map[], NO_STATS, None)).error.Some?
  {
    var e := TreeEntry([97], SubmoduleKind, Foreign(7), 0, None);
    var es, s: Store, pol := [e], map[], Policy(None, false);
    assert es[1..] == [];
    assert SealedPaths(s, es[1..], []) == Success([]);
    assert SealedIn(s, e, []) == Success([]);
    assert SealedPaths(s, es, []).value == [] + [];
    assert RenderAll(s, es, [], pol, Rendering(map[], NO_STATS, None))
        == RenderAll(s, es[1..], [], pol, RenderOne(s, e, [], pol, Rendering(map[], NO_STATS, None)));
    assert ValidName(e.name);
    assert Honest(s) && Typed(es) && TargetsStored(s, es) && pol.unseal.None?;
  }
}
