/** The working directory as a value, and scanning it into a tree. */
module Disk {
  import opened Wrappers
  import opened Lex
  import opened Objects
  import opened Trees
  import opened TreeAlgebra

  predicate Spells(t: Text, s: string) {
    |t| == |s| && forall i | 0 <= i < |s| :: t[i] == s[i] as int
  }

  lemma TigName()
    ensures Spells(TIG_DIR, ".tig")
  {
  }

  lemma WorktreesName()
    ensures Spells(WORKTREE_DIR, ".tig-worktrees")
  {
  }

  lemma MarkerName()
    ensures Spells(MARKER_FILE, ".tig-workspace")
  {
  }

  /** What the system takes for the target of a symlink, among the texts the engine handles. */
  predicate LinkOk(t: Text) {
    t != [] && NUL !in t && IsUtf8(t)
  }

  type LinkTarget = t: Text | LinkOk(t) witness [DOT]

  /** `Special` is a socket, fifo or device. */
  datatype Node = Dir(children: Directory) | File(bytes: Text, exec: bool) | Link(target: LinkTarget) | Special

  type Directory = map<Text, Node>

  const TIG_DIR: Text := [46, 116, 105, 103] // ".tig"
  const WORKTREE_DIR: Text := TIG_DIR + [45, 119, 111, 114, 107, 116, 114, 101, 101, 115] // ".tig-worktrees"
  const MARKER_FILE: Text := TIG_DIR + [45, 119, 111, 114, 107, 115, 112, 97, 99, 101] // ".tig-workspace"

  const DEFAULT_IGNORE: seq<Text> := [TIG_DIR, WORKTREE_DIR]

  /** What a scan accepts: valid names and no special files, outside ignored names. */
  ghost predicate Scannable(d: Node, ignore: seq<Text>) {
    d.Dir? && forall n | n in d.children && n !in ignore ::
                ValidName(n) && !d.children[n].Special?
                && (d.children[n].Dir? ==> Scannable(d.children[n], ignore))
  }

  function Kept(d: Node, ignore: seq<Text>): set<Text>
    requires d.Dir?
  {
    set n | n in d.children && n !in ignore
  }

  ghost function Pick(names: set<Text>): Text
    requires names != {}
    ensures Pick(names) in names
  {
    var n :| n in names;
    n
  }

  /** The entry that records one node. */
  ghost function EntryFor(n: Text, node: Node, ignore: seq<Text>): (e: TreeEntry)
    ensures e.name == n
    decreases node
  {
    match node
    case Dir(_) => DirEntry(n, ScanNames(node, Kept(node, ignore), ignore))
    case File(bytes, exec) => TreeEntry(n, FileKind, Of(BlobObj(bytes)), if exec then EXEC else REGULAR, None)
    case Link(target) => TreeEntry(n, SymlinkKind, Of(BlobObj(target)), SYMLINK, None)
    case Special => TreeEntry(n, ConflictKind, Foreign(0), 0, None)
  }

  /** The entries for the given names of a directory; the order of insertion is left open. */
  ghost function ScanNames(d: Node, names: set<Text>, ignore: seq<Text>): seq<TreeEntry>
    requires d.Dir? && names <= d.children.Keys
    decreases d, |names|
  {
    if names == {} then []
    else
      var n := Pick(names);
      Insert(ScanNames(d, names - {n}, ignore), EntryFor(n, d.children[n], ignore))
  }

  ghost function ScanEntries(d: Node, ignore: seq<Text>): seq<TreeEntry>
    requires d.Dir?
  {
    ScanNames(d, Kept(d, ignore), ignore)
  }

  lemma {:induction false} ScanNamesLookup(d: Node, names: set<Text>, ignore: seq<Text>, m: Text)
    requires d.Dir? && names <= d.children.Keys
    ensures Sorted(ScanNames(d, names, ignore))
    ensures Find(ScanNames(d, names, ignore), m) ==
            if m in names then Some(EntryFor(m, d.children[m], ignore)) else None
    decreases |names|
  {
    if names != {} {
      var n := Pick(names);
      ScanNamesLookup(d, names - {n}, ignore, m);
      InsertSorted(ScanNames(d, names - {n}, ignore), EntryFor(n, d.children[n], ignore));
      FindInsert(ScanNames(d, names - {n}, ignore), EntryFor(n, d.children[n], ignore), m);
    }
  }

  /** A scan is the sorted vector of one entry for each name that is not ignored. */
  lemma ScanLookup(d: Node, ignore: seq<Text>, m: Text)
    requires d.Dir?
    ensures Sorted(ScanEntries(d, ignore))
    ensures Find(ScanEntries(d, ignore), m) ==
            if m in d.children && m !in ignore then Some(EntryFor(m, d.children[m], ignore)) else None
  {
    ScanNamesLookup(d, Kept(d, ignore), ignore, m);
  }

  /** What a scan records of each kind of node. Modes tell executable files, symlinks and directories. */
  lemma ScanRecords(d: Node, ignore: seq<Text>, n: Text)
    requires d.Dir? && n in d.children && n !in ignore
    ensures var e := Find(ScanEntries(d, ignore), n);
            && e.Some? && e.value.name == n && e.value.vis == None
            && var node := d.children[n];
            && (node.File? ==> e.value.kind == FileKind && e.value.target == Of(BlobObj(node.bytes)))
            && (node.File? ==> e.value.mode == if node.exec then EXEC else REGULAR)
            && (node.Link? ==> e.value.kind == SymlinkKind && e.value.target == Of(BlobObj(node.target)) && e.value.mode == SYMLINK)
            && (node.Dir? ==> e.value.kind == TreeKind && e.value.target == TreeHash(ScanEntries(node, ignore)) && e.value.mode == DIR)
  {
    ScanLookup(d, ignore, n);
  }

  // --- rendering, on complete trees ---------------------------------------------------------

  /** A blob with a proper target for a symlink. */
  predicate LeadsToLink(h: Hash) {
    h.Of? && h.obj.BlobObj? && LinkOk(h.obj.bytes)
  }

  /** What an entry becomes on disk. Kinds that are not plain have no plain rendering. */
  function NodeFor(e: TreeEntry): Node
    decreases e, 1
  {
    match e.kind
    case FileKind =>
      if e.target.Of? && e.target.obj.BlobObj? then File(e.target.obj.bytes, IsExecutable(e.mode)) else Special
    case SymlinkKind =>
      if LeadsToLink(e.target) then Link(e.target.obj.bytes) else Special
    case TreeKind =>
      if IsTree(e.target) then Dir(Rendered(e.target.obj.entries)) else Special
    case _ => Special
  }

  function Rendered(es: seq<TreeEntry>): Directory
    decreases es, 2
  {
    map n | n in Names(es) :: NodeFor(Find(es, n).value)
  }

  /** The file system minus ignored names, at every level. */
  function Strip(d: Node, ignore: seq<Text>): Node {
    match d
    case Dir(ch) => Dir(map n | n in ch && n !in ignore :: Strip(ch[n], ignore))
    case _ => d
  }

  /** The trees a scan can produce. */
  ghost predicate Tidy(es: seq<TreeEntry>, ignore: seq<Text>)
    decreases es
  {
    && Sorted(es)
    && forall e | e in es ::
         && ValidName(e.name) && e.name !in ignore && e.vis == None
         && match e.kind
            case FileKind => e.target.Of? && e.target.obj.BlobObj? && e.mode in {REGULAR, EXEC}
            case SymlinkKind => LeadsToLink(e.target) && e.mode == SYMLINK
            case TreeKind => IsTree(e.target) && e.mode == DIR && Tidy(e.target.obj.entries, ignore)
            case _ => false
  }

  lemma {:induction false} TidyIsWellFormed(es: seq<TreeEntry>, ignore: seq<Text>)
    requires Tidy(es, ignore)
    ensures WellFormed(es) && RewrittenForm(es)
    decreases es
  {
    forall e | e in es && e.kind.TreeKind?
      ensures WellFormed(e.target.obj.entries) && RewrittenForm(e.target.obj.entries)
    {
      TidyIsWellFormed(e.target.obj.entries, ignore);
    }
  }

  /** Every scan is tidy. */
  lemma {:induction false} ScanIsTidy(d: Node, ignore: seq<Text>)
    requires Scannable(d, ignore)
    ensures Tidy(ScanEntries(d, ignore), ignore)
    decreases d
  {
    var es := ScanEntries(d, ignore);
    ScanLookup(d, ignore, []);
    forall e | e in es
      ensures e.name in d.children && e.name !in ignore && e == EntryFor(e.name, d.children[e.name], ignore)
    {
      ScanLookup(d, ignore, e.name);
      FindMember(es, e);
    }
    forall n | n in d.children && n !in ignore && d.children[n].Dir?
      ensures Tidy(ScanEntries(d.children[n], ignore), ignore)
    {
      ScanIsTidy(d.children[n], ignore);
    }
  }

  /** Scanning what a tidy tree renders to gives the tree back, so the root hash is the same. */
  lemma {:induction false} ScanOfRendering(es: seq<TreeEntry>, ignore: seq<Text>)
    requires Tidy(es, ignore)
    ensures Scannable(Dir(Rendered(es)), ignore)
    ensures ScanEntries(Dir(Rendered(es)), ignore) == es
    decreases es
  {
    var d := Dir(Rendered(es));
    forall e | e in es && e.kind.TreeKind?
      ensures Scannable(NodeFor(e), ignore) && ScanEntries(NodeFor(e), ignore) == e.target.obj.entries
    {
      ScanOfRendering(e.target.obj.entries, ignore);
    }
    forall e | e in es ensures EntryFor(e.name, NodeFor(e), ignore) == e {
      ModesRoundTrip();
    }
    forall n ensures Find(ScanEntries(d, ignore), n) == Find(es, n) {
      ScanLookup(d, ignore, n);
    }
    ScanLookup(d, ignore, []);
    SameLookups(ScanEntries(d, ignore), es);
  }

  /** The round trip succeeds on exactly the tidy trees. */
  lemma RenderScanRoundTripIff(es: seq<TreeEntry>, ignore: seq<Text>)
    ensures Scannable(Dir(Rendered(es)), ignore) && ScanEntries(Dir(Rendered(es)), ignore) == es
            <==> Tidy(es, ignore)
  {
    if Tidy(es, ignore) {
      ScanOfRendering(es, ignore);
    } else if Scannable(Dir(Rendered(es)), ignore) {
      ScanIsTidy(Dir(Rendered(es)), ignore);
    }
  }

  /** Rendering a scan reproduces the file system without its ignored names. */
  lemma {:induction false} RenderingOfScan(d: Node, ignore: seq<Text>)
    requires Scannable(d, ignore)
    ensures Dir(Rendered(ScanEntries(d, ignore))) == Strip(d, ignore)
    decreases d, 1
  {
    var es, kept := ScanEntries(d, ignore), Strip(d, ignore).children;
    forall n
      ensures n in Names(es) <==> n in kept
      ensures n in Names(es) ==> NodeFor(Find(es, n).value) == kept[n]
    {
      ScanLookup(d, ignore, n);
      if n in kept {
        RenderingOfEntry(n, d.children[n], ignore);
      }
    }
    assert Rendered(es) == kept;
  }

  lemma {:induction false} RenderingOfEntry(n: Text, node: Node, ignore: seq<Text>)
    requires node.Dir? ==> Scannable(node, ignore)
    requires !node.Special?
    ensures NodeFor(EntryFor(n, node, ignore)) == Strip(node, ignore)
    decreases node, 2
  {
    ModesRoundTrip();
    if node.Dir? {
      RenderingOfScan(node, ignore);
    }
  }

  lemma ModesRoundTrip()
    ensures IsExecutable(EXEC) && !IsExecutable(REGULAR)
  {
    assert EXEC == 33261 && REGULAR == 33188;
  }

  // --- editing the disk ---------------------------------------------------------------------

  /** What lies below one name of the disk, a missing directory counting as an empty one. */
  function DiskBelow(d: Directory, n: Text): Directory {
    if n in d && d[n].Dir? then d[n].children else map[]
  }

  /** Puts a non-executable file at a path, creating directories on the way. */
  function WriteDisk(d: Directory, p: Path, bytes: Text): Result<Directory, Error>
    requires p != []
    decreases |p|
  {
    if |p| == 1 then Success(d[p[0] := File(bytes, false)])
    else if p[0] in d && !d[p[0]].Dir? then Failure(NotATree)
    else
      var sub :- WriteDisk(DiskBelow(d, p[0]), p[1..], bytes);
      Success(d[p[0] := Dir(sub)])
  }

  /** Removes a path and the ancestor directories that thereby lose their last scanned name. */
  function DeleteDisk(d: Directory, p: Path, ignore: seq<Text>): Result<Directory, Error>
    requires p != []
    decreases |p|
  {
    if p[0] !in d then Failure(NoEntry)
    else if |p| == 1 then Success(d - {p[0]})
    else if !d[p[0]].Dir? then Failure(NotATree)
    else
      var sub :- DeleteDisk(d[p[0]].children, p[1..], ignore);
      Success(if forall n | n in sub :: n in ignore then d - {p[0]} else d[p[0] := Dir(sub)])
  }

  ghost predicate NoneIgnored(p: Path, ignore: seq<Text>) {
    forall n | n in p :: n !in ignore
  }

  function FileLeaf(bytes: Text): Leaf {
    Leaf(Of(BlobObj(bytes)), FileKind, REGULAR)
  }

  lemma ScanOfUpdate(d: Directory, n: Text, node: Node, ignore: seq<Text>)
    requires n !in ignore
    ensures ScanEntries(Dir(d[n := node]), ignore) ==
            Insert(ScanEntries(Dir(d), ignore), EntryFor(n, node, ignore))
  {
    var es, e := ScanEntries(Dir(d), ignore), EntryFor(n, node, ignore);
    ScanLookup(Dir(d), ignore, n);
    ScanLookup(Dir(d[n := node]), ignore, n);
    InsertSorted(es, e);
    forall m ensures Find(ScanEntries(Dir(d[n := node]), ignore), m) == Find(Insert(es, e), m) {
      ScanLookup(Dir(d), ignore, m);
      ScanLookup(Dir(d[n := node]), ignore, m);
      FindInsert(es, e, m);
    }
    SameLookups(ScanEntries(Dir(d[n := node]), ignore), Insert(es, e));
  }

  lemma ScanOfRemoval(d: Directory, n: Text, ignore: seq<Text>)
    requires n !in ignore
    ensures ScanEntries(Dir(d - {n}), ignore) == Remove(ScanEntries(Dir(d), ignore), n)
  {
    var es := ScanEntries(Dir(d), ignore);
    ScanLookup(Dir(d), ignore, n);
    ScanLookup(Dir(d - {n}), ignore, n);
    RemoveSorted(es, n);
    forall m ensures Find(ScanEntries(Dir(d - {n}), ignore), m) == Find(Remove(es, n), m) {
      ScanLookup(Dir(d), ignore, m);
      ScanLookup(Dir(d - {n}), ignore, m);
      FindRemove(es, n, m);
    }
    SameLookups(ScanEntries(Dir(d - {n}), ignore), Remove(es, n));
  }

  lemma EmptyScanIff(d: Directory, ignore: seq<Text>)
    ensures ScanEntries(Dir(d), ignore) == [] <==> forall n | n in d :: n in ignore
  {
    var es := ScanEntries(Dir(d), ignore);
    forall n ensures n in Names(es) <==> n in d && n !in ignore {
      ScanLookup(Dir(d), ignore, n);
    }
    if es != [] {
      assert es[0] in es && es[0].name in Names(es);
    }
  }

  lemma ScanBelow(d: Directory, n: Text, ignore: seq<Text>)
    requires n !in ignore && (n in d ==> d[n].Dir?)
    ensures var below := Find(ScanEntries(Dir(d), ignore), n);
            && (below.Some? <==> n in d)
            && (below.Some? ==> IsDir(below.value))
            && Below(below) == ScanEntries(Dir(DiskBelow(d, n)), ignore)
  {
    ScanLookup(Dir(d), ignore, n);
    EmptyScanIff(map[], ignore);
    assert n in d ==> d[n] == Dir(DiskBelow(d, n));
  }

  lemma ScannableEdits(d: Directory, n: Text, node: Node, ignore: seq<Text>)
    requires Scannable(Dir(d), ignore)
    ensures Scannable(Dir(d - {n}), ignore)
    ensures ValidName(n) && !node.Special? && (node.Dir? ==> Scannable(node, ignore)) ==> Scannable(Dir(d[n := node]), ignore)
  {
  }

  lemma ScanOfNonDir(d: Directory, n: Text, ignore: seq<Text>)
    requires n !in ignore && n in d && !d[n].Dir?
    ensures Find(ScanEntries(Dir(d), ignore), n).Some? && !IsDir(Find(ScanEntries(Dir(d), ignore), n).value)
  {
    ScanLookup(Dir(d), ignore, n);
  }

  /** Writing through the store agrees with writing to the disk and scanning again, including
      when a file on the way makes both fail. */
  lemma {:induction false} StoreWriteIsDiskWrite(d: Directory, p: Path, bytes: Text, ignore: seq<Text>)
    requires Scannable(Dir(d), ignore) && ValidPath(p) && NoneIgnored(p, ignore)
    ensures WriteDisk(d, p, bytes).Success? ==> Scannable(Dir(WriteDisk(d, p, bytes).value), ignore)
    ensures PutAt(ScanEntries(Dir(d), ignore), p, FileLeaf(bytes)) ==
            match WriteDisk(d, p, bytes)
            case Success(d') => Success(ScanEntries(Dir(d'), ignore))
            case Failure(_) => Failure(NotATree)
    decreases |p|
  {
    assert p[0] in p;
    if |p| == 1 {
      ScanOfUpdate(d, p[0], File(bytes, false), ignore);
      ScannableEdits(d, p[0], File(bytes, false), ignore);
    } else if p[0] !in d || d[p[0]].Dir? {
      ScanBelow(d, p[0], ignore);
      StoreWriteIsDiskWrite(DiskBelow(d, p[0]), p[1..], bytes, ignore);
      var after := WriteDisk(DiskBelow(d, p[0]), p[1..], bytes);
      if after.Success? {
        ScanOfUpdate(d, p[0], Dir(after.value), ignore);
        ScannableEdits(d, p[0], Dir(after.value), ignore);
      }
    } else {
      ScanOfNonDir(d, p[0], ignore);
    }
  }

  /** Deleting through the store agrees with deleting on the disk and scanning again. */
  lemma {:induction false} StoreDeleteIsDiskDelete(d: Directory, p: Path, ignore: seq<Text>)
    requires Scannable(Dir(d), ignore) && ValidPath(p) && NoneIgnored(p, ignore)
    ensures DeleteDisk(d, p, ignore).Success? ==> Scannable(Dir(DeleteDisk(d, p, ignore).value), ignore)
    ensures RemoveAt(ScanEntries(Dir(d), ignore), p) ==
            match DeleteDisk(d, p, ignore)
            case Success(d') => Success(ScanEntries(Dir(d'), ignore))
            case Failure(e) => Failure(e)
    decreases |p|
  {
    assert p[0] in p;
    if |p| == 1 || p[0] !in d {
      ScanLookup(Dir(d), ignore, p[0]);
      ScanOfRemoval(d, p[0], ignore);
      ScannableEdits(d, p[0], Special, ignore);
    } else if d[p[0]].Dir? {
      ScanBelow(d, p[0], ignore);
      StoreDeleteIsDiskDelete(DiskBelow(d, p[0]), p[1..], ignore);
      var after := DeleteDisk(DiskBelow(d, p[0]), p[1..], ignore);
      if after.Success? {
        EmptyScanIff(after.value, ignore);
        ScanOfRemoval(d, p[0], ignore);
        ScanOfUpdate(d, p[0], Dir(after.value), ignore);
        ScannableEdits(d, p[0], Dir(after.value), ignore);
      }
    } else {
      ScanOfNonDir(d, p[0], ignore);
    }
  }

  /** A write through the store below an ignored name is out of reach of any scan. */
  lemma IgnoredWriteIsNeverScanned(es: seq<TreeEntry>, p: Path, k: nat, bytes: Text, ignore: seq<Text>, d: Node)
    requires WellFormed(es) && p != [] && PutAt(es, p, FileLeaf(bytes)).Success?
    requires k < |p| && p[k] in ignore && Scannable(d, ignore)
    ensures ScanEntries(d, ignore) != PutAt(es, p, FileLeaf(bytes)).value
  {
    WrittenPathResolves(es, p, p[..k + 1], FileLeaf(bytes));
    NoScanResolves(PutAt(es, p, FileLeaf(bytes)).value, p[..k + 1], ignore, d);
  }

  /** A tree in which a path ending in an ignored name resolves is no scan. */
  lemma NoScanResolves(es: seq<TreeEntry>, q: Path, ignore: seq<Text>, d: Node)
    requires q != [] && q[|q| - 1] in ignore && EntryAt(es, q).Some? && Scannable(d, ignore)
    ensures ScanEntries(d, ignore) != es
  {
    if ScanEntries(d, ignore) == es {
      ScanIsTidy(d, ignore);
      TidyHasNoIgnored(es, q, ignore);
    }
  }

  lemma WrittenPathResolves(es: seq<TreeEntry>, p: Path, q: Path, leaf: Leaf)
    requires WellFormed(es) && q != [] && q <= p && !leaf.kind.TreeKind? && PutAt(es, p, leaf).Success?
    ensures EntryAt(PutAt(es, p, leaf).value, q).Some?
  {
    PutThenLookup(es, p, leaf, q);
    assert q == p || q < p;
  }

  lemma {:induction false} TidyHasNoIgnored(es: seq<TreeEntry>, q: Path, ignore: seq<Text>)
    requires Tidy(es, ignore) && q != [] && EntryAt(es, q).Some?
    ensures q[|q| - 1] !in ignore
    decreases |q|
  {
    if |q| > 1 {
      TidyHasNoIgnored(Find(es, q[0]).value.target.obj.entries, q[1..], ignore);
    }
  }
}
