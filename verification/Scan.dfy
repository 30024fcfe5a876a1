/** The recursive scanner: working directory to stored tree. */
module Scan {
  import opened Wrappers
  import opened Lex
  import opened Objects
  import opened Trees
  import opened Disk

  /** Reads the directory in whatever order the system lists it, keeping the names sorted. */
  method ReadNames(d: Node, ignore: seq<Text>) returns (names: seq<Text>)
    requires d.Dir?
    ensures forall n :: n in names <==> n in Kept(d, ignore)
    ensures Ascending(names)
  {
    names := [];
    var unread := d.children.Keys;
    while unread != {}
      invariant unread <= d.children.Keys
      invariant forall n :: n in names <==> n in Kept(d, ignore) && n !in unread
      invariant Ascending(names)
      decreases |unread|
    {
      var n :| n in unread;
      unread := unread - {n};
      if n !in ignore {
        Sorting.InsertAscends(n, names);
        var next := Sorting.InsertBy(Sorting.Itself, n, names);
        forall m ensures m in next <==> m == n || m in names {
          assert m in next <==> m in multiset(next);
        }
        names := next;
      }
    }
  }

  /** The tree built so far has exactly the entries of the given names. */
  ghost predicate Built(es: seq<TreeEntry>, d: Node, names: seq<Text>, ignore: seq<Text>)
    requires d.Dir? && forall n | n in names :: n in d.children
  {
    && Sorted(es)
    && forall m :: Find(es, m) == if m in names then Some(EntryFor(m, d.children[m], ignore)) else None
  }

  /** The objects of the given names are stored. */
  ghost predicate Stored(s: Store, d: Node, names: seq<Text>, ignore: seq<Text>)
    requires d.Dir? && forall n | n in names :: n in d.children
  {
    forall n | n in names :: FullyStored(s, EntryFor(n, d.children[n], ignore).target)
  }

  ghost predicate EntryOk(n: Text, node: Node, ignore: seq<Text>) {
    ValidName(n) && !node.Special? && (node.Dir? ==> Scannable(node, ignore))
  }

  ghost predicate NamesOk(d: Node, names: seq<Text>, ignore: seq<Text>)
    requires d.Dir? && forall n | n in names :: n in d.children
  {
    forall n | n in names :: EntryOk(n, d.children[n], ignore)
  }

  lemma BuiltStep(es: seq<TreeEntry>, d: Node, names: seq<Text>, n: Text, ignore: seq<Text>)
    requires d.Dir? && (forall m | m in names :: m in d.children) && n in d.children
    requires Built(es, d, names, ignore)
    ensures Built(Insert(es, EntryFor(n, d.children[n], ignore)), d, names + [n], ignore)
  {
    var e := EntryFor(n, d.children[n], ignore);
    InsertSorted(es, e);
    forall m ensures Find(Insert(es, e), m) ==
                     if m in names + [n] then Some(EntryFor(m, d.children[m], ignore)) else None
    {
      FindInsert(es, e, m);
    }
  }

  lemma StoredStep(s: Store, s': Store, d: Node, names: seq<Text>, n: Text, ignore: seq<Text>)
    requires d.Dir? && (forall m | m in names :: m in d.children) && n in d.children
    requires Stored(s, d, names, ignore) && Extends(s, s')
    requires FullyStored(s', EntryFor(n, d.children[n], ignore).target)
    ensures Stored(s', d, names + [n], ignore)
  {
    forall m | m in names ensures FullyStored(s', EntryFor(m, d.children[m], ignore).target) {
      FullyStoredExtends(s, s', EntryFor(m, d.children[m], ignore).target);
    }
  }

  lemma BuiltIsScan(es: seq<TreeEntry>, d: Node, names: seq<Text>, ignore: seq<Text>)
    requires d.Dir? && (forall n :: n in names <==> n in Kept(d, ignore)) && Built(es, d, names, ignore)
    ensures es == ScanEntries(d, ignore)
  {
    ScanLookup(d, ignore, []);
    forall m ensures Find(es, m) == Find(ScanEntries(d, ignore), m) {
      ScanLookup(d, ignore, m);
    }
    SameLookups(es, ScanEntries(d, ignore));
  }

  lemma ScanIsStored(s: Store, d: Node, names: seq<Text>, ignore: seq<Text>)
    requires d.Dir? && (forall n :: n in names <==> n in Kept(d, ignore)) && Stored(s, d, names, ignore)
    requires TreeHash(ScanEntries(d, ignore)) in s && s[TreeHash(ScanEntries(d, ignore))] == TreeObj(ScanEntries(d, ignore))
    ensures FullyStored(s, TreeHash(ScanEntries(d, ignore)))
  {
    var es := ScanEntries(d, ignore);
    ScanLookup(d, ignore, []);
    forall e | e in es ensures FullyStored(s, e.target) {
      FindMember(es, e);
      ScanLookup(d, ignore, e.name);
      assert e.name in names;
    }
  }

  lemma AllNamesOk(d: Node, names: seq<Text>, ignore: seq<Text>)
    requires d.Dir? && (forall n :: n in names <==> n in Kept(d, ignore)) && NamesOk(d, names, ignore)
    ensures Scannable(d, ignore)
  {
    forall n | n in d.children && n !in ignore ensures EntryOk(n, d.children[n], ignore) {
      assert n in names;
    }
  }

  /** The root is stored once all children are. */
  lemma RootIsStored(s: Store, s': Store, d: Node, names: seq<Text>, ignore: seq<Text>)
    requires d.Dir? && (forall n :: n in names <==> n in Kept(d, ignore)) && Stored(s, d, names, ignore)
    requires Honest(s') && Extends(s, s') && TreeHash(ScanEntries(d, ignore)) in s'
    ensures FullyStored(s', TreeHash(ScanEntries(d, ignore)))
  {
    forall n | n in names ensures FullyStored(s', EntryFor(n, d.children[n], ignore).target) {
      FullyStoredExtends(s, s', EntryFor(n, d.children[n], ignore).target);
    }
    ScanIsStored(s', d, names, ignore);
  }

  /** Stores every blob and tree below `d` and returns the root hash; fails exactly on what cannot
      be scanned. In a store without corrupted files everything below the root is then readable. */
  method ScanDir(store: ObjectStore, d: Node, ignore: seq<Text>) returns (r: Result<Hash, Error>)
    requires d.Dir?
    modifies store
    ensures Extends(old(store.files), store.files)
    ensures r.Success? <==> Scannable(d, ignore)
    ensures r.Success? ==> r.value == TreeHash(ScanEntries(d, ignore))
    ensures Honest(old(store.files)) ==> Honest(store.files) && (r.Success? ==> FullyStored(store.files, r.value))
    decreases d, 1
  {
    var children := ReadNames(d, ignore);
    assert forall m | m in children :: m in d.children && m !in ignore;
    var tree := new Tree([]);
    var i := 0;
    while i < |children|
      invariant 0 <= i <= |children| && fresh(tree)
      invariant Extends(old(store.files), store.files)
      invariant forall m | m in children[..i] :: m in d.children
      invariant Built(tree.entries, d, children[..i], ignore) && NamesOk(d, children[..i], ignore)
      invariant Honest(old(store.files)) ==> Honest(store.files) && Stored(store.files, d, children[..i], ignore)
    {
      var name := children[i];
      assert name in children && children[..i + 1] == children[..i] + [name];
      ghost var before, entries := store.files, tree.entries;
      var entry :- BuildEntry(store, name, d.children[name], ignore);
      var _ :- tree.Add(entry);
      BuiltStep(entries, d, children[..i], name, ignore);
      if Honest(old(store.files)) {
        StoredStep(before, store.files, d, children[..i], name, ignore);
      }
      i := i + 1;
    }
    assert children[..i] == children;
    BuiltIsScan(tree.entries, d, children, ignore);
    AllNamesOk(d, children, ignore);
    ghost var before := store.files;
    var h := store.Write(TreeObj(tree.entries));
    if Honest(old(store.files)) {
      RootIsStored(before, store.files, d, children, ignore);
    }
    return Success(h);
  }

  method BuildEntry(store: ObjectStore, name: Text, node: Node, ignore: seq<Text>)
    returns (r: Result<TreeEntry, Error>)
    modifies store
    ensures Extends(old(store.files), store.files)
    ensures r.Success? <==> !node.Special? && (node.Dir? ==> Scannable(node, ignore))
    ensures r.Success? ==> r.value == EntryFor(name, node, ignore)
    ensures Honest(old(store.files)) ==>
              Honest(store.files) && (r.Success? ==> FullyStored(store.files, r.value.target))
    decreases node, 2
  {
    match node
    case Dir(_) =>
      var target :- ScanDir(store, node, ignore);
      return Success(TreeEntry(name, TreeKind, target, DIR, None));
    case File(bytes, exec) =>
      var target := store.Write(BlobObj(bytes));
      return Success(TreeEntry(name, FileKind, target, if exec then EXEC else REGULAR, None));
    case Link(link) =>
      var target := store.Write(BlobObj(link));
      return Success(TreeEntry(name, SymlinkKind, target, SYMLINK, None));
    case Special =>
      return Failure(Unsupported);
  }
}
