/** What a run keeps can be checked out: from the objects that survive to the directories they stand for. */
module Checkout {
  import opened Lex
  import opened Objects
  import opened Trees
  import opened OpLog
  import opened Disk
  import opened Render
  import opened Machine
  import Commands

  /** In every run, a snapshot that a live change or any record of the log names can be materialized, without
      decryption, exactly when its tree is plain and its symlinks still have their blobs. */
  lemma RunMaterializesIff(cs: seq<Cmd>, h: Hash, pol: Policy)
    requires ValidRun(cs) && h in Gc.RootsOf(Run(cs), true) && pol.unseal.None?
    requires IsSnap(h) && IsTree(h.obj.snap.tree) && Typed(h.obj.snap.tree.obj.entries)
    ensures var m, es := Materialized(Run(cs).objects, h, pol), h.obj.snap.tree.obj.entries;
            && (m.error.None? <==> Plain(es) && LinksStored(Run(cs).objects, es))
            && (m.error.None? ==> m.dir == Rendered(es))
  {
    RunKeepsInv(cs);
    RunKeepsEverythingNamed(cs);
    MaterializesIff(Run(cs).objects, h, pol);
  }

  lemma {:induction false} LogOnlyGrows(cs: seq<Cmd>, ds: seq<Cmd>)
    ensures Run(cs).ops <= Run(cs + ds).ops
    decreases |ds|
  {
    if ds == [] {
      assert cs + ds == cs;
    } else {
      var init, c := ds[..|ds| - 1], ds[|ds| - 1];
      assert (cs + ds)[..|cs + ds| - 1] == cs + init && (cs + ds)[|cs + ds| - 1] == c;
      LogOnlyGrows(cs, init);
      if Exec(Run(cs + init), c).Success? {
        Commands.CommandsAppendAtMostOne(Run(cs + init), c);
      }
    }
  }

  /** No symlinks at any depth, outside ignored names. */
  predicate NoLinks(d: Node, ignore: seq<Text>) {
    d.Dir? ==> forall n | n in d.children && n !in ignore :: !d.children[n].Link? && NoLinks(d.children[n], ignore)
  }

  lemma {:induction false} NoLinksNoBlobs(s: Store, d: Node, ignore: seq<Text>)
    requires Scannable(d, ignore) && NoLinks(d, ignore)
    ensures LinksStored(s, ScanEntries(d, ignore))
    decreases d
  {
    var es := ScanEntries(d, ignore);
    ScanLookup(d, ignore, []);
    forall e | e in es ensures LinksStoredIn(s, e) {
      ScanLookup(d, ignore, e.name);
      FindMember(es, e);
      if d.children[e.name].Dir? {
        NoLinksNoBlobs(s, d.children[e.name], ignore);
      }
    }
  }

  lemma {:induction false} TidyIsTyped(es: seq<TreeEntry>, ignore: seq<Text>)
    requires Tidy(es, ignore)
    ensures Typed(es)
    decreases es
  {
    forall e | e in es && e.kind.TreeKind? ensures Typed(e.target.obj.entries) {
      TidyIsTyped(e.target.obj.entries, ignore);
    }
  }

  /** The snapshot records a scan of the directory. */
  ghost predicate RecordsScan(op: Op, d: Node, ignore: seq<Text>) {
    && op.kind.Snap? && IsSnap(op.kind.snapshot) && Scannable(d, ignore)
    && op.kind.snapshot.obj.snap.tree == TreeHash(ScanEntries(d, ignore))
  }

  lemma RecordedIsRoot(ops: seq<Op>, op: Op)
    requires op in ops && op.kind.Snap?
    ensures op.kind.snapshot in Gc.LogRoots(ops)
  {
    assert op.kind.snapshot in Gc.OpRoots(op);
  }

  /** A directory whose snap was recorded comes back from every later state of the repository, whatever was
      undone, dropped or collected: exactly, up to ignored names, as long as its symlinks have their blobs. */
  lemma SnappedComesBackIff(cs: seq<Cmd>, ds: seq<Cmd>, op: Op, d: Node, ignore: seq<Text>, pol: Policy)
    requires ValidRun(cs + ds) && op in Run(cs).ops && RecordsScan(op, d, ignore) && pol.unseal.None?
    ensures var s := Run(cs + ds).objects;
            var m := Materialized(s, op.kind.snapshot, pol);
            && (m.error.None? <==> LinksStored(s, ScanEntries(d, ignore)))
            && (m.error.None? ==> Dir(m.dir) == Strip(d, ignore))
            && (NoLinks(d, ignore) ==> m.error.None?)
  {
    var s, es := Run(cs + ds).objects, ScanEntries(d, ignore);
    LogOnlyGrows(cs, ds);
    RecordedIsRoot(Run(cs + ds).ops, op);
    ScanIsTidy(d, ignore);
    TidyIsTyped(es, ignore);
    TidyIsPlain(es, ignore);
    RunMaterializesIff(cs + ds, op.kind.snapshot, pol);
    RenderingOfScan(d, ignore);
    if NoLinks(d, ignore) {
      NoLinksNoBlobs(s, d, ignore);
    }
  }
}
