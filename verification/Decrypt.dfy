/** Rendering with a decryption routine. */
module Decrypt {
  import opened Wrappers
  import opened Lex
  import opened Objects
  import opened Trees
  import opened Disk
  import opened Render

  /** The entries with each sealed one replaced by a regular file of its plain text, or left out where that is
      allowed; `None` where an entry can be neither decrypted nor left out, or is of a kind that cannot be
      rendered. */
  function Unsealed(es: seq<TreeEntry>, prefix: Path, pol: Policy): Option<seq<TreeEntry>>
    requires pol.unseal.Some?
    decreases es, 1
  {
    if es == [] then Some([])
    else
      match (UnsealedEntry(es[0], prefix, pol), Unsealed(es[1..], prefix, pol))
      case (Some(first), Some(rest)) => Some(first + rest)
      case _ => None
  }

  function UnsealedEntry(e: TreeEntry, prefix: Path, pol: Policy): Option<seq<TreeEntry>>
    requires pol.unseal.Some?
    decreases e, 0
  {
    match e.kind
    case FileKind => Some([e])
    case SymlinkKind => Some([e])
    case TreeKind => (
      if !IsTree(e.target) then None
      else
        match Unsealed(e.target.obj.entries, prefix + [e.name], pol)
        case None => None
        case Some(sub) => Some([e.(target := TreeHash(sub))])
      )
    case SealedKind => (
      if !IsSealed(e.target) then None
      else
        match pol.unseal.value(e.target.obj.cipher, Join(prefix + [e.name]))
        case None => if pol.skipUnsealable then Some([]) else None
        case Some(plain) => Some([e.(kind := FileKind, target := Of(BlobObj(plain)))])
      )
    case _ => None
  }

  predicate IsSealed(h: Hash) {
    h.Of? && h.obj.SealedObj?
  }

  /** Sealed entries at any depth. */
  function SealedCount(es: seq<TreeEntry>): nat
    decreases es, 1
  {
    if es == [] then 0 else SealedCountIn(es[0]) + SealedCount(es[1..])
  }

  function SealedCountIn(e: TreeEntry): nat
    decreases e, 0
  {
    if e.kind.SealedKind? then 1 else if IsDir(e) then SealedCount(e.target.obj.entries) else 0
  }

  lemma {:induction false} FileCountAppend(a: seq<TreeEntry>, b: seq<TreeEntry>)
    ensures FileCount(a + b) == FileCount(a) + FileCount(b) && ByteCount(a + b) == ByteCount(a) + ByteCount(b)
  {
    if a == [] {
      assert a + b == b;
    } else {
      assert (a + b)[0] == a[0] && (a + b)[1..] == a[1..] + b;
      FileCountAppend(a[1..], b);
    }
  }

  /** The names of what replaces an entry are its name or none. */
  lemma {:induction false} UnsealedNames(es: seq<TreeEntry>, prefix: Path, pol: Policy)
    requires pol.unseal.Some? && Unsealed(es, prefix, pol).Some?
    ensures forall u | u in Unsealed(es, prefix, pol).value :: exists e | e in es :: e.name == u.name
  {
    if es != [] {
      UnsealedNames(es[1..], prefix, pol);
      var first, rest := UnsealedEntry(es[0], prefix, pol).value, Unsealed(es[1..], prefix, pol).value;
      forall u: TreeEntry | u in first + rest ensures exists e | e in es :: e.name == u.name {
        if u in first {
          assert es[0] in es && es[0].name == u.name;
        } else {
          var e :| e in es[1..] && e.name == u.name;
          assert e in es;
        }
      }
    }
  }

  lemma RenderedAppend(a: seq<TreeEntry>, b: seq<TreeEntry>)
    requires forall x, y | x in a && y in b :: x.name != y.name
    ensures Rendered(a + b) == Rendered(a) + Rendered(b)
    ensures Plain(a + b) <==> Plain(a) && Plain(b)
  {
    FindAppend(a, b);
    assert forall x | x in a + b :: x in a || x in b;
    assert (forall x | x in a :: x in a + b) && forall x | x in b :: x in a + b;
    assert Names(a + b) == Names(a) + Names(b);
  }

  lemma {:induction false} FindAppend(a: seq<TreeEntry>, b: seq<TreeEntry>)
    ensures forall n :: Find(a + b, n) == if n in Names(a) then Find(a, n) else Find(b, n)
  {
    if a == [] {
      assert a + b == b;
    } else {
      FindAppend(a[1..], b);
      assert (a + b)[0] == a[0] && (a + b)[1..] == a[1..] + b;
      assert a[0] in a && forall x | x in a :: x == a[0] || x in a[1..];
    }
  }

  /** The rendering is that of the unsealed entries: it succeeds exactly when they are there and plain, and then
      adds what they stand for. Decrypted files are counted apart, but their bytes with the others. */
  ghost predicate RendersUnsealed(u: Option<seq<TreeEntry>>, files: nat, sealed: nat, acc: Rendering, r: Rendering) {
    && (r.error.None? <==> u.Some? && Plain(u.value))
    && (r.error.None? ==>
          && r.dir == acc.dir + Rendered(u.value)
          && r.stats.files == acc.stats.files + files
          && r.stats.files + r.stats.unsealed == acc.stats.files + acc.stats.unsealed + FileCount(u.value)
          && r.stats.unsealed + r.stats.skipped == acc.stats.unsealed + acc.stats.skipped + sealed
          && r.stats.bytes == acc.stats.bytes + ByteCount(u.value))
  }

  lemma RenderedOne(e: TreeEntry)
    ensures Rendered([e]) == map[e.name := NodeFor(e)] && Rendered([]) == map[]
    ensures Plain([e]) <==> PlainEntry(e)
    ensures FileCount([e]) == FilesIn(e) && ByteCount([e]) == BytesIn(e)
  {
    assert e in [e] && forall x | x in [e] :: x == e;
    assert Names([e]) == {e.name} && Find([e], e.name) == Some(e);
    assert [e][1..] == [];
  }

  lemma UnsealSealed(s: Store, e: TreeEntry, prefix: Path, pol: Policy, acc: Rendering)
    requires Honest(s) && ValidName(e.name) && FullyStored(s, e.target) && pol.unseal.Some? && e.kind.SealedKind?
    requires acc.error.None? && e.name !in acc.dir
    ensures RendersUnsealed(UnsealedEntry(e, prefix, pol), 0, 1, acc, RenderSealed(s, e, prefix, pol, acc))
  {
    if IsSealed(e.target) {
      var plain := pol.unseal.value(e.target.obj.cipher, Join(prefix + [e.name]));
      assert Get(s, e.target) == Success(e.target.obj);
      if plain.Some? {
        RenderedOne(e.(kind := FileKind, target := Of(BlobObj(plain.value))));
      } else {
        RenderedOne(e);
        assert acc.dir + map[] == acc.dir;
      }
    }
  }

  lemma UnsealPlain(s: Store, e: TreeEntry, prefix: Path, pol: Policy, acc: Rendering)
    requires Honest(s) && ValidName(e.name) && FullyStored(s, e.target) && pol.unseal.Some?
    requires (e.kind.FileKind? || e.kind.SymlinkKind?) && e.target.Of? && e.target.obj.BlobObj?
    requires acc.error.None? && e.name !in acc.dir
    ensures RendersUnsealed(Some([e]), FilesIn(e), 0, acc, RenderOne(s, e, prefix, pol, acc))
  {
    RenderedOne(e);
  }

  lemma UnsealLeaf(s: Store, e: TreeEntry, prefix: Path, pol: Policy, acc: Rendering)
    requires Honest(s) && Typed([e]) && TargetsStored(s, [e]) && pol.unseal.Some? && !e.kind.TreeKind?
    requires acc.error.None? && e.name !in acc.dir
    ensures RendersUnsealed(UnsealedEntry(e, prefix, pol), FilesIn(e), SealedCountIn(e), acc, RenderOne(s, e, prefix, pol, acc))
  {
    assert e in [e];
    if e.kind.SealedKind? {
      UnsealSealed(s, e, prefix, pol, acc);
    } else if e.kind.FileKind? || e.kind.SymlinkKind? {
      UnsealPlain(s, e, prefix, pol, acc);
    }
  }

  lemma UnsealedDirRenders(e: TreeEntry, u: Option<seq<TreeEntry>>, acc: Rendering, sub: Rendering)
    requires e.kind.TreeKind? && IsTree(e.target) && ValidName(e.name) && e.name !in acc.dir && acc.error.None?
    requires RendersUnsealed(u, FileCount(e.target.obj.entries), SealedCount(e.target.obj.entries),
                             Rendering(map[], acc.stats, None), sub)
    requires u.Some? ==> Sorted(u.value)
    ensures RendersUnsealed(if u.Some? then Some([e.(target := TreeHash(u.value))]) else None, FilesIn(e), SealedCountIn(e), acc,
                            Rendering(acc.dir[e.name := Dir(sub.dir)], sub.stats, sub.error))
  {
    if u.Some? {
      var x := e.(target := TreeHash(u.value));
      RenderedOne(x);
      assert map[] + Rendered(u.value) == Rendered(u.value);
      assert acc.dir + map[e.name := NodeFor(x)] == acc.dir[e.name := NodeFor(x)];
    }
  }

  lemma SortedAppend(n: Text, first: seq<TreeEntry>, rest: seq<TreeEntry>)
    requires |first| <= 1 && (forall x | x in first :: x.name == n) && Sorted(rest)
    requires forall y | y in rest :: Less(n, y.name)
    ensures Sorted(first + rest)
  {
  }

  lemma {:induction false} UnsealedIsSorted(es: seq<TreeEntry>, prefix: Path, pol: Policy)
    requires pol.unseal.Some? && Sorted(es) && Unsealed(es, prefix, pol).Some?
    ensures Sorted(Unsealed(es, prefix, pol).value)
  {
    if es != [] {
      SortedTail(es);
      UnsealedIsSorted(es[1..], prefix, pol);
      UnsealedNames(es[1..], prefix, pol);
      var rest := Unsealed(es[1..], prefix, pol).value;
      forall y | y in rest ensures Less(es[0].name, y.name) {
        var e :| e in es[1..] && e.name == y.name;
        var k :| 0 < k < |es| && es[k] == e;
      }
      SortedAppend(es[0].name, UnsealedEntry(es[0], prefix, pol).value, rest);
    }
  }

  lemma {:induction false} UnsealEntryRenders(s: Store, e: TreeEntry, prefix: Path, pol: Policy, acc: Rendering)
    requires Honest(s) && Typed([e]) && TargetsStored(s, [e]) && pol.unseal.Some?
    requires acc.error.None? && e.name !in acc.dir
    ensures RendersUnsealed(UnsealedEntry(e, prefix, pol), FilesIn(e), SealedCountIn(e), acc, RenderOne(s, e, prefix, pol, acc))
    decreases e, 0
  {
    assert e in [e];
    if e.kind.TreeKind? {
      assert FullyStored(s, e.target);
      var sub := e.target.obj.entries;
      RenderingUnseals(s, sub, prefix + [e.name], pol, Rendering(map[], acc.stats, None));
      if Unsealed(sub, prefix + [e.name], pol).Some? {
        UnsealedIsSorted(sub, prefix + [e.name], pol);
      }
      assert GetTree(s, e.target) == Success(sub);
      UnsealedDirRenders(e, Unsealed(sub, prefix + [e.name], pol), acc,
                         RenderAll(s, sub, prefix + [e.name], pol, Rendering(map[], acc.stats, None)));
    } else {
      UnsealLeaf(s, e, prefix, pol, acc);
    }
  }

  predicate Apart(a: seq<TreeEntry>, b: seq<TreeEntry>) {
    forall x, y | x in a && y in b :: x.name != y.name
  }

  lemma RenderedInTurn(first: seq<TreeEntry>, rest: seq<TreeEntry>, dir: Directory)
    requires Apart(first, rest)
    ensures dir + Rendered(first) + Rendered(rest) == dir + Rendered(first + rest)
    ensures Plain(first + rest) <==> Plain(first) && Plain(rest)
    ensures FileCount(first + rest) == FileCount(first) + FileCount(rest)
    ensures ByteCount(first + rest) == ByteCount(first) + ByteCount(rest)
  {
    RenderedAppend(first, rest);
    FileCountAppend(first, rest);
    MergeInTurn(dir, Rendered(first), Rendered(rest));
  }

  lemma MergeInTurn(a: Directory, b: Directory, c: Directory)
    ensures a + b + c == a + (b + c)
  {
  }

  /** The entries that take one place after those that take another. */
  lemma RendersInTurn(first: seq<TreeEntry>, rest: Option<seq<TreeEntry>>, f1: nat, s1: nat, f2: nat, s2: nat,
                      acc: Rendering, next: Rendering, r: Rendering)
    requires RendersUnsealed(Some(first), f1, s1, acc, next) && next.error.None?
    requires RendersUnsealed(rest, f2, s2, next, r) && (rest.Some? ==> Apart(first, rest.value))
    ensures RendersUnsealed(if rest.Some? then Some(first + rest.value) else None, f1 + f2, s1 + s2, acc, r)
  {
    if rest.Some? {
      RenderedInTurn(first, rest.value, acc.dir);
    }
  }

  lemma UnsealedApart(es: seq<TreeEntry>, prefix: Path, pol: Policy)
    requires pol.unseal.Some? && es != [] && Sorted(es)
    requires UnsealedEntry(es[0], prefix, pol).Some? && Unsealed(es[1..], prefix, pol).Some?
    ensures Apart(UnsealedEntry(es[0], prefix, pol).value, Unsealed(es[1..], prefix, pol).value)
  {
    UnsealedNames(es[1..], prefix, pol);
    TailNames(es);
    var first, rest := UnsealedEntry(es[0], prefix, pol).value, Unsealed(es[1..], prefix, pol).value;
    forall x, y | x in first && y in rest ensures x.name != y.name {
      var e :| e in es[1..] && e.name == y.name;
      assert e.name in Names(es[1..]);
    }
  }

  lemma UnsealStep(es: seq<TreeEntry>, prefix: Path, pol: Policy, acc: Rendering, next: Rendering, r: Rendering)
    requires pol.unseal.Some? && es != [] && Sorted(es)
    requires RendersUnsealed(UnsealedEntry(es[0], prefix, pol), FilesIn(es[0]), SealedCountIn(es[0]), acc, next) && next.error.None?
    requires RendersUnsealed(Unsealed(es[1..], prefix, pol), FileCount(es[1..]), SealedCount(es[1..]), next, r)
    ensures RendersUnsealed(Unsealed(es, prefix, pol), FileCount(es), SealedCount(es), acc, r)
  {
    var first, rest := UnsealedEntry(es[0], prefix, pol), Unsealed(es[1..], prefix, pol);
    if rest.Some? {
      UnsealedApart(es, prefix, pol);
    }
    RendersInTurn(first.value, rest, FilesIn(es[0]), SealedCountIn(es[0]), FileCount(es[1..]), SealedCount(es[1..]), acc, next, r);
  }

  lemma TypedParts(s: Store, es: seq<TreeEntry>)
    requires Typed(es) && TargetsStored(s, es) && es != []
    ensures Typed([es[0]]) && TargetsStored(s, [es[0]]) && Typed(es[1..]) && TargetsStored(s, es[1..])
  {
    assert es[0] in es;
    SortedTail(es);
  }

  lemma NamesAfterEntry(e: TreeEntry, prefix: Path, pol: Policy, acc: Rendering, next: Rendering)
    requires pol.unseal.Some? && next.error.None?
    requires RendersUnsealed(UnsealedEntry(e, prefix, pol), FilesIn(e), SealedCountIn(e), acc, next)
    ensures next.dir.Keys <= acc.dir.Keys + {e.name}
  {
    var u := UnsealedEntry(e, prefix, pol).value;
    assert forall x | x in u :: x.name == e.name;
    assert Rendered(u).Keys == Names(u);
  }

  /** With an unsealer, rendering into a directory free of the root names renders the unsealed tree. */
  lemma {:induction false} RenderingUnseals(s: Store, es: seq<TreeEntry>, prefix: Path, pol: Policy, acc: Rendering)
    requires Honest(s) && Typed(es) && TargetsStored(s, es) && pol.unseal.Some?
    requires acc.error.None? && forall e | e in es :: e.name !in acc.dir
    ensures RendersUnsealed(Unsealed(es, prefix, pol), FileCount(es), SealedCount(es), acc, RenderAll(s, es, prefix, pol, acc))
    decreases es, 1
  {
    if es == [] {
      assert Rendered([]) == map[] && acc.dir + map[] == acc.dir;
    } else {
      var e, next := es[0], RenderOne(s, es[0], prefix, pol, acc);
      assert e in es;
      TypedParts(s, es);
      UnsealEntryRenders(s, e, prefix, pol, acc);
      if next.error.None? {
        NamesAfterEntry(e, prefix, pol, acc, next);
        NamesStayFree(es, acc.dir, next.dir);
        RenderingUnseals(s, es[1..], prefix, pol, next);
        UnsealStep(es, prefix, pol, acc, next, RenderAll(s, es[1..], prefix, pol, next));
      } else {
        assert RenderAll(s, es[1..], prefix, pol, next) == next;
        FailedUnseal(es, prefix, pol);
      }
    }
  }

  lemma FailedUnseal(es: seq<TreeEntry>, prefix: Path, pol: Policy)
    requires pol.unseal.Some? && es != []
    requires !(UnsealedEntry(es[0], prefix, pol).Some? && Plain(UnsealedEntry(es[0], prefix, pol).value))
    ensures !(Unsealed(es, prefix, pol).Some? && Plain(Unsealed(es, prefix, pol).value))
  {
    if Unsealed(es, prefix, pol).Some? {
      var first, rest := UnsealedEntry(es[0], prefix, pol).value, Unsealed(es[1..], prefix, pol).value;
      var e :| e in first && !PlainEntry(e);
      assert e in first + rest;
    }
  }
}
