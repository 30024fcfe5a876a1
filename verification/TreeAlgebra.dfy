/** Path edits on whole trees, as functions on the trees themselves.

    A tree is given by the entries of its root; sub-trees hang below the hashes of directory
    entries. The store-level algorithms of `TreeEdit` are shown to compute these functions. */
module TreeAlgebra {
  import opened Wrappers
  import opened Lex
  import opened Objects
  import opened Trees

  predicate ValidPath(p: Path) {
    p != [] && forall n | n in p :: ValidName(n)
  }

  /** Sorted at every level, with valid names, and every directory entry leading to a tree. */
  ghost predicate WellFormed(es: seq<TreeEntry>)
    decreases es
  {
    && Sorted(es)
    && forall e | e in es ::
         && ValidName(e.name)
         && (e.kind.TreeKind? ==> IsTree(e.target) && WellFormed(e.target.obj.entries))
  }

  /** What is written at the end of a path. */
  datatype Leaf = Leaf(target: Hash, kind: EntryKind, mode: nat) {
    function At(n: Text): TreeEntry {
      TreeEntry(n, kind, target, mode, None)
    }
  }

  function DirEntry(n: Text, sub: seq<TreeEntry>): TreeEntry {
    TreeEntry(n, TreeKind, TreeHash(sub), DIR, None)
  }

  /** The entry a path resolves to. */
  function EntryAt(es: seq<TreeEntry>, p: Path): Option<TreeEntry>
    requires p != []
    decreases |p|
  {
    match Find(es, p[0])
    case None => None
    case Some(e) =>
      if |p| == 1 then Some(e)
      else if IsDir(e) then EntryAt(e.target.obj.entries, p[1..])
      else None
  }

  function PutAt(es: seq<TreeEntry>, p: Path, leaf: Leaf): Result<seq<TreeEntry>, Error>
    requires p != []
    decreases |p|
  {
    if |p| == 1 then Success(Insert(es, leaf.At(p[0])))
    else
      var below := Find(es, p[0]);
      if below.Some? && !IsDir(below.value) then Failure(NotATree)
      else
        var sub :- PutAt(Below(below), p[1..], leaf);
        Success(Insert(es, DirEntry(p[0], sub)))
  }

  /** The entries below a directory entry; an absent directory counts as an empty one. */
  function Below(e: Option<TreeEntry>): seq<TreeEntry>
    requires e.Some? ==> IsDir(e.value)
  {
    if e.Some? then e.value.target.obj.entries else []
  }

  function RemoveAt(es: seq<TreeEntry>, p: Path): Result<seq<TreeEntry>, Error>
    requires p != []
    decreases |p|
  {
    match Find(es, p[0])
    case None => Failure(NoEntry)
    case Some(e) =>
      if |p| == 1 then Success(Remove(es, p[0]))
      else if !IsDir(e) then Failure(NotATree)
      else
        var sub :- RemoveAt(e.target.obj.entries, p[1..]);
        Success(if sub == [] then Remove(es, p[0]) else Insert(es, DirEntry(p[0], sub)))
  }

  // --- writing ------------------------------------------------------------------------------

  lemma PrefixTail(p: Path, k: nat)
    requires 1 < k <= |p|
    ensures p[..k][0] == p[0] && p[..k][1..] == p[1..][..k - 1]
  {
  }

  /** A write succeeds exactly when every proper ancestor that exists is a directory. */
  lemma {:induction false} PutSucceedsIff(es: seq<TreeEntry>, p: Path, leaf: Leaf)
    requires p != []
    ensures PutAt(es, p, leaf).Success?
            <==> forall k | 0 < k < |p| :: EntryAt(es, p[..k]).Some? ==> IsDir(EntryAt(es, p[..k]).value)
    decreases |p|
  {
    if |p| > 1 {
      assert p[..1] == [p[0]];
      assert EntryAt(es, p[..1]) == Find(es, p[0]);
      var below := Find(es, p[0]);
      if below.None? || IsDir(below.value) {
        PutSucceedsIff(Below(below), p[1..], leaf);
        forall k | 1 < k < |p| ensures EntryAt(es, p[..k]) == EntryAt(Below(below), p[1..][..k - 1]) {
          PrefixTail(p, k);
        }
        forall j | 0 < j < |p[1..]|
          ensures EntryAt(es, p[..j + 1]) == EntryAt(Below(below), p[1..][..j])
        {
          PrefixTail(p, j + 1);
        }
      }
    }
  }

  lemma {:induction false} PutWellFormed(es: seq<TreeEntry>, p: Path, leaf: Leaf)
    requires WellFormed(es) && ValidPath(p) && !leaf.kind.TreeKind?
    requires PutAt(es, p, leaf).Success?
    ensures WellFormed(PutAt(es, p, leaf).value)
    ensures PutAt(es, p, leaf).value != []
    decreases |p|
  {
    if |p| == 1 {
      InsertSorted(es, leaf.At(p[0]));
    } else {
      var below := Find(es, p[0]);
      PutWellFormed(Below(below), p[1..], leaf);
      InsertSorted(es, DirEntry(p[0], PutAt(Below(below), p[1..], leaf).value));
    }
  }

  /** Paths with the same first component compare like their tails. */
  lemma TailsCompare(p: Path, q: Path)
    requires p != [] && q != [] && p[0] == q[0]
    ensures p <= q <==> p[1..] <= q[1..]
    ensures q <= p <==> q[1..] <= p[1..]
    ensures p == q <==> p[1..] == q[1..]
  {
    assert p == [p[0]] + p[1..] && q == [q[0]] + q[1..];
  }

  /** What every path resolves to after a write: the new entry at the path itself, a directory at
      each proper ancestor, nothing below it, and whatever was there before everywhere else. */
  lemma {:induction false} PutThenLookup(es: seq<TreeEntry>, p: Path, leaf: Leaf, q: Path)
    requires WellFormed(es) && p != [] && q != [] && !leaf.kind.TreeKind?
    requires PutAt(es, p, leaf).Success?
    ensures var after := EntryAt(PutAt(es, p, leaf).value, q);
            && (q == p ==> after == Some(leaf.At(p[|p| - 1])))
            && (q < p ==> after.Some? && IsDir(after.value) && after.value.mode == DIR && after.value.vis == None)
            && (p < q ==> after == None)
            && (Incomparable(p, q) ==> after == EntryAt(es, q))
    decreases |p|
  {
    if |p| == 1 {
      FindInsert(es, leaf.At(p[0]), q[0]);
      assert q[0] == p[0] ==> p <= q;
    } else {
      LookupThroughPut(es, p, leaf, q);
      if q[0] == p[0] {
        TailsCompare(p, q);
        if |q| > 1 {
          PutThenLookup(Below(Find(es, p[0])), p[1..], leaf, q[1..]);
        }
      }
    }
  }

  /** A lookup after a write below `p[0]` either misses that entry or goes on in the new sub-tree. */
  lemma LookupThroughPut(es: seq<TreeEntry>, p: Path, leaf: Leaf, q: Path)
    requires Sorted(es) && |p| > 1 && q != [] && PutAt(es, p, leaf).Success?
    ensures var below := Find(es, p[0]);
            && (below.Some? ==> IsDir(below.value))
            && PutAt(Below(below), p[1..], leaf).Success?
            && var sub := PutAt(Below(below), p[1..], leaf).value;
            EntryAt(PutAt(es, p, leaf).value, q)
            == if q[0] != p[0] then EntryAt(es, q)
               else if |q| == 1 then Some(DirEntry(p[0], sub))
               else EntryAt(sub, q[1..])
    ensures q[0] == p[0] && |q| > 1 ==> EntryAt(es, q) == EntryAt(Below(Find(es, p[0])), q[1..])
  {
    LookupThroughDir(es, p[0], PutAt(Below(Find(es, p[0])), p[1..], leaf).value, q);
  }

  lemma LookupThroughDir(es: seq<TreeEntry>, n: Text, sub: seq<TreeEntry>, q: Path)
    requires Sorted(es) && q != []
    ensures EntryAt(Insert(es, DirEntry(n, sub)), q)
            == if q[0] != n then EntryAt(es, q)
               else if |q| == 1 then Some(DirEntry(n, sub))
               else EntryAt(sub, q[1..])
  {
    FindInsert(es, DirEntry(n, sub), q[0]);
  }

  lemma InsertCommutes(es: seq<TreeEntry>, a: TreeEntry, b: TreeEntry)
    requires Sorted(es) && a.name != b.name
    ensures Insert(Insert(es, a), b) == Insert(Insert(es, b), a)
  {
    InsertSorted(es, a);
    InsertSorted(es, b);
    InsertSorted(Insert(es, a), b);
    InsertSorted(Insert(es, b), a);
    forall n ensures Find(Insert(Insert(es, a), b), n) == Find(Insert(Insert(es, b), a), n) {
      FindInsert(es, a, n);
      FindInsert(es, b, n);
      FindInsert(Insert(es, a), b, n);
      FindInsert(Insert(es, b), a, n);
    }
    SameLookups(Insert(Insert(es, a), b), Insert(Insert(es, b), a));
  }

  lemma InsertOverwrites(es: seq<TreeEntry>, a: TreeEntry, b: TreeEntry)
    requires Sorted(es) && a.name == b.name
    ensures Insert(Insert(es, a), b) == Insert(es, b)
  {
    InsertSorted(es, a);
    InsertSorted(es, b);
    InsertSorted(Insert(es, a), b);
    forall n ensures Find(Insert(Insert(es, a), b), n) == Find(Insert(es, b), n) {
      FindInsert(es, a, n);
      FindInsert(es, b, n);
      FindInsert(Insert(es, a), b, n);
    }
    SameLookups(Insert(Insert(es, a), b), Insert(es, b));
  }

  function PutBoth(es: seq<TreeEntry>, p: Path, a: Leaf, q: Path, b: Leaf): Result<seq<TreeEntry>, Error>
    requires p != [] && q != []
  {
    var once :- PutAt(es, p, a);
    PutAt(once, q, b)
  }

  /** Writes at paths of which neither lies below the other commute, down to the same root hash
      and including whether they fail. */
  lemma {:induction false} WritesCommute(es: seq<TreeEntry>, p: Path, a: Leaf, q: Path, b: Leaf)
    requires WellFormed(es) && p != [] && q != [] && Incomparable(p, q)
    ensures PutBoth(es, p, a, q, b) == PutBoth(es, q, b, p, a)
    decreases |p|
  {
    if p[0] != q[0] {
      DistinctHeadsCommute(es, p, a, q, b);
    } else {
      TailsCompare(p, q);
      var below := Find(es, p[0]);
      if below.None? || IsDir(below.value) {
        WritesCommute(Below(below), p[1..], a, q[1..], b);
        SameHead(es, p, a, q, b);
        SameHead(es, q, b, p, a);
      }
    }
  }

  lemma DistinctHeadsCommute(es: seq<TreeEntry>, p: Path, a: Leaf, q: Path, b: Leaf)
    requires WellFormed(es) && p != [] && q != [] && p[0] != q[0]
    ensures PutBoth(es, p, a, q, b) == PutBoth(es, q, b, p, a)
  {
    var f, g := HeadWrite(es, p, a), HeadWrite(es, q, b);
    if f.Success? { FindInsert(es, f.value, q[0]); }
    if g.Success? { FindInsert(es, g.value, p[0]); }
    if f.Success? && g.Success? {
      InsertCommutes(es, f.value, g.value);
    }
  }

  /** The single root entry that a write replaces. */
  function HeadWrite(es: seq<TreeEntry>, p: Path, leaf: Leaf): (r: Result<TreeEntry, Error>)
    requires p != []
    ensures r.Success? ==> r.value.name == p[0]
    ensures PutAt(es, p, leaf) == if r.Success? then Success(Insert(es, r.value)) else Failure(NotATree)
    decreases |p|
  {
    if |p| == 1 then Success(leaf.At(p[0]))
    else
      var below := Find(es, p[0]);
      if below.Some? && !IsDir(below.value) then Failure(NotATree)
      else
        var sub := PutAt(Below(below), p[1..], leaf);
        PutFailsOnlyOnNonTrees(Below(below), p[1..], leaf);
        if sub.Success? then Success(DirEntry(p[0], sub.value)) else Failure(NotATree)
  }

  lemma {:induction false} PutFailsOnlyOnNonTrees(es: seq<TreeEntry>, p: Path, leaf: Leaf)
    requires p != []
    ensures PutAt(es, p, leaf).Success? || PutAt(es, p, leaf) == Failure(NotATree)
    decreases |p|
  {
    if |p| > 1 && (Find(es, p[0]).None? || IsDir(Find(es, p[0]).value)) {
      PutFailsOnlyOnNonTrees(Below(Find(es, p[0])), p[1..], leaf);
    }
  }

  lemma SameHead(es: seq<TreeEntry>, p: Path, a: Leaf, q: Path, b: Leaf)
    requires WellFormed(es) && |p| > 1 && |q| > 1 && p[0] == q[0]
    requires Find(es, p[0]).Some? ==> IsDir(Find(es, p[0]).value)
    ensures PutBoth(es, p, a, q, b) ==
            var sub := PutBoth(Below(Find(es, p[0])), p[1..], a, q[1..], b);
            if sub.Success? then Success(Insert(es, DirEntry(p[0], sub.value))) else Failure(sub.error)
  {
    var below := Below(Find(es, p[0]));
    var once := PutAt(below, p[1..], a);
    if once.Success? {
      var d := DirEntry(p[0], once.value);
      FindInsert(es, d, p[0]);
      var twice := PutAt(once.value, q[1..], b);
      if twice.Success? {
        InsertOverwrites(es, d, DirEntry(p[0], twice.value));
      }
    }
  }

  // --- deleting -----------------------------------------------------------------------------

  /** A deletion succeeds exactly when the path resolves. */
  lemma {:induction false} RemoveSucceedsIff(es: seq<TreeEntry>, p: Path)
    requires p != []
    ensures RemoveAt(es, p).Success? <==> EntryAt(es, p).Some?
    decreases |p|
  {
    var e := Find(es, p[0]);
    if |p| > 1 && e.Some? && IsDir(e.value) {
      RemoveSucceedsIff(e.value.target.obj.entries, p[1..]);
    }
  }

  lemma {:induction false} RemoveWellFormed(es: seq<TreeEntry>, p: Path)
    requires WellFormed(es) && p != [] && RemoveAt(es, p).Success?
    ensures WellFormed(RemoveAt(es, p).value)
    decreases |p|
  {
    RemoveSorted(es, p[0]);
    if |p| > 1 {
      var sub := Find(es, p[0]).value.target.obj.entries;
      RemoveWellFormed(sub, p[1..]);
      InsertSorted(es, DirEntry(p[0], RemoveAt(sub, p[1..]).value));
    }
  }

  /** What every path resolves to after a deletion: nothing at the path or below it, either
      nothing or a non-empty directory at each proper ancestor, and no change elsewhere. */
  lemma {:induction false} RemoveThenLookup(es: seq<TreeEntry>, p: Path, q: Path)
    requires WellFormed(es) && p != [] && q != [] && RemoveAt(es, p).Success?
    ensures var after := EntryAt(RemoveAt(es, p).value, q);
            && (p <= q ==> after == None)
            && (q < p && after.Some? ==> IsDir(after.value) && after.value.target.obj.entries != [])
            && (Incomparable(p, q) ==> after == EntryAt(es, q))
    decreases |p|
  {
    if |p| == 1 {
      FindRemove(es, p[0], q[0]);
      assert q[0] == p[0] ==> p <= q;
    } else {
      LookupThroughRemove(es, p, q);
      if q[0] == p[0] {
        TailsCompare(p, q);
        if |q| > 1 {
          RemoveThenLookup(Find(es, p[0]).value.target.obj.entries, p[1..], q[1..]);
        }
      }
    }
  }

  /** The sub-tree that a deletion below `p[0]` leaves. */
  function SubAfterRemove(es: seq<TreeEntry>, p: Path): seq<TreeEntry>
    requires |p| > 1 && RemoveAt(es, p).Success?
  {
    RemoveAt(Find(es, p[0]).value.target.obj.entries, p[1..]).value
  }

  lemma FindThroughRemove(es: seq<TreeEntry>, p: Path, n: Text)
    requires Sorted(es) && |p| > 1 && RemoveAt(es, p).Success?
    ensures Find(RemoveAt(es, p).value, n)
            == if n != p[0] then Find(es, n)
               else if SubAfterRemove(es, p) == [] then None
               else Some(DirEntry(p[0], SubAfterRemove(es, p)))
  {
    var sub := SubAfterRemove(es, p);
    if sub == [] {
      assert RemoveAt(es, p).value == Remove(es, p[0]);
      FindRemove(es, p[0], n);
    } else {
      assert RemoveAt(es, p).value == Insert(es, DirEntry(p[0], sub));
      FindInsert(es, DirEntry(p[0], sub), n);
    }
  }

  /** A lookup after a deletion below `p[0]` misses that entry, or goes on in what the deletion left. */
  lemma LookupThroughRemove(es: seq<TreeEntry>, p: Path, q: Path)
    requires Sorted(es) && |p| > 1 && q != [] && RemoveAt(es, p).Success?
    ensures q[0] != p[0] ==> EntryAt(RemoveAt(es, p).value, q) == EntryAt(es, q)
    ensures q[0] == p[0] && |q| == 1 ==>
              EntryAt(RemoveAt(es, p).value, q)
              == if SubAfterRemove(es, p) == [] then None else Some(DirEntry(p[0], SubAfterRemove(es, p)))
    ensures q[0] == p[0] && |q| > 1 ==>
              && EntryAt(RemoveAt(es, p).value, q) == EntryAt(SubAfterRemove(es, p), q[1..])
              && EntryAt(es, q) == EntryAt(Find(es, p[0]).value.target.obj.entries, q[1..])
  {
    FindThroughRemove(es, p, q[0]);
    if q[0] == p[0] && SubAfterRemove(es, p) == [] {
      assert EntryAt(RemoveAt(es, p).value, q) == None;
    }
  }

  // --- empty sub-trees ----------------------------------------------------------------------

  /** No directory below the root is empty. */
  ghost predicate NoEmptyBelow(es: seq<TreeEntry>)
    decreases es
  {
    forall e | e in es && IsDir(e) :: e.target.obj.entries != [] && NoEmptyBelow(e.target.obj.entries)
  }

  lemma {:induction false} PutKeepsNoEmptyBelow(es: seq<TreeEntry>, p: Path, leaf: Leaf)
    requires NoEmptyBelow(es) && p != [] && !leaf.kind.TreeKind? && PutAt(es, p, leaf).Success?
    ensures NoEmptyBelow(PutAt(es, p, leaf).value) && PutAt(es, p, leaf).value != []
    decreases |p|
  {
    if |p| > 1 {
      PutKeepsNoEmptyBelow(Below(Find(es, p[0])), p[1..], leaf);
    }
  }

  lemma {:induction false} RemoveKeepsNoEmptyBelow(es: seq<TreeEntry>, p: Path)
    requires NoEmptyBelow(es) && p != [] && RemoveAt(es, p).Success?
    ensures NoEmptyBelow(RemoveAt(es, p).value)
    decreases |p|
  {
    if |p| > 1 {
      RemoveKeepsNoEmptyBelow(Find(es, p[0]).value.target.obj.entries, p[1..]);
    }
  }

  /** Every existing proper ancestor of the path is a non-empty directory in the form that a
      rewrite gives it. */
  predicate RewritableAlong(es: seq<TreeEntry>, p: Path)
    requires p != []
    decreases |p|
  {
    if |p| == 1 then true
    else
      match Find(es, p[0])
      case None => true
      case Some(e) =>
        && IsDir(e) && e.mode == DIR && e.vis == None
        && e.target.obj.entries != []
        && RewritableAlong(e.target.obj.entries, p[1..])
  }

  lemma RemoveFreshInsert(es: seq<TreeEntry>, e: TreeEntry)
    requires Sorted(es) && Find(es, e.name).None?
    ensures Remove(Insert(es, e), e.name) == es
  {
    InsertSorted(es, e);
    RemoveSorted(Insert(es, e), e.name);
    forall n ensures Find(Remove(Insert(es, e), e.name), n) == Find(es, n) {
      FindInsert(es, e, n);
      FindRemove(Insert(es, e), e.name, n);
    }
    SameLookups(Remove(Insert(es, e), e.name), es);
  }

  lemma ReinsertIff(es: seq<TreeEntry>, e: TreeEntry)
    requires Sorted(es)
    ensures Insert(es, e) == es <==> Find(es, e.name) == Some(e)
  {
    InsertSorted(es, e);
    FindInsert(es, e, e.name);
    if Find(es, e.name) == Some(e) {
      forall n ensures Find(Insert(es, e), n) == Find(es, n) {
        FindInsert(es, e, n);
      }
      SameLookups(Insert(es, e), es);
    }
  }

  function WriteThenDelete(es: seq<TreeEntry>, p: Path, leaf: Leaf): Result<seq<TreeEntry>, Error>
    requires p != []
  {
    var written :- PutAt(es, p, leaf);
    RemoveAt(written, p)
  }

  /** Deleting a path that was just written where nothing was restores the original root hash
      exactly when all its existing proper ancestors are rewritable; otherwise it leaves a
      different tree. The deletion itself never fails. */
  lemma {:induction false} DeleteUndoesWriteIff(es: seq<TreeEntry>, p: Path, leaf: Leaf)
    requires WellFormed(es) && ValidPath(p) && !leaf.kind.TreeKind?
    requires EntryAt(es, p).None? && PutAt(es, p, leaf).Success?
    ensures WriteThenDelete(es, p, leaf).Success?
    ensures WriteThenDelete(es, p, leaf) == Success(es) <==> RewritableAlong(es, p)
    decreases |p|
  {
    if |p| == 1 {
      FindInsert(es, leaf.At(p[0]), p[0]);
      RemoveFreshInsert(es, leaf.At(p[0]));
    } else {
      var below := Find(es, p[0]);
      var sub := PutAt(Below(below), p[1..], leaf).value;
      var d := DirEntry(p[0], sub);
      FindInsert(es, d, p[0]);
      DeleteUndoesWriteIff(Below(below), p[1..], leaf);
      var back := RemoveAt(sub, p[1..]).value;
      if below.None? {
        AbsentIsRewritable(p[1..]);
        RemoveFreshInsert(es, d);
      } else if back == [] {
        InsertSorted(es, d);
        FindRemove(Insert(es, d), p[0], p[0]);
      } else {
        InsertOverwrites(es, d, DirEntry(p[0], back));
        ReinsertIff(es, DirEntry(p[0], back));
      }
    }
  }

  lemma AbsentIsRewritable(p: Path)
    requires p != []
    ensures RewritableAlong([], p)
  {
  }

  /** In a tree whose directories all have the rewritten form and are non-empty, the original root
      always comes back. */
  lemma {:induction false} TidyTreesAreRewritable(es: seq<TreeEntry>, p: Path)
    requires p != [] && NoEmptyBelow(es) && RewrittenForm(es)
    requires forall k | 0 < k < |p| :: EntryAt(es, p[..k]).Some? ==> IsDir(EntryAt(es, p[..k]).value)
    ensures RewritableAlong(es, p)
    decreases |p|
  {
    if |p| > 1 {
      assert EntryAt(es, p[..1]) == Find(es, p[0]);
      var below := Find(es, p[0]);
      if below.Some? {
        forall k | 0 < k < |p[1..]|
          ensures EntryAt(Below(below), p[1..][..k]).Some? ==> IsDir(EntryAt(Below(below), p[1..][..k]).value)
        {
          PrefixTail(p, k + 1);
          assert EntryAt(es, p[..k + 1]) == EntryAt(Below(below), p[1..][..k]);
        }
        TidyTreesAreRewritable(Below(below), p[1..]);
      }
    }
  }

  ghost predicate RewrittenForm(es: seq<TreeEntry>)
    decreases es
  {
    forall e | e in es && IsDir(e) :: e.mode == DIR && e.vis == None && RewrittenForm(e.target.obj.entries)
  }
}
