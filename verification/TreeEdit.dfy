/** Edits of a tree purely through the object store, and their agreement with `TreeAlgebra`. */
module TreeEdit {
  import opened Wrappers
  import opened Lex
  import opened Objects
  import opened Trees
  import opened TreeAlgebra

  // --- path syntax --------------------------------------------------------------------------

  /** The non-empty pieces between slashes. */
  function Components(t: Text): Path {
    ComponentsFrom(t, [])
  }

  function ComponentsFrom(t: Text, piece: Text): Path
    decreases |t|
  {
    if t == [] then Flush(piece)
    else if t[0] == SLASH then Flush(piece) + ComponentsFrom(t[1..], [])
    else ComponentsFrom(t[1..], piece + [t[0]])
  }

  function Flush(piece: Text): Path {
    if piece == [] then [] else [piece]
  }

  predicate BadComponent(n: Text) {
    n == [DOT] || n == [DOT, DOT] || NUL in n
  }

  function SplitPath(t: Text): Result<Path, Error> {
    var parts := Components(t);
    if parts == [] then Failure(EmptyPath)
    else if exists n | n in parts :: BadComponent(n) then Failure(InvalidName)
    else Success(parts)
  }

  lemma {:induction false} ComponentsAreClean(t: Text, piece: Text)
    requires SLASH !in piece
    ensures forall n | n in ComponentsFrom(t, piece) :: n != [] && SLASH !in n
    decreases |t|
  {
    if t != [] {
      if t[0] == SLASH {
        ComponentsAreClean(t[1..], []);
      } else {
        ComponentsAreClean(t[1..], piece + [t[0]]);
      }
    }
  }

  lemma {:induction false} ComponentsOfName(n: Text, rest: Text, piece: Text)
    requires SLASH !in n && (rest == [] || rest[0] == SLASH)
    ensures ComponentsFrom(n + rest, piece) == Flush(piece + n) + (if rest == [] then [] else Components(rest[1..]))
    decreases |n|
  {
    if n == [] {
      assert n + rest == rest && piece + n == piece;
    } else {
      assert (n + rest)[1..] == n[1..] + rest;
      assert piece + [n[0]] + n[1..] == piece + n;
      ComponentsOfName(n[1..], rest, piece + [n[0]]);
    }
  }

  lemma {:induction false} ComponentsAppend(t: Text, n: Text, piece: Text)
    requires SLASH !in n && n != []
    ensures ComponentsFrom(t + [SLASH] + n, piece) == ComponentsFrom(t, piece) + [n]
    decreases |t|
  {
    if t == [] {
      assert [] + [SLASH] + n == [SLASH] + n && ([SLASH] + n)[1..] == n;
      ComponentsOfName(n, [], []);
      assert n + [] == n && [] + n == n;
    } else {
      assert (t + [SLASH] + n)[1..] == t[1..] + [SLASH] + n;
      if t[0] == SLASH {
        ComponentsAppend(t[1..], n, []);
      } else {
        ComponentsAppend(t[1..], n, piece + [t[0]]);
      }
    }
  }

  /** Splitting accepts only valid paths, and splitting a joined valid path gives it back. */
  lemma SplitYieldsValidPath(t: Text)
    ensures SplitPath(t).Success? ==> ValidPath(SplitPath(t).value)
  {
    ComponentsAreClean(t, []);
  }

  lemma {:induction false} ComponentsOfJoin(p: Path)
    requires ValidPath(p)
    ensures Join(p) != [] && Components(Join(p)) == p
  {
    assert p[|p| - 1] in p;
    if |p| == 1 {
      assert Join(p) == JoinName(Join([]), p[0]) == p[0];
      ComponentsOfName(p[0], [], []);
      assert p[0] + [] == p[0] && [] + p[0] == p[0];
    } else {
      var init := p[..|p| - 1];
      ComponentsOfJoin(init);
      ComponentsAppend(Join(init), p[|p| - 1], []);
    }
  }

  lemma SplitJoin(p: Path)
    requires ValidPath(p)
    ensures SplitPath(Join(p)) == Success(p)
  {
    ComponentsOfJoin(p);
  }

  // --- what splitting does ------------------------------------------------------------------

  /** Pieces between slashes, empty ones included. */
  function Slashed(ps: seq<Text>): Text
    requires ps != []
  {
    if |ps| == 1 then ps[0] else ps[0] + [SLASH] + Slashed(ps[1..])
  }

  function NonEmpty(ps: seq<Text>): Path {
    if ps == [] then [] else Flush(ps[0]) + NonEmpty(ps[1..])
  }

  predicate ArePieces(ps: seq<Text>) {
    ps != [] && forall p | p in ps :: SLASH !in p
  }

  lemma {:induction false} ComponentsOfPieces(ps: seq<Text>)
    requires ArePieces(ps)
    ensures Components(Slashed(ps)) == NonEmpty(ps)
    decreases |ps|
  {
    assert ps[0] in ps && [] + ps[0] == ps[0];
    if |ps| == 1 {
      ComponentsOfName(ps[0], [], []);
      assert ps[0] + [] == ps[0] && NonEmpty(ps[1..]) == [];
    } else {
      var rest := [SLASH] + Slashed(ps[1..]);
      assert Slashed(ps) == ps[0] + rest && rest[1..] == Slashed(ps[1..]);
      ComponentsOfName(ps[0], rest, []);
      ComponentsOfPieces(ps[1..]);
    }
  }

  lemma {:induction false} EveryTextIsSlashed(t: Text) returns (ps: seq<Text>)
    ensures ArePieces(ps) && Slashed(ps) == t
  {
    if t == [] {
      ps := [[]];
    } else {
      var rest := EveryTextIsSlashed(t[1..]);
      if t[0] == SLASH {
        ps := [[]] + rest;
        assert ps[1..] == rest;
        assert Slashed(ps) == [] + [SLASH] + t[1..];
      } else {
        ps := [[t[0]] + rest[0]] + rest[1..];
        assert ps[1..] == rest[1..];
        assert forall p | p in ps :: p == ps[0] || p in rest;
        assert rest[0] in rest;
        assert Slashed(ps) == [t[0]] + Slashed(rest);
      }
    }
  }

  /** Splitting ignores empty pieces, so leading, trailing and repeated slashes do not matter. It refuses a
      text without any other piece, and one with a piece that is a dot, two dots, or holds a zero byte. */
  lemma SplitOfPieces(ps: seq<Text>)
    requires ArePieces(ps)
    ensures SplitPath(Slashed(ps)) ==
            var names := NonEmpty(ps);
            if names == [] then Failure(EmptyPath)
            else if exists n | n in names :: n == Ascii(".") || n == Ascii("..") || 0 in n then Failure(InvalidName)
            else Success(names)
  {
    ComponentsOfPieces(ps);
    DotNames();
  }

  lemma DotNames()
    ensures Ascii(".") == [DOT] && Ascii("..") == [DOT, DOT]
  {
  }

  lemma {:induction false} NonEmptyIsFilter(ps: seq<Text>)
    ensures forall n :: n in NonEmpty(ps) <==> n in ps && n != []
    ensures (forall p | p in ps :: p != []) ==> NonEmpty(ps) == ps
  {
    if ps != [] {
      NonEmptyIsFilter(ps[1..]);
      assert ps == [ps[0]] + ps[1..];
      assert ps[0] in ps && forall p | p in ps[1..] :: p in ps;
    }
  }

  lemma ExtraSlashesDoNotMatter(a: seq<Text>, b: seq<Text>)
    requires ArePieces(a) && ArePieces(b) && NonEmpty(a) == NonEmpty(b)
    ensures SplitPath(Slashed(a)) == SplitPath(Slashed(b))
  {
    SplitOfPieces(a);
    SplitOfPieces(b);
  }

  lemma {:induction false} SlashedAtEnd(ps: seq<Text>, n: Text)
    requires ps != []
    ensures Slashed(ps + [n]) == Slashed(ps) + [SLASH] + n
  {
    assert (ps + [n])[1..] == ps[1..] + [n];
    if |ps| > 1 {
      SlashedAtEnd(ps[1..], n);
      assert Slashed(ps + [n]) == ps[0] + [SLASH] + (Slashed(ps[1..]) + [SLASH] + n);
    } else {
      assert Slashed([n]) == n;
    }
  }

  /** The textual form of a path is its components with one slash between two of them. */
  lemma {:induction false} JoinIsSlashed(p: Path)
    requires ValidPath(p)
    ensures Join(p) == Slashed(p)
  {
    var init, n := p[..|p| - 1], p[|p| - 1];
    assert p == init + [n];
    if init != [] {
      JoinIsSlashed(init);
      ComponentsOfJoin(init);
      SlashedAtEnd(init, n);
    }
  }

  /** The names that a tree accepts are the texts that are a path of one component. */
  lemma NameIsOneComponent(n: Text)
    ensures ValidName(n) <==> SplitPath(n) == Success([n])
  {
    ComponentsAreClean(n, []);
    assert SplitPath(n) == Success([n]) ==> n in Components(n);
    if SLASH !in n {
      ComponentsOfName(n, [], []);
      assert n + [] == n && [] + n == n;
      assert n != [] ==> Components(n) == [n] && n in Components(n);
    }
  }

  // --- stored trees -------------------------------------------------------------------------

  /** The tree `h` and all its directories are stored. */
  ghost predicate TreesStored(s: Store, h: Hash)
    decreases h
  {
    && IsTree(h) && h in s && s[h] == h.obj
    && forall e | e in h.obj.entries && e.kind.TreeKind? :: TreesStored(s, e.target)
  }

  lemma {:induction false} TreesStoredExtends(s: Store, s': Store, h: Hash)
    requires TreesStored(s, h) && Extends(s, s')
    ensures TreesStored(s', h)
    decreases h
  {
    forall e | e in h.obj.entries && e.kind.TreeKind? ensures TreesStored(s', e.target) {
      TreesStoredExtends(s, s', e.target);
    }
  }

  lemma {:induction false} CompleteTreesAreStored(s: Store, h: Hash)
    requires Complete(s, h) && IsTree(h) && WellFormed(h.obj.entries)
    ensures TreesStored(s, h)
    decreases h
  {
    forall e | e in h.obj.entries && e.kind.TreeKind? ensures TreesStored(s, e.target) {
      CompleteTreesAreStored(s, e.target);
    }
  }

  // --- lookups ------------------------------------------------------------------------------

  /** The entry at a path, as found by fetching one tree after another. */
  function Resolve(s: Store, root: Hash, p: Path): Result<TreeEntry, Error>
    requires p != []
    decreases |p|
  {
    var es :- GetTree(s, root);
    match Find(es, p[0])
    case None => Failure(NoEntry)
    case Some(e) =>
      if |p| == 1 then Success(e)
      else if !e.kind.TreeKind? then Failure(NotATree)
      else Resolve(s, e.target, p[1..])
  }

  lemma {:induction false} ResolveIsEntryAt(s: Store, root: Hash, p: Path)
    requires Honest(s) && TreesStored(s, root) && p != []
    ensures match EntryAt(root.obj.entries, p)
            case Some(e) => Resolve(s, root, p) == Success(e)
            case None => Resolve(s, root, p) in {Failure(NoEntry), Failure(NotATree)}
    decreases |p|
  {
    var e := Find(root.obj.entries, p[0]);
    if |p| > 1 && e.Some? && e.value.kind.TreeKind? {
      ResolveIsEntryAt(s, e.value.target, p[1..]);
    }
  }

  /** Something on the way to the path is no directory. */
  predicate Blocked(es: seq<TreeEntry>, p: Path) {
    exists k | 0 < k < |p| :: EntryAt(es, p[..k]).Some? && !IsDir(EntryAt(es, p[..k]).value)
  }

  lemma BlockedBelow(es: seq<TreeEntry>, p: Path)
    requires |p| > 1 && Find(es, p[0]).Some? && IsDir(Find(es, p[0]).value)
    ensures Blocked(es, p) <==> Blocked(Find(es, p[0]).value.target.obj.entries, p[1..])
  {
    var sub, q := Find(es, p[0]).value.target.obj.entries, p[1..];
    forall k | 0 < k < |q| ensures EntryAt(es, p[..k + 1]) == EntryAt(sub, q[..k]) {
      assert p[..k + 1][1..] == q[..k];
    }
    if k :| 0 < k < |p| && EntryAt(es, p[..k]).Some? && !IsDir(EntryAt(es, p[..k]).value) {
      assert p[..1] == [p[0]] && k != 1;
      assert EntryAt(es, p[..(k - 1) + 1]) == EntryAt(sub, q[..k - 1]);
    }
  }

  /** A lookup that fails says whether something on the way is no directory or the entry is missing. */
  lemma {:induction false} LookupErrors(s: Store, root: Hash, p: Path)
    requires Honest(s) && TreesStored(s, root) && p != [] && EntryAt(root.obj.entries, p).None?
    ensures Resolve(s, root, p) == Failure(if Blocked(root.obj.entries, p) then NotATree else NoEntry)
    decreases |p|
  {
    var es := root.obj.entries;
    var e := Find(es, p[0]);
    if e.Some? && |p| > 1 {
      assert p[..1] == [p[0]] && EntryAt(es, p[..1]) == e;
      if e.value.kind.TreeKind? {
        BlockedBelow(es, p);
        LookupErrors(s, e.value.target, p[1..]);
      }
    } else {
      forall k | 0 < k < |p| ensures EntryAt(es, p[..k]).None? {
        assert p[..k][0] == p[0];
      }
    }
  }

  method LookupEntry(store: ObjectStore, root: Hash, parts: Path) returns (r: Result<TreeEntry, Error>)
    ensures parts == [] ==> r == Failure(EmptyPath)
    ensures parts != [] ==> r == Resolve(store.files, root, parts)
  {
    if parts == [] {
      return Failure(EmptyPath);
    }
    var tree :- GetTree(store.files, root);
    var i := 0;
    ghost var at := root;
    while i < |parts|
      invariant 0 <= i < |parts|
      invariant GetTree(store.files, at) == Success(tree)
      invariant Resolve(store.files, root, parts) == Resolve(store.files, at, parts[i..])
    {
      assert parts[i..][1..] == parts[i + 1..];
      var found := Find(tree, parts[i]);
      if found.None? {
        return Failure(NoEntry);
      }
      if i + 1 == |parts| {
        return Success(found.value);
      }
      if !found.value.kind.TreeKind? {
        return Failure(NotATree);
      }
      at := found.value.target;
      tree :- GetTree(store.files, found.value.target);
      i := i + 1;
    }
    assert false;
  }

  /** The content of the regular file a path resolves to, if it does. */
  function FileAt(es: seq<TreeEntry>, p: Path): Option<Text>
    requires p != []
  {
    match EntryAt(es, p)
    case Some(e) =>
      if e.kind.FileKind? && e.target.Of? && e.target.obj.BlobObj? then Some(e.target.obj.bytes) else None
    case None => None
  }

  /** `try_read_blob_at_path` after the path was split. */
  function TryReadBlob(s: Store, root: Hash, p: Path): Result<Option<Text>, Error>
    requires p != []
    decreases |p|
  {
    var es :- GetTree(s, root);
    match Find(es, p[0])
    case None => Success(None)
    case Some(e) =>
      if |p| == 1 then
        if !e.kind.FileKind? then Success(None)
        else
          var bytes :- GetBlob(s, e.target);
          Success(Some(bytes))
      else if !e.kind.TreeKind? then Success(None)
      else TryReadBlob(s, e.target, p[1..])
  }

  method TryReadBlobAtPath(store: ObjectStore, root: Hash, path: Text) returns (r: Result<Option<Text>, Error>)
    ensures SplitPath(path).Failure? ==> r == Failure(SplitPath(path).error)
    ensures SplitPath(path).Success? ==> r == TryReadBlob(store.files, root, SplitPath(path).value)
  {
    var parts :- SplitPath(path);
    var tree :- GetTree(store.files, root);
    var i := 0;
    ghost var at := root;
    while i < |parts|
      invariant 0 <= i < |parts|
      invariant GetTree(store.files, at) == Success(tree)
      invariant TryReadBlob(store.files, root, parts) == TryReadBlob(store.files, at, parts[i..])
    {
      assert parts[i..][1..] == parts[i + 1..];
      var found := Find(tree, parts[i]);
      if found.None? {
        return Success(None);
      }
      if i + 1 == |parts| {
        if !found.value.kind.FileKind? {
          return Success(None);
        }
        var bytes :- GetBlob(store.files, found.value.target);
        return Success(Some(bytes));
      }
      if !found.value.kind.TreeKind? {
        return Success(None);
      }
      at := found.value.target;
      tree :- GetTree(store.files, found.value.target);
      i := i + 1;
    }
    assert false;
  }

  /** In a complete store the lenient read never fails: it returns the file's content, or nothing
      when the path does not lead to a regular file. */
  lemma {:induction false} TryReadIsFileAt(s: Store, root: Hash, p: Path)
    requires Honest(s) && Complete(s, root) && p != []
    requires IsTree(root) && WellFormed(root.obj.entries) && FilesAreBlobs(root.obj.entries)
    ensures TryReadBlob(s, root, p) == Success(FileAt(root.obj.entries, p))
    decreases |p|
  {
    var e := Find(root.obj.entries, p[0]);
    if |p| > 1 && e.Some? && e.value.kind.TreeKind? {
      TryReadIsFileAt(s, e.value.target, p[1..]);
    }
  }

  /** File entries lead to blobs, at every level. */
  ghost predicate FilesAreBlobs(es: seq<TreeEntry>)
    decreases es
  {
    forall e | e in es ::
      && (e.kind.FileKind? ==> e.target.Of? && e.target.obj.BlobObj?)
      && (IsDir(e) ==> FilesAreBlobs(e.target.obj.entries))
  }

  // --- writing ------------------------------------------------------------------------------

  function RewriteInsert(s: Store, h: Hash, p: Path, leaf: Leaf): (Store, Result<Hash, Error>)
    requires p != []
    decreases |p|, 1
  {
    match GetTree(s, h)
    case Failure(e) => (s, Failure(e))
    case Success(es) =>
      if |p| == 1 then PutEntry(s, es, leaf.At(p[0]))
      else
        match Find(es, p[0])
        case Some(e) =>
          if e.kind.TreeKind? then InsertBelow(s, es, e.target, p, leaf) else (s, Failure(NotATree))
        case None => InsertBelow(Put(s, TreeObj([])), es, TreeHash([]), p, leaf)
  }

  function InsertBelow(s: Store, es: seq<TreeEntry>, sub: Hash, p: Path, leaf: Leaf): (Store, Result<Hash, Error>)
    requires |p| > 1
    decreases |p|, 0
  {
    var (s1, r) := RewriteInsert(s, sub, p[1..], leaf);
    if r.Failure? then (s1, r)
    else PutEntry(s1, es, TreeEntry(p[0], TreeKind, r.value, DIR, None))
  }

  /** `Tree::insert` followed by storing the tree. */
  function PutEntry(s: Store, es: seq<TreeEntry>, e: TreeEntry): (Store, Result<Hash, Error>) {
    if !ValidName(e.name) then (s, Failure(InvalidName))
    else (Put(s, TreeObj(Insert(es, e))), Success(TreeHash(Insert(es, e))))
  }

  function ToHash(r: Result<seq<TreeEntry>, Error>): Result<Hash, Error> {
    if r.Success? then Success(TreeHash(r.value)) else Failure(r.error)
  }

  /** Writing through the store computes the tree-level write; it only adds objects, and the new
      tree is stored with all its directories. */
  lemma {:induction false} RewriteInsertIsPutAt(s: Store, h: Hash, p: Path, leaf: Leaf)
    requires Honest(s) && TreesStored(s, h) && ValidPath(p) && !leaf.kind.TreeKind?
    ensures var (s', r) := RewriteInsert(s, h, p, leaf);
            && Extends(s, s') && Honest(s')
            && r == ToHash(PutAt(h.obj.entries, p, leaf))
            && (r.Success? ==> TreesStored(s', r.value))
    decreases |p|
  {
    var es := h.obj.entries;
    var (s', r) := RewriteInsert(s, h, p, leaf);
    assert p[0] in p;
    if |p| > 1 {
      var below := Find(es, p[0]);
      if below.None? || below.value.kind.TreeKind? {
        var s0 := if below.None? then Put(s, TreeObj([])) else s;
        var sub := if below.None? then TreeHash([]) else below.value.target;
        RewriteInsertIsPutAt(s0, sub, p[1..], leaf);
        var (s1, r1) := RewriteInsert(s0, sub, p[1..], leaf);
        assert below.Some? ==> IsDir(below.value);
        assert sub.obj.entries == Below(below);
        assert (s', r) == InsertBelow(s0, es, sub, p, leaf);
        if r1.Success? {
          TreesStoredExtends(s1, s', r1.value);
        }
      }
    }
    if r.Success? {
      forall e | e in PutAt(es, p, leaf).value && e.kind.TreeKind? ensures TreesStored(s', e.target) {
        if e in es {
          TreesStoredExtends(s, s', e.target);
        }
      }
    }
  }

  /** Completeness carries over from the old root and the written object to the new root. */
  lemma {:induction false} PutAtComplete(s: Store, s': Store, es: seq<TreeEntry>, p: Path, leaf: Leaf)
    requires p != [] && PutAt(es, p, leaf).Success?
    requires Complete(s, TreeHash(es)) && Extends(s, s') && Complete(s', leaf.target)
    requires !leaf.kind.TreeKind?
    requires TreesStored(s', TreeHash(PutAt(es, p, leaf).value))
    ensures Complete(s', TreeHash(PutAt(es, p, leaf).value))
    decreases |p|
  {
    var r := PutAt(es, p, leaf).value;
    forall e | e in r && Followed(e.kind) ensures Complete(s', e.target) {
      if e in es {
        CompleteExtends(s, s', e.target);
      } else if |p| > 1 {
        var below := Find(es, p[0]);
        var sub := PutAt(Below(below), p[1..], leaf).value;
        assert e == DirEntry(p[0], sub);
        if below.None? {
          FreshComplete(s', p[1..], leaf);
        } else {
          PutAtComplete(s, s', Below(below), p[1..], leaf);
        }
      }
    }
  }

  lemma {:induction false} FreshComplete(s': Store, p: Path, leaf: Leaf)
    requires p != [] && PutAt([], p, leaf).Success?
    requires Complete(s', leaf.target) && !leaf.kind.TreeKind?
    requires TreesStored(s', TreeHash(PutAt([], p, leaf).value))
    ensures Complete(s', TreeHash(PutAt([], p, leaf).value))
    decreases |p|
  {
    if |p| > 1 {
      var e := DirEntry(p[0], PutAt([], p[1..], leaf).value);
      assert e in PutAt([], p, leaf).value;
      FreshComplete(s', p[1..], leaf);
    }
  }

  method InsertPath(store: ObjectStore, treeHash: Hash, parts: Path, leaf: Leaf) returns (r: Result<Hash, Error>)
    requires parts != []
    modifies store
    ensures (store.files, r) == RewriteInsert(old(store.files), treeHash, parts, leaf)
    decreases |parts|
  {
    var tree :- GetTree(store.files, treeHash);
    if |parts| == 1 {
      if !ValidName(parts[0]) {
        return Failure(InvalidName);
      }
      tree := Insert(tree, leaf.At(parts[0]));
    } else {
      var head, rest := parts[0], parts[1..];
      var subHash;
      match Find(tree, head) {
        case Some(e) =>
          if !e.kind.TreeKind? {
            return Failure(NotATree);
          }
          subHash := e.target;
        case None =>
          subHash := store.Write(TreeObj([]));
      }
      var newSub :- InsertPath(store, subHash, rest, leaf);
      if !ValidName(head) {
        return Failure(InvalidName);
      }
      tree := Insert(tree, TreeEntry(head, TreeKind, newSub, DIR, None));
    }
    var h := store.Write(TreeObj(tree));
    return Success(h);
  }

  /** The tree-level meaning of `write_blob_at_path` and `write_sealed_at_path`. */
  function WriteAt(root: Hash, path: Text, leaf: Leaf): Result<Hash, Error>
    requires IsTree(root)
  {
    var parts :- SplitPath(path);
    ToHash(PutAt(root.obj.entries, parts, leaf))
  }

  /** Storing the object and rewriting the ancestors. In a store that has the trees, this is the
      tree-level write, and everything that was reachable before still is from the new root. */
  method WriteObjectAtPath(store: ObjectStore, root: Hash, path: Text, o: Object, kind: EntryKind)
    returns (r: Result<Hash, Error>)
    requires (kind.FileKind? && o.BlobObj?) || (kind.SealedKind? && o.SealedObj?)
    modifies store
    ensures SplitPath(path).Failure? ==> r == Failure(SplitPath(path).error) && store.files == old(store.files)
    ensures SplitPath(path).Success? ==>
              (store.files, r) ==
              RewriteInsert(Put(old(store.files), o), root, SplitPath(path).value, Leaf(Of(o), kind, REGULAR))
    ensures Honest(old(store.files)) && TreesStored(old(store.files), root) ==>
              && Honest(store.files) && Extends(old(store.files), store.files)
              && r == WriteAt(root, path, Leaf(Of(o), kind, REGULAR))
              && (r.Success? ==> TreesStored(store.files, r.value))
              && (r.Success? && Complete(old(store.files), root) ==> Complete(store.files, r.value))
  {
    var parts :- SplitPath(path);
    SplitYieldsValidPath(path);
    var target := store.Write(o);
    var leaf := Leaf(target, kind, REGULAR);
    ghost var s1 := store.files;
    r := InsertPath(store, root, parts, leaf);
    if Honest(old(store.files)) && TreesStored(old(store.files), root) {
      TreesStoredExtends(old(store.files), s1, root);
      RewriteInsertIsPutAt(s1, root, parts, leaf);
      assert Complete(s1, target);
      CompleteExtends(s1, store.files, target);
      if r.Success? && Complete(old(store.files), root) {
        PutAtComplete(old(store.files), store.files, root.obj.entries, parts, leaf);
      }
    }
  }

  // --- deleting -----------------------------------------------------------------------------

  function RewriteRemove(s: Store, h: Hash, p: Path): (Store, Result<Hash, Error>)
    requires p != []
    decreases |p|
  {
    match GetTree(s, h)
    case Failure(e) => (s, Failure(e))
    case Success(es) =>
      match Find(es, p[0])
      case None => (s, Failure(NoEntry))
      case Some(e) =>
        if |p| == 1 then
          (Put(s, TreeObj(Remove(es, p[0]))), Success(TreeHash(Remove(es, p[0]))))
        else if !e.kind.TreeKind? then (s, Failure(NotATree))
        else
          var (s1, r) := RewriteRemove(s, e.target, p[1..]);
          if r.Failure? then (s1, r)
          else
            match GetTree(s1, r.value)
            case Failure(err) => (s1, Failure(err))
            case Success(sub) =>
              if sub == [] then
                (Put(s1, TreeObj(Remove(es, p[0]))), Success(TreeHash(Remove(es, p[0]))))
              else PutEntry(s1, es, TreeEntry(p[0], TreeKind, r.value, DIR, None))
  }

  lemma {:induction false} RewriteRemoveIsRemoveAt(s: Store, h: Hash, p: Path)
    requires Honest(s) && TreesStored(s, h) && ValidPath(p)
    ensures var (s', r) := RewriteRemove(s, h, p);
            && Extends(s, s') && Honest(s')
            && r == ToHash(RemoveAt(h.obj.entries, p))
            && (r.Success? ==> TreesStored(s', r.value))
    decreases |p|
  {
    var e := Find(h.obj.entries, p[0]);
    var (s', r) := RewriteRemove(s, h, p);
    if |p| > 1 && e.Some? && e.value.kind.TreeKind? {
      RewriteRemoveIsRemoveAt(s, e.value.target, p[1..]);
      var (s1, r1) := RewriteRemove(s, e.value.target, p[1..]);
      if r1.Success? {
        TreesStoredExtends(s1, s', r1.value);
      }
    }
    if r.Success? {
      forall x | x in r.value.obj.entries && x.kind.TreeKind? ensures TreesStored(s', x.target) {
        if x in h.obj.entries {
          TreesStoredExtends(s, s', x.target);
        }
      }
    }
  }

  lemma {:induction false} RemoveAtComplete(s: Store, s': Store, es: seq<TreeEntry>, p: Path)
    requires p != [] && RemoveAt(es, p).Success?
    requires Complete(s, TreeHash(es)) && Extends(s, s')
    requires TreesStored(s', TreeHash(RemoveAt(es, p).value))
    ensures Complete(s', TreeHash(RemoveAt(es, p).value))
    decreases |p|
  {
    forall e | e in RemoveAt(es, p).value && Followed(e.kind) ensures Complete(s', e.target) {
      if e in es {
        CompleteExtends(s, s', e.target);
      } else {
        RemoveAtComplete(s, s', Find(es, p[0]).value.target.obj.entries, p[1..]);
      }
    }
  }

  method RemovePath(store: ObjectStore, treeHash: Hash, parts: Path) returns (r: Result<Hash, Error>)
    requires parts != []
    modifies store
    ensures (store.files, r) == RewriteRemove(old(store.files), treeHash, parts)
    decreases |parts|
  {
    var tree :- GetTree(store.files, treeHash);
    var head := parts[0];
    var entry := Find(tree, head);
    if entry.None? {
      return Failure(NoEntry);
    }
    if |parts| == 1 {
      tree := Remove(tree, head);
    } else {
      if !entry.value.kind.TreeKind? {
        return Failure(NotATree);
      }
      var newSubHash :- RemovePath(store, entry.value.target, parts[1..]);
      var newSub :- GetTree(store.files, newSubHash);
      if newSub == [] {
        tree := Remove(tree, head);
      } else if !ValidName(head) {
        return Failure(InvalidName);
      } else {
        tree := Insert(tree, TreeEntry(head, TreeKind, newSubHash, DIR, None));
      }
    }
    var h := store.Write(TreeObj(tree));
    return Success(h);
  }

  function DeleteAt(root: Hash, path: Text): Result<Hash, Error>
    requires IsTree(root)
  {
    var parts :- SplitPath(path);
    ToHash(RemoveAt(root.obj.entries, parts))
  }

  method DeleteAtPath(store: ObjectStore, root: Hash, path: Text) returns (r: Result<Hash, Error>)
    modifies store
    ensures SplitPath(path).Failure? ==> r == Failure(SplitPath(path).error) && store.files == old(store.files)
    ensures SplitPath(path).Success? ==>
              (store.files, r) == RewriteRemove(old(store.files), root, SplitPath(path).value)
    ensures Honest(old(store.files)) && TreesStored(old(store.files), root) ==>
              && Honest(store.files) && Extends(old(store.files), store.files)
              && r == DeleteAt(root, path)
              && (r.Success? ==> TreesStored(store.files, r.value))
              && (r.Success? && Complete(old(store.files), root) ==> Complete(store.files, r.value))
  {
    var parts :- SplitPath(path);
    SplitYieldsValidPath(path);
    r := RemovePath(store, root, parts);
    if Honest(old(store.files)) && TreesStored(old(store.files), root) {
      RewriteRemoveIsRemoveAt(old(store.files), root, parts);
      if r.Success? && Complete(old(store.files), root) {
        RemoveAtComplete(old(store.files), store.files, root.obj.entries, parts);
      }
    }
  }

  // --- listing ------------------------------------------------------------------------------

  function TrimLeft(t: Text): Text {
    if t != [] && t[0] == SLASH then TrimLeft(t[1..]) else t
  }

  function TrimRight(t: Text): Text {
    if t != [] && t[|t| - 1] == SLASH then TrimRight(t[..|t| - 1]) else t
  }

  predicate OnlySlashes(t: Text) {
    forall i | 0 <= i < |t| :: t[i] == SLASH
  }

  lemma {:induction false} TrimLeftIsHarmless(t: Text)
    ensures Components(TrimLeft(t)) == Components(t) && (TrimLeft(t) == [] <==> OnlySlashes(t))
    ensures TrimLeft(t) != [] ==> TrimLeft(t)[0] != SLASH
  {
    if t != [] && t[0] == SLASH {
      TrimLeftIsHarmless(t[1..]);
      assert t == [SLASH] + t[1..];
      assert OnlySlashes(t) <==> OnlySlashes(t[1..]);
    }
  }

  lemma {:induction false} FinalSlash(t: Text, piece: Text)
    ensures ComponentsFrom(t + [SLASH], piece) == ComponentsFrom(t, piece)
    decreases |t|
  {
    if t == [] {
      assert ComponentsFrom([SLASH], piece) == Flush(piece) + [];
    } else {
      assert (t + [SLASH])[1..] == t[1..] + [SLASH];
      FinalSlash(t[1..], if t[0] == SLASH then [] else piece + [t[0]]);
    }
  }

  lemma {:induction false} TrimRightIsHarmless(t: Text)
    ensures Components(TrimRight(t)) == Components(t) && (TrimRight(t) == [] <==> OnlySlashes(t))
  {
    if t != [] && t[|t| - 1] == SLASH {
      var init := t[..|t| - 1];
      TrimRightIsHarmless(init);
      assert t == init + [SLASH];
      FinalSlash(init, []);
      assert OnlySlashes(t) <==> OnlySlashes(init);
    }
  }

  /** Only slashes are trimmed, and splitting does not notice. */
  lemma TrimmingIsHarmless(t: Text)
    ensures SplitPath(TrimRight(TrimLeft(t))) == SplitPath(t)
    ensures TrimRight(TrimLeft(t)) == [] <==> OnlySlashes(t)
  {
    TrimLeftIsHarmless(t);
    TrimRightIsHarmless(TrimLeft(t));
  }

  /** `list_tree` after the path was trimmed and split, the empty path being the root. */
  function ListAt(s: Store, root: Hash, p: Path): Result<seq<TreeEntry>, Error> {
    if p == [] then GetTree(s, root)
    else
      var e :- Resolve(s, root, p);
      if !e.kind.TreeKind? then Failure(NotATree) else GetTree(s, e.target)
  }

  method ListTree(store: ObjectStore, root: Hash, path: Text) returns (r: Result<seq<TreeEntry>, Error>)
    ensures OnlySlashes(path) ==> r == ListAt(store.files, root, [])
    ensures !OnlySlashes(path) ==>
              if SplitPath(path).Failure? then r == Failure(SplitPath(path).error)
              else r == ListAt(store.files, root, SplitPath(path).value)
  {
    TrimmingIsHarmless(path);
    var trimmed := TrimRight(TrimLeft(path));
    if trimmed == [] {
      return GetTree(store.files, root);
    }
    var parts :- SplitPath(trimmed);
    var entry :- LookupEntry(store, root, parts);
    if !entry.kind.TreeKind? {
      return Failure(NotATree);
    }
    return GetTree(store.files, entry.target);
  }

  /** In a store that has the trees, listing succeeds exactly on directories, and what it lists are
      the names that lookups one step further down find. */
  lemma ListIsOneStepDown(s: Store, root: Hash, p: Path, n: Text)
    requires Honest(s) && TreesStored(s, root) && WellFormed(root.obj.entries)
    ensures ListAt(s, root, p).Success?
            <==> p == [] || (EntryAt(root.obj.entries, p).Some? && IsDir(EntryAt(root.obj.entries, p).value))
    ensures ListAt(s, root, p).Success? ==> Find(ListAt(s, root, p).value, n) == EntryAt(root.obj.entries, p + [n])
  {
    if p != [] {
      ResolveIsEntryAt(s, root, p);
      StepDown(s, root, p, n);
    }
  }

  lemma {:induction false} StepDown(s: Store, root: Hash, p: Path, n: Text)
    requires TreesStored(s, root) && WellFormed(root.obj.entries) && p != []
    ensures match EntryAt(root.obj.entries, p)
            case None => true
            case Some(e) =>
              && (e.kind.TreeKind? ==> IsDir(e) && TreesStored(s, e.target))
              && EntryAt(root.obj.entries, p + [n]) == if IsDir(e) then Find(e.target.obj.entries, n) else None
    decreases |p|
  {
    var e := Find(root.obj.entries, p[0]);
    assert (p + [n])[0] == p[0] && (p + [n])[1..] == p[1..] + [n];
    if |p| > 1 {
      if e.Some? && IsDir(e.value) {
        StepDown(s, e.value.target, p[1..], n);
      }
    } else if e.Some? && IsDir(e.value) {
      assert EntryAt(e.value.target.obj.entries, [n]) == Find(e.value.target.obj.entries, n);
      assert p[1..] + [n] == [n];
    }
  }
}
