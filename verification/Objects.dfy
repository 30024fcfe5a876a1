/** The object model and the content-addressed store.

    A hash is represented by the object it was computed from, which makes it injective and makes
    the object graph acyclic by construction. Nothing reads through a hash: every operation
    fetches objects from the store, which may lack them. */
module Objects {
  import opened Wrappers
  import opened Lex

  datatype Error =
    | NotFound | HashMismatch | WrongKind | InvalidName | EmptyPath
    | NoEntry | NotATree | AlreadyExists | Unsupported | SealedPresent | Dirty
    | Binary | NoCurrentChange | NoWorkspace | InWorkspace | Corrupt | TooLarge | EmptyPattern

  datatype EntryKind = FileKind | TreeKind | SymlinkKind | SealedKind | ConflictKind | SubmoduleKind

  /** `Foreign` stands for the hash of bytes that are not one of our objects, such as a submodule
      commit or the placeholder of a change that has no snapshot yet. */
  datatype Hash = Of(obj: Object) | Foreign(id: nat)

  datatype TreeEntry = TreeEntry(name: Text, kind: EntryKind, target: Hash, mode: nat, vis: Option<Text>)

  datatype Snapshot =
    Snapshot(parents: seq<Hash>, tree: Hash, author: Text, timestamp: nat, message: Option<Text>)

  datatype Object =
    | BlobObj(bytes: Text)
    | TreeObj(entries: seq<TreeEntry>)
    | SnapObj(snap: Snapshot)
    | SealedObj(cipher: Text)
    | ConflictObj(data: Text)

  const REGULAR: nat := 0x81A4 // 0o100644
  const EXEC: nat := 0x81ED // 0o100755
  const SYMLINK: nat := 0xA000 // 0o120000
  const DIR: nat := 0x4000 // 0o040000

  /** `mode & 0o111 != 0` */
  predicate IsExecutable(mode: nat) {
    mode % 2 == 1 || mode / 8 % 2 == 1 || mode / 64 % 2 == 1
  }

  function Octal(a: nat, b: nat, c: nat, d: nat, e: nat, f: nat): nat {
    ((((a * 8 + b) * 8 + c) * 8 + d) * 8 + e) * 8 + f
  }

  /** A mode is executable when one of its last three octal digits is odd. */
  lemma ExecutableIff(a: nat, b: nat, c: nat, owner: nat, group: nat, other: nat)
    requires owner < 8 && group < 8 && other < 8
    ensures IsExecutable(Octal(a, b, c, owner, group, other)) <==> owner % 2 == 1 || group % 2 == 1 || other % 2 == 1
  {
    var high := (a * 8 + b) * 8 + c;
    LastDigit(high, owner);
    LastDigit(high * 8 + owner, group);
    LastDigit((high * 8 + owner) * 8 + group, other);
    EighthOfEighth(Octal(a, b, c, owner, group, other));
  }

  lemma LastDigit(high: nat, digit: nat)
    requires digit < 8
    ensures (high * 8 + digit) / 8 == high && (high * 8 + digit) % 2 == digit % 2
  {
    assert (high * 8 + digit) / 8 == high by {
      assert 8 * high <= high * 8 + digit < 8 * high + 8;
    }
    var half := 4 * high + digit / 2;
    assert high * 8 + digit == 2 * half + digit % 2;
  }

  lemma EighthOfEighth(n: nat)
    ensures n / 8 / 8 == n / 64
  {
  }

  /** The modes of regular and executable files, symlinks and directories. */
  lemma ModesInOctal()
    ensures REGULAR == Octal(1, 0, 0, 6, 4, 4) && EXEC == Octal(1, 0, 0, 7, 5, 5)
    ensures SYMLINK == Octal(1, 2, 0, 0, 0, 0) && DIR == Octal(0, 4, 0, 0, 0, 0)
  {
  }

  function TreeHash(es: seq<TreeEntry>): Hash {
    Of(TreeObj(es))
  }

  predicate IsTree(h: Hash) {
    h.Of? && h.obj.TreeObj?
  }

  predicate IsSnap(h: Hash) {
    h.Of? && h.obj.SnapObj?
  }

  /** A directory entry whose target really is a tree. */
  predicate IsDir(e: TreeEntry) {
    e.kind.TreeKind? && IsTree(e.target)
  }

  type Store = map<Hash, Object>

  /** Every file of the store holds the object its name was computed from. */
  ghost predicate Honest(s: Store) {
    forall h | h in s :: h == Of(s[h])
  }

  ghost predicate Extends(s: Store, s': Store) {
    forall h | h in s :: h in s' && s'[h] == s[h]
  }

  /** `put` leaves a file that already exists alone. */
  function Put(s: Store, o: Object): (s': Store)
    ensures Of(o) in s' && Extends(s, s')
    ensures Honest(s) ==> Honest(s')
  {
    if Of(o) in s then s else s[Of(o) := o]
  }

  /** Nothing but the object is added, and only if there is no file of its name. */
  lemma PutAddsOne(s: Store, o: Object)
    ensures Put(s, o).Keys == s.Keys + {Of(o)} && forall h | h in s :: Put(s, o)[h] == s[h]
    ensures Of(o) !in s ==> Put(s, o)[Of(o)] == o
  {
  }

  /** `get` rejects a file whose content does not hash to its name. */
  function Get(s: Store, h: Hash): (r: Result<Object, Error>)
    ensures r.Success? ==> h == Of(r.value) && h in s
    ensures Honest(s) && h in s ==> r.Success?
  {
    if h !in s then Failure(NotFound)
    else if Of(s[h]) != h then Failure(HashMismatch)
    else Success(s[h])
  }

  function GetTree(s: Store, h: Hash): (r: Result<seq<TreeEntry>, Error>)
    ensures r.Success? ==> h == TreeHash(r.value) && h in s
    ensures Honest(s) && h in s && IsTree(h) ==> r.Success?
  {
    var o :- Get(s, h);
    if o.TreeObj? then Success(o.entries) else Failure(WrongKind)
  }

  function GetBlob(s: Store, h: Hash): (r: Result<Text, Error>)
    ensures r.Success? ==> h == Of(BlobObj(r.value)) && h in s
    ensures Honest(s) && h in s && h.Of? && h.obj.BlobObj? ==> r.Success?
  {
    var o :- Get(s, h);
    if o.BlobObj? then Success(o.bytes) else Failure(WrongKind)
  }

  function GetSnap(s: Store, h: Hash): (r: Result<Snapshot, Error>)
    ensures r.Success? ==> h == Of(SnapObj(r.value)) && h in s
    ensures Honest(s) && h in s && IsSnap(h) ==> r.Success?
  {
    var o :- Get(s, h);
    if o.SnapObj? then Success(o.snap) else Failure(WrongKind)
  }

  /** Exactly when an object can be read: its file is there, hashes to its name, and is of the wanted kind. A
      missing file, one with another hash, and one of another kind are told apart. */
  lemma ReadsIff(s: Store, h: Hash)
    ensures Get(s, h) == if h !in s then Failure(NotFound) else if h != Of(s[h]) then Failure(HashMismatch) else Success(s[h])
    ensures GetTree(s, h).Success? <==> IsTree(h) && h in s && s[h] == h.obj
    ensures GetSnap(s, h).Success? <==> IsSnap(h) && h in s && s[h] == h.obj
    ensures GetBlob(s, h).Success? <==> h.Of? && h.obj.BlobObj? && h in s && s[h] == h.obj
    ensures Get(s, h).Success? ==>
              && (GetTree(s, h).Failure? ==> GetTree(s, h) == Failure(WrongKind))
              && (GetSnap(s, h).Failure? ==> GetSnap(s, h) == Failure(WrongKind))
              && (GetBlob(s, h).Failure? ==> GetBlob(s, h) == Failure(WrongKind))
  {
  }

  /** The store as the directory it lives in; `files` is replaced by each write or removal. */
  class ObjectStore {
    var files: Store

    constructor ()
      ensures files == map[]
    {
      files := map[];
    }

    method Write(o: Object) returns (h: Hash)
      modifies this
      ensures h == Of(o) && files == Put(old(files), o)
    {
      h := Of(o);
      if h !in files {
        files := files[h := o];
      }
    }

    method Remove(h: Hash)
      modifies this
      ensures files == old(files) - {h}
    {
      files := files - {h};
    }
  }

  /** The kinds whose target the collector follows. */
  predicate Followed(k: EntryKind) {
    k.TreeKind? || k.FileKind? || k.SealedKind? || k.ConflictKind?
  }

  /** The object `h` and everything below it are stored, but for what symlinks and submodules name. */
  ghost predicate Complete(s: Store, h: Hash) {
    && h.Of? && h in s && s[h] == h.obj
    && match h.obj
       case SnapObj(snap) => Complete(s, snap.tree) && forall p | p in snap.parents :: Complete(s, p)
       case TreeObj(es) => forall e | e in es && !e.kind.SymlinkKind? && !e.kind.SubmoduleKind? :: Complete(s, e.target)
       case _ => true
  }

  lemma {:induction false} CompleteExtends(s: Store, s': Store, h: Hash)
    requires Complete(s, h) && Extends(s, s')
    ensures Complete(s', h)
    decreases h
  {
    match h.obj
    case SnapObj(snap) =>
      CompleteExtends(s, s', snap.tree);
      forall p | p in snap.parents ensures Complete(s', p) {
        CompleteExtends(s, s', p);
      }
    case TreeObj(es) =>
      forall e | e in es && Followed(e.kind) ensures Complete(s', e.target) {
        CompleteExtends(s, s', e.target);
      }
    case _ =>
  }

  /** Like `Complete`, but including the blobs that hold symlink targets. */
  ghost predicate FullyStored(s: Store, h: Hash) {
    && h.Of? && h in s && s[h] == h.obj
    && match h.obj
       case SnapObj(snap) => FullyStored(s, snap.tree) && forall p | p in snap.parents :: FullyStored(s, p)
       case TreeObj(es) => forall e | e in es && !e.kind.SubmoduleKind? :: FullyStored(s, e.target)
       case _ => true
  }

  lemma {:induction false} FullyStoredExtends(s: Store, s': Store, h: Hash)
    requires FullyStored(s, h) && Extends(s, s')
    ensures FullyStored(s', h)
    decreases h
  {
    match h.obj
    case SnapObj(snap) =>
      FullyStoredExtends(s, s', snap.tree);
      forall p | p in snap.parents ensures FullyStored(s', p) {
        FullyStoredExtends(s, s', p);
      }
    case TreeObj(es) =>
      forall e | e in es && !e.kind.SubmoduleKind? ensures FullyStored(s', e.target) {
        FullyStoredExtends(s, s', e.target);
      }
    case _ =>
  }

  lemma {:induction false} FullyStoredIsComplete(s: Store, h: Hash)
    requires FullyStored(s, h)
    ensures Complete(s, h)
    decreases h
  {
    match h.obj
    case SnapObj(snap) =>
      FullyStoredIsComplete(s, snap.tree);
      forall p | p in snap.parents ensures Complete(s, p) {
        FullyStoredIsComplete(s, p);
      }
    case TreeObj(es) =>
      forall e | e in es && Followed(e.kind) ensures Complete(s, e.target) {
        FullyStoredIsComplete(s, e.target);
      }
    case _ =>
  }

  /** A snapshot is never among its own parents, so advancing a change always moves it. */
  lemma SnapshotIsNotItsParent(snap: Snapshot)
    ensures forall p | p in snap.parents :: p != Of(SnapObj(snap))
  {
    forall p | p in snap.parents ensures p != Of(SnapObj(snap)) {
      assert p < Of(SnapObj(snap));
    }
  }
}
