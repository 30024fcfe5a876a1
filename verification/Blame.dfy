/** Line attribution along the chain of first parents. The line-diff library is a parameter: any
    function that turns two token lists into an edit script. */
module Blame {
  import opened Wrappers
  import opened Lex
  import opened Objects
  import opened TreeAlgebra
  import opened TreeEdit
  import opened LineCuts

  datatype Edit = Equal(o: nat, n: nat) | Insert(n: nat) | Delete(o: nat)

  /** The edits visit the old tokens from `i` and the new ones from `j` in order, each once, and
      call equal only what is equal. */
  predicate IsScript(old_: seq<Text>, new_: seq<Text>, es: seq<Edit>, i: nat, j: nat)
    decreases |es|
  {
    if es == [] then i == |old_| && j == |new_|
    else
      match es[0]
      case Equal(o, n) =>
        o == i < |old_| && n == j < |new_| && old_[o] == new_[n] && IsScript(old_, new_, es[1..], i + 1, j + 1)
      case Insert(n) => n == j < |new_| && IsScript(old_, new_, es[1..], i, j + 1)
      case Delete(o) => o == i < |old_| && IsScript(old_, new_, es[1..], i + 1, j)
  }

  /** The script that deletes everything and inserts everything. */
  function Rewrite(a: seq<Text>, b: seq<Text>): (es: seq<Edit>)
    ensures IsScript(a, b, es, 0, 0)
  {
    DeleteThenInsert(a, b, 0, 0)
  }

  function DeleteThenInsert(a: seq<Text>, b: seq<Text>, i: nat, j: nat): (es: seq<Edit>)
    requires i <= |a| && j <= |b|
    ensures IsScript(a, b, es, i, j)
    decreases |a| - i + |b| - j
  {
    if i < |a| then [Delete(i)] + DeleteThenInsert(a, b, i + 1, j)
    else if j < |b| then [Insert(j)] + DeleteThenInsert(a, b, i, j + 1)
    else []
  }

  type Differ = d: (seq<Text>, seq<Text>) -> seq<Edit> | forall a, b :: IsScript(a, b, d(a, b), 0, 0) witness Rewrite

  datatype BlameLine = BlameLine(line: Text, snap: Hash, author: Text, timestamp: nat, message: Option<Text>)

  function SynthesizeLine(line: Text, h: Hash, snap: Snapshot): BlameLine {
    BlameLine(line, h, snap.author, snap.timestamp, snap.message)
  }

  function MakeLines(lines: seq<Text>, h: Hash, snap: Snapshot): (r: seq<BlameLine>)
    ensures |r| == |lines| && forall i | 0 <= i < |lines| :: r[i] == SynthesizeLine(lines[i], h, snap)
  {
    seq(|lines|, i requires 0 <= i < |lines| => SynthesizeLine(lines[i], h, snap))
  }

  /** The line for one token of the current version. */
  function Inherit(o: nat, token: Text, attrs: seq<BlameLine>, h: Hash, snap: Snapshot): BlameLine {
    if o < |attrs| then attrs[o] else SynthesizeLine(StripEol(token), h, snap)
  }

  /** What one edit contributes. */
  function EditLines(e: Edit, new_: seq<Text>, attrs: seq<BlameLine>, h: Hash, snap: Snapshot): seq<BlameLine>
    requires !e.Delete? ==> e.n < |new_|
  {
    match e
    case Equal(o, n) => [Inherit(o, new_[n], attrs, h, snap)]
    case Insert(n) => [SynthesizeLine(StripEol(new_[n]), h, snap)]
    case Delete(_) => []
  }

  function Attribute(old_: seq<Text>, new_: seq<Text>, es: seq<Edit>, i: nat, j: nat,
                     attrs: seq<BlameLine>, h: Hash, snap: Snapshot): seq<BlameLine>
    requires IsScript(old_, new_, es, i, j)
    decreases |es|
  {
    if es == [] then []
    else
      EditLines(es[0], new_, attrs, h, snap)
      + Attribute(old_, new_, es[1..], OldAfter(es[0], i), NewAfter(es[0], j), attrs, h, snap)
  }

  function OldAfter(e: Edit, i: nat): nat {
    if e.Insert? then i else i + 1
  }

  function NewAfter(e: Edit, j: nat): nat {
    if e.Delete? then j else j + 1
  }

  function Blame(s: Store, h: Hash, p: Path, d: Differ): Result<seq<BlameLine>, Error>
    requires p != []
    decreases h
  {
    var snap :- GetSnap(s, h);
    var current :- TryReadBlob(s, snap.tree, p);
    if current.None? then Failure(NoEntry)
    else if IsBinary(current.value) then Failure(Binary)
    else if snap.parents == [] then Success(MakeLines(Lines(current.value), h, snap))
    else
      var parent :- GetSnap(s, snap.parents[0]);
      var before :- TryReadBlob(s, parent.tree, p);
      if before.None? || IsBinary(before.value) then Success(MakeLines(Lines(current.value), h, snap))
      else
        var attrs :- Blame(s, snap.parents[0], p, d);
        var a, b := Tokens(before.value), Tokens(current.value);
        Success(Attribute(a, b, d(a, b), 0, 0, attrs, h, snap))
  }

  method ApplyScript(a: seq<Text>, b: seq<Text>, es: seq<Edit>, attrs: seq<BlameLine>, h: Hash, snap: Snapshot)
    returns (out: seq<BlameLine>)
    requires IsScript(a, b, es, 0, 0)
    ensures out == Attribute(a, b, es, 0, 0, attrs, h, snap)
  {
    ghost var all := Attribute(a, b, es, 0, 0, attrs, h, snap);
    out := [];
    var k := 0;
    ghost var i: nat, j: nat := 0, 0;
    while k < |es|
      invariant 0 <= k <= |es| && IsScript(a, b, es[k..], i, j)
      invariant out + Attribute(a, b, es[k..], i, j, attrs, h, snap) == all
    {
      ghost var before := out;
      match es[k] {
        case Equal(o, n) =>
          if o < |attrs| {
            out := out + [attrs[o]];
          } else {
            var line := StripEnd(b[n]);
            out := out + [SynthesizeLine(line, h, snap)];
          }
        case Insert(n) =>
          var line := StripEnd(b[n]);
          out := out + [SynthesizeLine(line, h, snap)];
        case Delete(_) =>
          assert out == out + [];
      }
      AttributeStep(a, b, es, k, i, j, attrs, h, snap, before, out, all);
      i, j := OldAfter(es[k], i), NewAfter(es[k], j);
      k := k + 1;
    }
  }

  lemma AttributeStep(a: seq<Text>, b: seq<Text>, es: seq<Edit>, k: nat, i: nat, j: nat, attrs: seq<BlameLine>,
                      h: Hash, snap: Snapshot, before: seq<BlameLine>, after: seq<BlameLine>, all: seq<BlameLine>)
    requires k < |es| && IsScript(a, b, es[k..], i, j)
    requires before + Attribute(a, b, es[k..], i, j, attrs, h, snap) == all
    requires after == before + EditLines(es[k], b, attrs, h, snap)
    ensures IsScript(a, b, es[k + 1..], OldAfter(es[k], i), NewAfter(es[k], j))
    ensures after + Attribute(a, b, es[k + 1..], OldAfter(es[k], i), NewAfter(es[k], j), attrs, h, snap) == all
  {
    assert es[k..][0] == es[k] && es[k..][1..] == es[k + 1..];
    var step, rest := EditLines(es[k], b, attrs, h, snap),
      Attribute(a, b, es[k + 1..], OldAfter(es[k], i), NewAfter(es[k], j), attrs, h, snap);
    assert (before + step) + rest == before + (step + rest);
  }

  method BlameAt(store: ObjectStore, path: Text, target: Hash, d: Differ) returns (r: Result<seq<BlameLine>, Error>)
    ensures SplitPath(path).Success? ==> r == Blame(store.files, target, SplitPath(path).value, d)
    ensures SplitPath(path).Failure? ==> r.Failure?
    decreases target
  {
    var snap :- GetSnap(store.files, target);
    var current :- TryReadBlobAtPath(store, snap.tree, path);
    if current.None? {
      return Failure(NoEntry);
    }
    if IsBinary(current.value) {
      return Failure(Binary);
    }
    if snap.parents == [] {
      return Success(MakeLines(Lines(current.value), target, snap));
    }
    var parent :- GetSnap(store.files, snap.parents[0]);
    var before :- TryReadBlobAtPath(store, parent.tree, path);
    if before.None? || IsBinary(before.value) {
      return Success(MakeLines(Lines(current.value), target, snap));
    }
    var attrs :- BlameAt(store, path, snap.parents[0], d);
    var a, b := Tokens(before.value), Tokens(current.value);
    var out := ApplyScript(a, b, d(a, b), attrs, target, snap);
    return Success(out);
  }

  // --- what an attribution means ------------------------------------------------------------

  function Version(s: Store, h: Hash, p: Path): Result<Option<Text>, Error>
    requires p != []
  {
    var snap :- GetSnap(s, h);
    TryReadBlob(s, snap.tree, p)
  }

  /** The snapshot holds the path as a text file. */
  predicate HasText(s: Store, h: Hash, p: Path)
    requires p != []
  {
    var v := Version(s, h, p);
    v.Success? && v.value.Some? && !IsBinary(v.value.value)
  }

  function TextAt(s: Store, h: Hash, p: Path): Text
    requires p != [] && HasText(s, h, p)
  {
    Version(s, h, p).value.value
  }

  /** The first parent, when the path is a text file there too. */
  predicate Inherits(s: Store, h: Hash, p: Path)
    requires p != []
  {
    IsSnap(h) && h.obj.snap.parents != [] && HasText(s, h.obj.snap.parents[0], p)
  }

  function Parent(h: Hash): Hash
    requires IsSnap(h) && h.obj.snap.parents != []
  {
    h.obj.snap.parents[0]
  }

  function Script(s: Store, h: Hash, p: Path, d: Differ): seq<Edit>
    requires p != [] && HasText(s, h, p) && Inherits(s, h, p)
  {
    d(Tokens(TextAt(s, Parent(h), p)), Tokens(TextAt(s, h, p)))
  }

  /** The old token that the script carries over as the new token `k`. */
  function Carrier(es: seq<Edit>, k: nat): Option<nat> {
    if es == [] then None
    else if es[0].Equal? && es[0].n == k then Some(es[0].o)
    else Carrier(es[1..], k)
  }

  /** Line `i` of the version at `h` entered the chain at `o`: carried by equal edits down to a
      version in which it was inserted, or with which the text file began. */
  ghost predicate CameFrom(s: Store, h: Hash, p: Path, d: Differ, i: nat, o: Hash)
    requires p != [] && HasText(s, h, p)
    decreases h
  {
    if !Inherits(s, h, p) then o == h
    else
      match Carrier(Script(s, h, p, d), i)
      case None => o == h
      case Some(j) => CameFrom(s, Parent(h), p, d, j, o)
  }

  /** No version that the attribution reads has a lone carriage return. */
  ghost predicate CleanChain(s: Store, h: Hash, p: Path)
    requires p != []
    decreases h
  {
    && (HasText(s, h, p) ==> NoLoneCr(TextAt(s, h, p)))
    && (Inherits(s, h, p) ==> CleanChain(s, Parent(h), p))
  }

  /** The line carries the metadata of the snapshot it names. */
  predicate Credits(b: BlameLine, line: Text, o: Hash) {
    && b.line == line && b.snap == o && IsSnap(o)
    && b.author == o.obj.snap.author && b.timestamp == o.obj.snap.timestamp && b.message == o.obj.snap.message
  }

  lemma {:induction false} CarrierInRange(a: seq<Text>, b: seq<Text>, es: seq<Edit>, i: nat, j: nat, k: nat)
    requires IsScript(a, b, es, i, j) && Carrier(es, k).Some?
    ensures k < |b| && Carrier(es, k).value < |a| && a[Carrier(es, k).value] == b[k]
    decreases |es|
  {
    if !(es[0].Equal? && es[0].n == k) {
      match es[0]
      case Equal(_, _) => CarrierInRange(a, b, es[1..], i + 1, j + 1, k);
      case Insert(_) => CarrierInRange(a, b, es[1..], i, j + 1, k);
      case Delete(_) => CarrierInRange(a, b, es[1..], i + 1, j, k);
    }
  }

  lemma {:induction false} CarrierFollows(a: seq<Text>, b: seq<Text>, es: seq<Edit>, i: nat, j: nat, k: nat)
    requires IsScript(a, b, es, i, j) && k < j
    ensures Carrier(es, k).None?
    decreases |es|
  {
    if es != [] {
      match es[0]
      case Equal(_, _) => CarrierFollows(a, b, es[1..], i + 1, j + 1, k);
      case Insert(_) => CarrierFollows(a, b, es[1..], i, j + 1, k);
      case Delete(_) => CarrierFollows(a, b, es[1..], i + 1, j, k);
    }
  }

  /** The line that the attribution gives to new token `k`. */
  function Attributed(b: seq<Text>, es: seq<Edit>, k: nat, attrs: seq<BlameLine>, h: Hash, snap: Snapshot): BlameLine
    requires k < |b|
  {
    match Carrier(es, k)
    case Some(o) => Inherit(o, b[k], attrs, h, snap)
    case None => SynthesizeLine(StripEol(b[k]), h, snap)
  }

  lemma {:induction false} AttributeAt(a: seq<Text>, b: seq<Text>, es: seq<Edit>, i: nat, j: nat,
                                       attrs: seq<BlameLine>, h: Hash, snap: Snapshot)
    requires IsScript(a, b, es, i, j)
    ensures j + |Attribute(a, b, es, i, j, attrs, h, snap)| == |b|
    ensures forall k | j <= k < |b| ::
              Attribute(a, b, es, i, j, attrs, h, snap)[k - j] == Attributed(b, es, k, attrs, h, snap)
    decreases |es|
  {
    if es != [] {
      var j' := NewAfter(es[0], j);
      AttributeAt(a, b, es[1..], OldAfter(es[0], i), j', attrs, h, snap);
      var head, rest := EditLines(es[0], b, attrs, h, snap), Attribute(a, b, es[1..], OldAfter(es[0], i), j', attrs, h, snap);
      assert Attribute(a, b, es, i, j, attrs, h, snap) == head + rest && |head| == j' - j;
      forall k | j <= k < |b| ensures (head + rest)[k - j] == Attributed(b, es, k, attrs, h, snap) {
        if k >= j' {
          assert (head + rest)[k - j] == rest[k - j'];
          assert Attributed(b, es, k, attrs, h, snap) == Attributed(b, es[1..], k, attrs, h, snap);
        } else {
          FirstAttributed(a, b, es, i, j, attrs, h, snap);
          assert (head + rest)[k - j] == head[0];
        }
      }
    }
  }

  lemma FirstAttributed(a: seq<Text>, b: seq<Text>, es: seq<Edit>, i: nat, j: nat, attrs: seq<BlameLine>, h: Hash, snap: Snapshot)
    requires es != [] && !es[0].Delete? && IsScript(a, b, es, i, j)
    ensures EditLines(es[0], b, attrs, h, snap) == [Attributed(b, es, j, attrs, h, snap)]
  {
    if es[0].Insert? {
      CarrierFollows(a, b, es[1..], i, j + 1, j);
    }
  }

  lemma AttributeIsAttributed(a: seq<Text>, b: seq<Text>, es: seq<Edit>, attrs: seq<BlameLine>, h: Hash, snap: Snapshot)
    requires IsScript(a, b, es, 0, 0)
    ensures |Attribute(a, b, es, 0, 0, attrs, h, snap)| == |b|
    ensures forall k | 0 <= k < |b| ::
              Attribute(a, b, es, 0, 0, attrs, h, snap)[k] == Attributed(b, es, k, attrs, h, snap)
  {
    AttributeAt(a, b, es, 0, 0, attrs, h, snap);
    var r := Attribute(a, b, es, 0, 0, attrs, h, snap);
    forall k | 0 <= k < |b| ensures r[k] == Attributed(b, es, k, attrs, h, snap) {
      assert r[k - 0] == Attributed(b, es, k, attrs, h, snap);
    }
  }

  /** The outcome of blame in terms of the versions. */
  lemma BlameUnfolds(s: Store, h: Hash, p: Path, d: Differ)
    requires p != [] && Blame(s, h, p, d).Success?
    ensures HasText(s, h, p) && IsSnap(h)
    ensures !Inherits(s, h, p) ==>
              Blame(s, h, p, d).value == MakeLines(Lines(TextAt(s, h, p)), h, h.obj.snap)
    ensures Inherits(s, h, p) ==>
              && Blame(s, Parent(h), p, d).Success?
              && Blame(s, h, p, d).value ==
                 Attribute(Tokens(TextAt(s, Parent(h), p)), Tokens(TextAt(s, h, p)), Script(s, h, p, d), 0, 0,
                           Blame(s, Parent(h), p, d).value, h, h.obj.snap)
  {
  }

  /** The line has the right text and credits the snapshot at which it entered the chain. */
  ghost predicate Explained(s: Store, h: Hash, p: Path, d: Differ, i: nat, b: BlameLine)
    requires p != [] && HasText(s, h, p)
  {
    && i < |Lines(TextAt(s, h, p))|
    && Credits(b, Lines(TextAt(s, h, p))[i], b.snap)
    && CameFrom(s, h, p, d, i, b.snap)
  }

  /** `o` is reached from `h` by following first parents. */
  ghost predicate OnChain(h: Hash, o: Hash)
    decreases h
  {
    o == h || (IsSnap(h) && h.obj.snap.parents != [] && OnChain(h.obj.snap.parents[0], o))
  }

  /** What it means to have come from `o`: that snapshot is on the first-parent chain, its version has
      the very token, and there it is not carried over from any earlier version. */
  lemma {:induction false} OriginHasToken(s: Store, h: Hash, p: Path, d: Differ, i: nat, o: Hash) returns (k: nat)
    requires p != [] && HasText(s, h, p) && CameFrom(s, h, p, d, i, o)
    requires i < |Tokens(TextAt(s, h, p))|
    ensures OnChain(h, o) && HasText(s, o, p) && (CleanChain(s, h, p) ==> CleanChain(s, o, p))
    ensures k < |Tokens(TextAt(s, o, p))| && Tokens(TextAt(s, o, p))[k] == Tokens(TextAt(s, h, p))[i]
    ensures !Inherits(s, o, p) || Carrier(Script(s, o, p, d), k).None?
    decreases h
  {
    if Inherits(s, h, p) && Carrier(Script(s, h, p, d), i).Some? {
      CarrierInRange(Tokens(TextAt(s, Parent(h), p)), Tokens(TextAt(s, h, p)), Script(s, h, p, d), 0, 0, i);
      k := OriginHasToken(s, Parent(h), p, d, Carrier(Script(s, h, p, d), i).value, o);
    } else {
      k := i;
    }
  }

  /** Without lone carriage returns the origin has the very line. */
  lemma OriginHasLine(s: Store, h: Hash, p: Path, d: Differ, i: nat, o: Hash) returns (k: nat)
    requires p != [] && HasText(s, h, p) && CleanChain(s, h, p) && CameFrom(s, h, p, d, i, o)
    requires i < |Lines(TextAt(s, h, p))|
    ensures OnChain(h, o) && HasText(s, o, p)
    ensures k < |Lines(TextAt(s, o, p))| && Lines(TextAt(s, o, p))[k] == Lines(TextAt(s, h, p))[i]
    ensures !Inherits(s, o, p) || Carrier(Script(s, o, p, d), k).None?
  {
    LinesAgreeIff(TextAt(s, h, p));
    k := OriginHasToken(s, h, p, d, i, o);
    LinesAgreeIff(TextAt(s, o, p));
  }

  // --- lone carriage returns ----------------------------------------------------------------

  function Texts(r: seq<BlameLine>): seq<Text> {
    seq(|r|, i requires 0 <= i < |r| => r[i].line)
  }

  /** Without the condition on carriage returns the texts can be wrong: for a file that was empty in
      the parent, whatever the differ, they are right exactly when the condition holds. */
  lemma LoneCrBreaksBlame(s: Store, h: Hash, p: Path, d: Differ)
    requires p != [] && Blame(s, h, p, d).Success? && Inherits(s, h, p) && TextAt(s, Parent(h), p) == []
    ensures HasText(s, h, p)
    ensures Texts(Blame(s, h, p, d).value) == Lines(TextAt(s, h, p)) <==> NoLoneCr(TextAt(s, h, p))
  {
    BlameUnfolds(s, h, p, d);
    var current := TextAt(s, h, p);
    var b, es, attrs := Tokens(current), Script(s, h, p, d), Blame(s, Parent(h), p, d).value;
    AttributeIsAttributed([], b, es, attrs, h, h.obj.snap);
    forall i | 0 <= i < |b| ensures Attributed(b, es, i, attrs, h, h.obj.snap).line == StripEol(b[i]) {
      if Carrier(es, i).Some? {
        CarrierInRange([], b, es, 0, 0, i);
      }
    }
    assert Texts(Blame(s, h, p, d).value) == StripAll(b);
    LinesAgreeIff(current);
  }

  // --- success ------------------------------------------------------------------------------

  /** Every snapshot on the first-parent chain has a well-formed tree with blobs behind its files. */
  ghost predicate SoundChain(h: Hash)
    decreases h
  {
    && IsSnap(h)
    && IsTree(h.obj.snap.tree)
    && WellFormed(h.obj.snap.tree.obj.entries)
    && FilesAreBlobs(h.obj.snap.tree.obj.entries)
    && (h.obj.snap.parents != [] ==> SoundChain(Parent(h)))
  }

  /** The file of a snapshot, if the path is a regular file there. */
  function FileOf(h: Hash, p: Path): Option<Text>
    requires p != [] && IsSnap(h) && IsTree(h.obj.snap.tree)
  {
    FileAt(h.obj.snap.tree.obj.entries, p)
  }

  /** In a complete store blame succeeds exactly when the path is a text file at the target; it tells apart a
      path that is no file and one that is binary. */
  lemma {:induction false} BlameSucceedsIff(s: Store, h: Hash, p: Path, d: Differ)
    requires p != [] && Honest(s) && Complete(s, h) && SoundChain(h)
    ensures Blame(s, h, p, d).Success? <==> FileOf(h, p).Some? && !IsBinary(FileOf(h, p).value)
    ensures FileOf(h, p).None? ==> Blame(s, h, p, d) == Failure(NoEntry)
    ensures FileOf(h, p).Some? && IsBinary(FileOf(h, p).value) ==> Blame(s, h, p, d) == Failure(Binary)
    decreases h
  {
    var snap := h.obj.snap;
    TryReadIsFileAt(s, snap.tree, p);
    if snap.parents != [] {
      assert snap.parents[0] in snap.parents;
      TryReadIsFileAt(s, Parent(h).obj.snap.tree, p);
      BlameSucceedsIff(s, Parent(h), p, d);
    }
  }
}
