/** Searching a stored tree for matching lines, with a cap per file and a cap in all. The line matcher
    is a parameter. */
module Grep {
  import opened Wrappers
  import opened Lex
  import opened Objects
  import opened Trees
  import opened TreeAlgebra
  import opened TreeEdit
  import opened LineCuts

  datatype GrepMatch = GrepMatch(path: Path, lineNumber: nat, line: Text)

  datatype Options = Options(paths: seq<Text>, perFile: Option<nat>, total: Option<nat>)

  /** Unlike in a comparison of trees, only a filter that starts the path lets it pass. */
  predicate PassesFilter(paths: seq<Text>, t: Text) {
    paths == [] || exists p | p in paths :: p <= t
  }

  function FirstOf<T>(cap: Option<nat>, xs: seq<T>): seq<T> {
    if cap.Some? && cap.value < |xs| then xs[..cap.value] else xs
  }

  /** The longest prefix that the cap allows. */
  lemma FirstOfIsLongest<T>(cap: Option<nat>, xs: seq<T>)
    ensures var r := FirstOf(cap, xs);
            r <= xs && (cap.Some? ==> |r| <= cap.value) && (|r| < |xs| ==> cap == Some(|r|))
  {
  }

  predicate Full<T>(cap: Option<nat>, xs: seq<T>) {
    cap.Some? && |xs| >= cap.value
  }

  /** The cap per file as it takes effect: a cap of zero still lets one match through. */
  function FileCap(opts: Options): Option<nat> {
    match opts.perFile
    case None => None
    case Some(c) => Some(if c == 0 then 1 else c)
  }

  // --- the search without a total cap -------------------------------------------------------

  function LineMatches(path: Path, lines: seq<Text>, i: nat, m: Text -> bool): seq<GrepMatch>
    requires i <= |lines|
    decreases |lines| - i
  {
    if i == |lines| then []
    else (if m(lines[i]) then [GrepMatch(path, i + 1, lines[i])] else []) + LineMatches(path, lines, i + 1, m)
  }

  /** The matches found before the first error, and that error if there is one. */
  datatype Search = Search(found: seq<GrepMatch>, error: Option<Error>)

  const NOTHING: Search := Search([], None)

  function GrepFile(s: Store, h: Hash, path: Path, opts: Options, m: Text -> bool): Search {
    if !PassesFilter(opts.paths, Join(path)) then NOTHING
    else
      match GetBlob(s, h)
      case Failure(e) => Search([], Some(e))
      case Success(bytes) =>
        if IsBinary(bytes) then NOTHING
        else Search(FirstOf(FileCap(opts), LineMatches(path, Lines(bytes), 0, m)), None)
  }

  function GrepEntry(s: Store, e: TreeEntry, prefix: Path, opts: Options, m: Text -> bool): Search
    decreases e, 0
  {
    match e.kind
    case FileKind => GrepFile(s, e.target, prefix + [e.name], opts, m)
    case TreeKind => (
      match GetTree(s, e.target)
      case Failure(err) => Search([], Some(err))
      case Success(sub) => GrepEntries(s, sub, prefix + [e.name], opts, m)
      )
    case _ => NOTHING
  }

  function GrepEntries(s: Store, es: seq<TreeEntry>, prefix: Path, opts: Options, m: Text -> bool): Search
    decreases es, 1
  {
    if es == [] then NOTHING
    else Then(GrepEntry(s, es[0], prefix, opts, m), GrepEntries(s, es[1..], prefix, opts, m))
  }

  /** One search after the other; an error ends both. */
  function Then(a: Search, b: Search): Search {
    if a.error.Some? then a else Search(a.found + b.found, b.error)
  }

  // --- the search as it runs ----------------------------------------------------------------

  /** What a capped search that has `out` already makes of the matches of the same search without a total
      cap: it stops as soon as the cap is reached, and only otherwise runs into the error. */
  function Capped(cap: Option<nat>, out: seq<GrepMatch>, all: Search): Result<seq<GrepMatch>, Error> {
    var kept := FirstOf(cap, out + all.found);
    if all.error.None? || Full(cap, kept) then Success(kept) else Failure(all.error.value)
  }

  /** The matches of one file that count: all of them, or as many as the cap says, but at least one. */
  predicate FirstMatches(kept: seq<GrepMatch>, all: seq<GrepMatch>, perFile: Option<nat>) {
    && kept <= all
    && (perFile.None? ==> kept == all)
    && (perFile.Some? && perFile.value > 0 ==> |kept| <= perFile.value && (|kept| < perFile.value ==> kept == all))
    && (perFile == Some(0) ==> |kept| <= 1 && (kept == [] ==> all == []))
  }

  lemma FileCapKeeps(opts: Options, all: seq<GrepMatch>)
    ensures FirstMatches(FirstOf(FileCap(opts), all), all, opts.perFile)
  {
    FirstOfIsLongest(FileCap(opts), all);
  }

  method SearchLines(path: Path, lines: seq<Text>, opts: Options, m: Text -> bool, start: seq<GrepMatch>)
    returns (out: seq<GrepMatch>)
    requires !Full(opts.total, start)
    ensures out == FirstOf(opts.total, start + FirstOf(FileCap(opts), LineMatches(path, lines, 0, m)))
    ensures exists kept :: out == FirstOf(opts.total, start + kept)
                           && FirstMatches(kept, LineMatches(path, lines, 0, m), opts.perFile)
  {
    FileCapKeeps(opts, LineMatches(path, lines, 0, m));
    ghost var all := LineMatches(path, lines, 0, m);
    ghost var found: seq<GrepMatch> := [];
    out := start;
    var perFile := 0;
    var i := 0;
    while i < |lines|
      invariant 0 <= i <= |lines| && perFile == |found|
      invariant found + LineMatches(path, lines, i, m) == all && out == start + found
      invariant !Full(opts.total, out) && !Full(FileCap(opts), found)
    {
      if m(lines[i]) {
        ghost var x := GrepMatch(path, i + 1, lines[i]);
        FoundOneMore(found, x, LineMatches(path, lines, i + 1, m));
        out := out + [GrepMatch(path, i + 1, lines[i])];
        found := found + [x];
        perFile := perFile + 1;
        if opts.perFile.Some? && perFile >= opts.perFile.value {
          assert FirstOf(FileCap(opts), all) == found;
          return;
        }
        if Full(opts.total, out) {
          StoppedByCap(opts, start, found, LineMatches(path, lines, i + 1, m));
          return;
        }
      } else {
        assert [] + LineMatches(path, lines, i + 1, m) == LineMatches(path, lines, i + 1, m);
      }
      i := i + 1;
    }
    assert found + [] == found;
  }

  lemma FoundOneMore(found: seq<GrepMatch>, x: GrepMatch, rest: seq<GrepMatch>)
    ensures found + ([x] + rest) == found + [x] + rest
  {
  }

  lemma StoppedByCap(opts: Options, start: seq<GrepMatch>, found: seq<GrepMatch>, rest: seq<GrepMatch>)
    requires opts.total == Some(|start + found|) && !Full(FileCap(opts), found)
    ensures FirstOf(opts.total, start + FirstOf(FileCap(opts), found + rest)) == start + found
  {
    var kept := FirstOf(FileCap(opts), found + rest);
    assert kept[..|found|] == found;
    assert (start + kept)[..|start + found|] == start + found;
  }

  lemma CapAfterMore(cap: Option<nat>, xs: seq<GrepMatch>, more: seq<GrepMatch>)
    ensures FirstOf(cap, FirstOf(cap, xs) + more) == FirstOf(cap, xs + more)
    ensures Full(cap, FirstOf(cap, xs)) ==> FirstOf(cap, xs + more) == FirstOf(cap, xs)
  {
    if cap.Some? && cap.value < |xs| {
      assert (xs[..cap.value] + more)[..cap.value] == xs[..cap.value] == (xs + more)[..cap.value];
    } else if Full(cap, xs) {
      assert (xs + more)[..cap.value] == xs;
    }
  }

  /** Capping part by part is capping the whole, stopping where the cap is reached. */
  lemma CapComposes(cap: Option<nat>, out: seq<GrepMatch>, a: Search, b: Search)
    ensures Capped(cap, out, Then(a, b)) ==
            match Capped(cap, out, a)
            case Failure(e) => Failure(e)
            case Success(after) => if Full(cap, after) then Success(after) else Capped(cap, after, b)
  {
    assert out + (a.found + b.found) == out + a.found + b.found;
    CapAfterMore(cap, out + a.found, b.found);
  }

  /** In the middle of a tree: what the search still has to do, as far as the cap lets it. */
  function Remaining(cap: Option<nat>, out: seq<GrepMatch>, rest: Search): Result<seq<GrepMatch>, Error> {
    if Full(cap, out) then Success(out) else Capped(cap, out, rest)
  }

  lemma EntryDone(s: Store, es: seq<TreeEntry>, i: nat, prefix: Path, opts: Options, m: Text -> bool, out: seq<GrepMatch>)
    requires i < |es| && !Full(opts.total, out)
    ensures Remaining(opts.total, out, GrepEntries(s, es[i..], prefix, opts, m)) ==
            match Capped(opts.total, out, GrepEntry(s, es[i], prefix, opts, m))
            case Failure(e) => Failure(e)
            case Success(after) => Remaining(opts.total, after, GrepEntries(s, es[i + 1..], prefix, opts, m))
  {
    assert es[i..][0] == es[i] && es[i..][1..] == es[i + 1..];
    CapComposes(opts.total, out, GrepEntry(s, es[i], prefix, opts, m), GrepEntries(s, es[i + 1..], prefix, opts, m));
  }

  lemma FullIsCapped(cap: Option<nat>, out: seq<GrepMatch>, all: Search)
    requires cap.Some? ==> |out| <= cap.value
    ensures Remaining(cap, out, all) == Capped(cap, out, all)
  {
    if Full(cap, out) {
      CapAfterMore(cap, out, all.found);
    }
  }

  /** The walk refines the search without a total cap, on every store: the same matches up to the cap,
      and the same error exactly when the cap is not reached before it. */
  method Walk(store: ObjectStore, treeHash: Hash, prefix: Path, opts: Options, m: Text -> bool, start: seq<GrepMatch>)
    returns (r: Result<seq<GrepMatch>, Error>)
    requires opts.total.Some? ==> |start| <= opts.total.value
    ensures var es := GetTree(store.files, treeHash);
            r == if es.Failure? then Failure(es.error)
                 else Capped(opts.total, start, GrepEntries(store.files, es.value, prefix, opts, m))
    decreases treeHash
  {
    var es :- GetTree(store.files, treeHash);
    ghost var whole := GrepEntries(store.files, es, prefix, opts, m);
    FullIsCapped(opts.total, start, whole);
    var out := start;
    var i := 0;
    while i < |es|
      invariant 0 <= i <= |es|
      invariant Remaining(opts.total, out, GrepEntries(store.files, es[i..], prefix, opts, m))
                == Capped(opts.total, start, whole)
    {
      if Full(opts.total, out) {
        return Success(out);
      }
      EntryDone(store.files, es, i, prefix, opts, m, out);
      out :- WalkEntry(store, es[i], prefix, opts, m, out);
      i := i + 1;
    }
    assert out + [] == out;
    return Success(out);
  }

  method WalkEntry(store: ObjectStore, e: TreeEntry, prefix: Path, opts: Options, m: Text -> bool, out: seq<GrepMatch>)
    returns (r: Result<seq<GrepMatch>, Error>)
    requires !Full(opts.total, out)
    ensures r == Capped(opts.total, out, GrepEntry(store.files, e, prefix, opts, m))
    decreases e
  {
    assert out + [] == out;
    var path := prefix + [e.name];
    match e.kind
    case FileKind =>
      if !PassesFilter(opts.paths, Join(path)) {
        return Success(out);
      }
      var bytes :- GetBlob(store.files, e.target);
      if IsBinary(bytes) {
        return Success(out);
      }
      var found := SearchLines(path, Lines(bytes), opts, m, out);
      return Success(found);
    case TreeKind =>
      r := Walk(store, e.target, path, opts, m, out);
    case _ =>
      return Success(out);
  }

  // --- what is found ------------------------------------------------------------------------

  /** How many of the first `k` lines match. */
  function Hits(lines: seq<Text>, k: nat, m: Text -> bool): nat
    requires k <= |lines|
  {
    if k == 0 then 0 else Hits(lines, k - 1, m) + if m(lines[k - 1]) then 1 else 0
  }

  /** A line that a file must contribute: it matches, and fewer earlier lines match than the cap. */
  predicate Contributes(x: GrepMatch, lines: seq<Text>, cap: Option<nat>, m: Text -> bool) {
    && 1 <= x.lineNumber <= |lines|
    && x.line == lines[x.lineNumber - 1]
    && m(x.line)
    && (cap.Some? ==> Hits(lines, x.lineNumber - 1, m) < cap.value)
  }

  lemma {:induction false} LineMatchesIff(path: Path, lines: seq<Text>, i: nat, n: nat, m: Text -> bool, x: GrepMatch)
    requires i <= |lines| && n <= |LineMatches(path, lines, i, m)|
    ensures x in LineMatches(path, lines, i, m)[..n]
            <==> && x.path == path && i < x.lineNumber
                 && Contributes(x, lines, Some(Hits(lines, i, m) + n), m)
    decreases |lines| - i
  {
    if i < |lines| {
      var rest := LineMatches(path, lines, i + 1, m);
      if m(lines[i]) {
        if n > 0 {
          LineMatchesIff(path, lines, i + 1, n - 1, m, x);
          assert LineMatches(path, lines, i, m)[..n] == [GrepMatch(path, i + 1, lines[i])] + rest[..n - 1];
        } else {
          if i < x.lineNumber <= |lines| { HitsGrow(lines, i, x.lineNumber - 1, m); }
        }
      } else {
        LineMatchesIff(path, lines, i + 1, n, m, x);
        assert LineMatches(path, lines, i, m) == rest;
      }
    }
  }

  lemma {:induction false} HitsGrow(lines: seq<Text>, i: nat, n: nat, m: Text -> bool)
    requires i <= n <= |lines|
    ensures Hits(lines, i, m) <= Hits(lines, n, m)
    decreases n
  {
    if i < n {
      HitsGrow(lines, i, n - 1, m);
    }
  }

  lemma {:induction false} AllHits(lines: seq<Text>, i: nat, path: Path, m: Text -> bool)
    requires i <= |lines|
    ensures Hits(lines, i, m) + |LineMatches(path, lines, i, m)| == Hits(lines, |lines|, m)
    decreases |lines| - i
  {
    if i < |lines| {
      AllHits(lines, i + 1, path, m);
    }
  }

  /** A file contributes exactly its first matching lines, as many as its cap allows. */
  lemma FileContributes(path: Path, lines: seq<Text>, cap: Option<nat>, m: Text -> bool, x: GrepMatch)
    ensures x in FirstOf(cap, LineMatches(path, lines, 0, m)) <==> x.path == path && Contributes(x, lines, cap, m)
  {
    var all := LineMatches(path, lines, 0, m);
    var n := if cap.Some? && cap.value < |all| then cap.value else |all|;
    assert FirstOf(cap, all) == all[..n];
    LineMatchesIff(path, lines, 0, n, m, x);
    AllHits(lines, 0, path, m);
    if 1 <= x.lineNumber <= |lines| {
      HitsGrow(lines, x.lineNumber, |lines|, m);
    }
  }

  /** The match lies in a text file of the tree whose path starts with one of the filters, if there are any,
      on a matching line with fewer earlier matches in the file than its cap, or with none. */
  predicate Hit(es: seq<TreeEntry>, prefix: Path, opts: Options, m: Text -> bool, x: GrepMatch) {
    && prefix < x.path
    && var file := FileAt(es, x.path[|prefix|..]);
       && file.Some?
       && (opts.paths == [] || exists p | p in opts.paths :: p <= Join(x.path))
       && !IsBinary(file.value)
       && var lines := Lines(file.value);
          && 1 <= x.lineNumber <= |lines| && x.line == lines[x.lineNumber - 1] && m(x.line)
          && var earlier := Hits(lines, x.lineNumber - 1, m);
             (opts.perFile.None? || earlier < opts.perFile.value || earlier == 0)
  }

  ghost predicate Searchable(s: Store, es: seq<TreeEntry>) {
    Honest(s) && Complete(s, TreeHash(es)) && WellFormed(es) && FilesAreBlobs(es)
  }

  lemma {:induction false} EntryFindsHits(s: Store, es: seq<TreeEntry>, e: TreeEntry, prefix: Path, opts: Options,
                                          m: Text -> bool, x: GrepMatch)
    requires Searchable(s, es) && e in es
    ensures GrepEntry(s, e, prefix, opts, m).error.None?
    ensures x in GrepEntry(s, e, prefix, opts, m).found
            <==> prefix + [e.name] <= x.path && Hit(es, prefix, opts, m, x)
    decreases e, 0
  {
    FindMember(es, e);
    var path := prefix + [e.name];
    if path <= x.path {
      PathBelow(es, e, prefix, x.path);
    }
    match e.kind
    case FileKind =>
      assert Followed(e.kind) && Complete(s, e.target);
      FileContributes(path, Lines(e.target.obj.bytes), FileCap(opts), m, x);
    case TreeKind =>
      assert Followed(e.kind) && Complete(s, e.target);
      GrepFindsExactly(s, e.target.obj.entries, path, opts, m, x);
    case _ =>
  }

  lemma PathBelow(es: seq<TreeEntry>, e: TreeEntry, prefix: Path, p: Path)
    requires Find(es, e.name) == Some(e) && prefix + [e.name] <= p
    ensures prefix < p && p[|prefix|..][0] == e.name
    ensures |p| == |prefix| + 1 ==> p == prefix + [e.name] && EntryAt(es, p[|prefix|..]) == Some(e)
    ensures |p| > |prefix| + 1 ==>
              && p[|prefix|..][1..] == p[|prefix + [e.name]|..]
              && EntryAt(es, p[|prefix|..]) ==
                 if IsDir(e) then EntryAt(e.target.obj.entries, p[|prefix + [e.name]|..]) else None
  {
  }

  lemma {:induction false} PartFinds(s: Store, part: seq<TreeEntry>, prefix: Path, opts: Options, m: Text -> bool, x: GrepMatch)
    requires forall e | e in part :: GrepEntry(s, e, prefix, opts, m).error.None?
    ensures GrepEntries(s, part, prefix, opts, m).error.None?
    ensures x in GrepEntries(s, part, prefix, opts, m).found
            <==> exists e | e in part :: x in GrepEntry(s, e, prefix, opts, m).found
    decreases |part|
  {
    if part != [] {
      assert part[0] in part && forall e | e in part :: e == part[0] || e in part[1..];
      PartFinds(s, part[1..], prefix, opts, m, x);
    }
  }

  /** Without a total cap the search succeeds on a complete store and finds the hits, all of them and
      nothing else. */
  lemma {:induction false} GrepFindsExactly(s: Store, es: seq<TreeEntry>, prefix: Path, opts: Options, m: Text -> bool, x: GrepMatch)
    requires Searchable(s, es)
    ensures GrepEntries(s, es, prefix, opts, m).error.None?
    ensures x in GrepEntries(s, es, prefix, opts, m).found <==> Hit(es, prefix, opts, m, x)
    decreases es, 1
  {
    forall e | e in es
      ensures GrepEntry(s, e, prefix, opts, m).error.None?
      ensures x in GrepEntry(s, e, prefix, opts, m).found <==> prefix + [e.name] <= x.path && Hit(es, prefix, opts, m, x)
    {
      EntryFindsHits(s, es, e, prefix, opts, m, x);
    }
    PartFinds(s, es, prefix, opts, m, x);
    if Hit(es, prefix, opts, m, x) {
      var e := HitIsBelowEntry(es, prefix, opts, m, x);
    }
  }

  lemma HitIsBelowEntry(es: seq<TreeEntry>, prefix: Path, opts: Options, m: Text -> bool, x: GrepMatch) returns (e: TreeEntry)
    requires Hit(es, prefix, opts, m, x)
    ensures e in es && prefix + [e.name] <= x.path
  {
    e := Find(es, x.path[|prefix|..][0]).value;
  }

  // --- order --------------------------------------------------------------------------------

  predicate Before(x: GrepMatch, y: GrepMatch) {
    PathLess(x.path, y.path) || (x.path == y.path && x.lineNumber < y.lineNumber)
  }

  predicate InOrder(xs: seq<GrepMatch>) {
    forall i, j | 0 <= i < j < |xs| :: Before(xs[i], xs[j])
  }

  lemma {:induction false} LineMatchesInOrder(path: Path, lines: seq<Text>, i: nat, m: Text -> bool)
    requires i <= |lines|
    ensures InOrder(LineMatches(path, lines, i, m))
    ensures forall x | x in LineMatches(path, lines, i, m) :: x.path == path && x.lineNumber > i
    decreases |lines| - i
  {
    if i < |lines| {
      var rest := LineMatches(path, lines, i + 1, m);
      LineMatchesInOrder(path, lines, i + 1, m);
      if m(lines[i]) {
        ConsInOrder(GrepMatch(path, i + 1, lines[i]), rest);
      } else {
        assert LineMatches(path, lines, i, m) == rest;
      }
    }
  }

  lemma ConsInOrder(x: GrepMatch, rest: seq<GrepMatch>)
    requires InOrder(rest) && forall y | y in rest :: Before(x, y)
    ensures InOrder([x] + rest)
  {
  }

  lemma {:induction false} PathLessAfterPrefix(p: Path, a: Path, b: Path)
    requires PathLess(a, b)
    ensures PathLess(p + a, p + b)
  {
    if p == [] {
      assert p + a == a && p + b == b;
    } else {
      assert (p + a)[1..] == p[1..] + a && (p + b)[1..] == p[1..] + b;
      PathLessAfterPrefix(p[1..], a, b);
    }
  }

  lemma SiblingsBefore(prefix: Path, a: Text, b: Text, x: GrepMatch, y: GrepMatch)
    requires Less(a, b) && prefix + [a] <= x.path && prefix + [b] <= y.path
    ensures Before(x, y)
  {
    var p, q := x.path[|prefix|..], y.path[|prefix|..];
    assert x.path == prefix + p && y.path == prefix + q;
    assert p[0] == a && q[0] == b;
    PathLessAfterPrefix(prefix, p, q);
  }

  lemma {:induction false} EntryInOrder(s: Store, e: TreeEntry, prefix: Path, opts: Options, m: Text -> bool)
    requires GrepEntry(s, e, prefix, opts, m).error.None? && (IsDir(e) ==> WellFormed(Sub(e)))
    ensures InOrder(GrepEntry(s, e, prefix, opts, m).found)
    ensures forall x | x in GrepEntry(s, e, prefix, opts, m).found :: prefix + [e.name] <= x.path
    decreases e, 0
  {
    var path := prefix + [e.name];
    match e.kind
    case FileKind =>
      if PassesFilter(opts.paths, Join(path)) {
        var lines := Lines(GetBlob(s, e.target).value);
        LineMatchesInOrder(path, lines, 0, m);
        FirstOfMembers(FileCap(opts), LineMatches(path, lines, 0, m));
      }
    case TreeKind =>
      GrepInOrder(s, Sub(e), path, opts, m);
    case _ =>
  }

  function Sub(e: TreeEntry): seq<TreeEntry>
    requires IsDir(e)
  {
    e.target.obj.entries
  }

  lemma FirstOfMembers(cap: Option<nat>, xs: seq<GrepMatch>)
    ensures forall x | x in FirstOf(cap, xs) :: x in xs
  {
  }

  /** Matches come in the order of their paths, then of their lines, each once. */
  lemma {:induction false} GrepInOrder(s: Store, es: seq<TreeEntry>, prefix: Path, opts: Options, m: Text -> bool)
    requires GrepEntries(s, es, prefix, opts, m).error.None? && WellFormed(es)
    ensures InOrder(GrepEntries(s, es, prefix, opts, m).found)
    ensures forall x | x in GrepEntries(s, es, prefix, opts, m).found ::
              exists e | e in es :: prefix + [e.name] <= x.path
    decreases es, 1
  {
    if es != [] {
      EntryInOrder(s, es[0], prefix, opts, m);
      GrepInOrder(s, es[1..], prefix, opts, m);
      var first, rest := GrepEntry(s, es[0], prefix, opts, m).found, GrepEntries(s, es[1..], prefix, opts, m).found;
      forall i, j | 0 <= i < |first| && 0 <= j < |rest| ensures Before(first[i], rest[j]) {
        assert first[i] in first && rest[j] in rest;
        var e :| e in es[1..] && prefix + [e.name] <= rest[j].path;
        SiblingsBefore(prefix, es[0].name, e.name, first[i], rest[j]);
      }
      forall x | x in first + rest ensures exists e | e in es :: prefix + [e.name] <= x.path {
        assert es[0] in es && forall e | e in es[1..] :: e in es;
      }
    }
  }

  // --- the whole search ---------------------------------------------------------------------

  /** The hits in order, each once: all of them, or the first so many as the total cap says. */
  ghost predicate FirstHits(es: seq<TreeEntry>, opts: Options, m: Text -> bool, xs: seq<GrepMatch>) {
    && InOrder(xs)
    && (forall x | x in xs :: Hit(es, [], opts, m, x))
    && (opts.total.Some? ==> |xs| <= opts.total.value)
    && forall y | Hit(es, [], opts, m, y) && y !in xs ::
         opts.total == Some(|xs|) && forall x | x in xs :: Before(x, y)
  }

  lemma FirstOfInOrder(cap: Option<nat>, all: seq<GrepMatch>)
    requires InOrder(all)
    ensures InOrder(FirstOf(cap, all))
    ensures forall x, y | x in FirstOf(cap, all) && y in all && y !in FirstOf(cap, all) :: Before(x, y)
  {
    var kept := FirstOf(cap, all);
    FirstOfIsLongest(cap, all);
    assert forall i | 0 <= i < |kept| :: kept[i] == all[i];
    forall x, y | x in kept && y in all && y !in kept ensures Before(x, y) {
      var i :| 0 <= i < |kept| && kept[i] == x;
      var j :| 0 <= j < |all| && all[j] == y;
      assert j >= |kept|;
    }
  }

  lemma FoundAreFirstHits(s: Store, es: seq<TreeEntry>, opts: Options, m: Text -> bool)
    requires Searchable(s, es)
    ensures var all := GrepEntries(s, es, [], opts, m);
            all.error.None? && FirstHits(es, opts, m, FirstOf(opts.total, all.found))
  {
    var all := GrepEntries(s, es, [], opts, m).found;
    forall x: GrepMatch
      ensures GrepEntries(s, es, [], opts, m).error.None?
      ensures x in all <==> Hit(es, [], opts, m, x)
    {
      GrepFindsExactly(s, es, [], opts, m, x);
    }
    assert GrepEntries(s, es, [], opts, m).error.None? by {
      GrepFindsExactly(s, es, [], opts, m, GrepMatch([], 0, []));
    }
    GrepInOrder(s, es, [], opts, m);
    FirstOfInOrder(opts.total, all);
    FirstOfMembers(opts.total, all);
    FirstOfIsLongest(opts.total, all);
  }

  /** On a complete store the search returns the first hits. On any store it returns the first so many matches
      of the same search without a total cap, and its error exactly when there is one before the cap is
      reached. */
  method GrepTree(store: ObjectStore, treeHash: Hash, pattern: Text, compile: Text -> Text -> bool, opts: Options)
    returns (r: Result<seq<GrepMatch>, Error>)
    ensures pattern == [] ==> r == Failure(EmptyPattern)
    ensures pattern != [] && IsTree(treeHash) && Searchable(store.files, treeHash.obj.entries) ==>
              r.Success? && FirstHits(treeHash.obj.entries, opts, compile(pattern), r.value)
    ensures pattern != [] ==>
              var es := GetTree(store.files, treeHash);
              r == if es.Failure? then Failure(es.error)
                   else Capped(opts.total, [], GrepEntries(store.files, es.value, [], opts, compile(pattern)))
  {
    if pattern == [] {
      return Failure(EmptyPattern);
    }
    r := Walk(store, treeHash, [], opts, compile(pattern), []);
    if IsTree(treeHash) && Searchable(store.files, treeHash.obj.entries) {
      var es := treeHash.obj.entries;
      FoundAreFirstHits(store.files, es, opts, compile(pattern));
      var all := GrepEntries(store.files, es, [], opts, compile(pattern)).found;
      assert [] + all == all;
    }
  }
}
