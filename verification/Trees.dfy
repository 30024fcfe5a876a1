/** One directory level: a vector of entries sorted by name, used as a map. */
module Trees {
  import opened Wrappers
  import opened Lex
  import opened Objects
  import Sorting

  /** Rejects the empty name, `.`, `..`, and names holding a slash or a NUL. */
  predicate ValidName(n: Text) {
    n != [] && n != [DOT] && n != [DOT, DOT] && SLASH !in n && NUL !in n
  }

  ghost predicate Sorted(es: seq<TreeEntry>) {
    forall i, j | 0 <= i < j < |es| :: Less(es[i].name, es[j].name)
  }

  function Names(es: seq<TreeEntry>): set<Text> {
    set e | e in es :: e.name
  }

  /** What a lookup by name means, independently of any search strategy. */
  function Find(es: seq<TreeEntry>, n: Text): (r: Option<TreeEntry>)
    ensures r.Some? ==> r.value in es && r.value.name == n
    ensures r.None? <==> n !in Names(es)
  {
    if es == [] then None
    else if es[0].name == n then
      assert es[0] in es;
      Some(es[0])
    else
      assert forall e | e in es :: e == es[0] || e in es[1..];
      Find(es[1..], n)
  }

  function Insert(es: seq<TreeEntry>, e: TreeEntry): (r: seq<TreeEntry>)
    ensures e in r && forall x | x in r :: x == e || x in es
  {
    if es == [] then [e]
    else if es[0].name == e.name then [e] + es[1..]
    else if Less(e.name, es[0].name) then [e] + es
    else [es[0]] + Insert(es[1..], e)
  }

  function Remove(es: seq<TreeEntry>, n: Text): (r: seq<TreeEntry>)
    ensures forall x | x in r :: x in es
  {
    if es == [] then []
    else if es[0].name == n then es[1..]
    else [es[0]] + Remove(es[1..], n)
  }

  lemma {:induction false} InsertSorted(es: seq<TreeEntry>, e: TreeEntry)
    requires Sorted(es)
    ensures Sorted(Insert(es, e))
  {
    if es == [] || es[0].name == e.name {
    } else if Less(e.name, es[0].name) {
      forall j | 0 <= j < |es| ensures Less(e.name, es[j].name) {
        if j > 0 { Transitive(e.name, es[0].name, es[j].name); }
      }
    } else {
      Trichotomy(e.name, es[0].name);
      InsertSorted(es[1..], e);
      var r := Insert(es[1..], e);
      forall j | 0 <= j < |r| ensures Less(es[0].name, r[j].name) {
        assert r[j] in r;
        assert r[j] == e || r[j] in es[1..];
      }
    }
  }

  lemma {:induction false} FindInsert(es: seq<TreeEntry>, e: TreeEntry, n: Text)
    requires Sorted(es)
    ensures Find(Insert(es, e), n) == if n == e.name then Some(e) else Find(es, n)
  {
    if es == [] || es[0].name == e.name {
    } else if Less(e.name, es[0].name) {
      assert ([e] + es)[1..] == es;
    } else {
      FindInsert(es[1..], e, n);
      assert Insert(es, e)[1..] == Insert(es[1..], e);
    }
  }

  lemma {:induction false} RemoveSorted(es: seq<TreeEntry>, n: Text)
    requires Sorted(es)
    ensures Sorted(Remove(es, n))
  {
    if es != [] && es[0].name != n {
      RemoveSorted(es[1..], n);
      var r := Remove(es[1..], n);
      forall j | 0 <= j < |r| ensures Less(es[0].name, r[j].name) {
        assert r[j] in r && r[j] in es[1..];
      }
    }
  }

  lemma {:induction false} FindRemove(es: seq<TreeEntry>, n: Text, m: Text)
    requires Sorted(es)
    ensures Find(Remove(es, n), m) == if m == n then None else Find(es, m)
  {
    if es != [] {
      if es[0].name == n {
        if m == n && n in Names(es[1..]) {
          var e :| e in es[1..] && e.name == n;
          Asymmetric(es[0].name, e.name);
        }
      } else {
        FindRemove(es[1..], n, m);
        assert Remove(es, n)[1..] == Remove(es[1..], n);
      }
    }
  }

  lemma FindMember(es: seq<TreeEntry>, e: TreeEntry)
    requires Sorted(es) && e in es
    ensures Find(es, e.name) == Some(e)
  {
    var f := Find(es, e.name).value;
    var i :| 0 <= i < |es| && es[i] == e;
    var j :| 0 <= j < |es| && es[j] == f;
    if i < j { Asymmetric(es[i].name, es[j].name); }
    if j < i { Asymmetric(es[j].name, es[i].name); }
  }

  lemma HeadIsFound(es: seq<TreeEntry>)
    requires es != []
    ensures exists n :: Find(es, n) == Some(es[0])
  {
    assert Find(es, es[0].name) == Some(es[0]);
  }

  /** The sorted vector is canonical: equal lookups mean equal vectors, hence equal hashes. */
  lemma {:induction false} SameLookups(a: seq<TreeEntry>, b: seq<TreeEntry>)
    requires Sorted(a) && Sorted(b)
    requires forall n :: Find(a, n) == Find(b, n)
    ensures a == b
  {
    if a != [] {
      assert Find(a, a[0].name) == Some(a[0]);
      assert a[0] in b;
      assert Find(b, b[0].name) == Some(b[0]);
      assert b[0] in a;
      if a[0] != b[0] {
        FindMember(b, a[0]);
        var i :| 0 <= i < |b| && b[i] == a[0];
        var j :| 0 <= j < |a| && a[j] == b[0];
        assert i > 0 && j > 0;
        Asymmetric(b[0].name, b[i].name);
        assert false;
      }
      forall n ensures Find(a[1..], n) == Find(b[1..], n) {
        assert Find(a, n) == Find(b, n);
        NotFirst(a, n);
        NotFirst(b, n);
      }
      SameLookups(a[1..], b[1..]);
      assert a == [a[0]] + a[1..] && b == [b[0]] + b[1..];
    } else if b != [] {
      HeadIsFound(b);
      assert false;
    }
  }

  lemma NotFirst(es: seq<TreeEntry>, n: Text)
    requires Sorted(es) && es != []
    ensures Find(es[1..], n) == if n == es[0].name then None else Find(es, n)
  {
    if n == es[0].name && n in Names(es[1..]) {
      var e :| e in es[1..] && e.name == n;
      Asymmetric(es[0].name, e.name);
    }
  }

  function NameOf(e: TreeEntry): Text {
    e.name
  }

  /** Sorting by name, with the two rejections of the constructor. */
  function FromEntries(es: seq<TreeEntry>): Result<seq<TreeEntry>, Error> {
    if exists e | e in es :: !ValidName(e.name) then Failure(InvalidName)
    else
      var sorted := Sorting.SortBy(NameOf, es);
      if exists i | 0 < i < |sorted| :: sorted[i - 1].name == sorted[i].name then Failure(InvalidName)
      else Success(sorted)
  }

  ghost predicate DistinctNames(es: seq<TreeEntry>) {
    forall i, j | 0 <= i < j < |es| :: es[i].name != es[j].name
  }

  lemma {:induction false} AdjacentDistinctSorted(es: seq<TreeEntry>)
    requires Sorting.SortedBy(NameOf, es)
    requires forall i | 0 < i < |es| :: es[i - 1].name != es[i].name
    ensures Sorted(es)
  {
    if es != [] {
      var init := es[..|es| - 1];
      AdjacentDistinctSorted(init);
      forall i | 0 <= i < |es| - 1 ensures Less(es[i].name, es[|es| - 1].name) {
        var k := |es| - 2;
        Trichotomy(es[k].name, es[k + 1].name);
        assert !Less(NameOf(es[k + 1]), NameOf(es[k]));
        if i < k { Transitive(init[i].name, init[k].name, es[k + 1].name); }
      }
    }
  }

  /** The constructor succeeds exactly on valid, pairwise distinct names, and then yields the
      sorted arrangement of its input. */
  lemma FromEntriesAccepts(es: seq<TreeEntry>)
    ensures FromEntries(es).Success?
            <==> (forall e | e in es :: ValidName(e.name)) && DistinctNames(es)
    ensures FromEntries(es).Success? ==>
              && Sorted(FromEntries(es).value)
              && multiset(FromEntries(es).value) == multiset(es)
  {
    var sorted := Sorting.SortBy(NameOf, es);
    Sorting.SortBySorted(NameOf, es);
    if forall i | 0 < i < |sorted| :: sorted[i - 1].name != sorted[i].name {
      AdjacentDistinctSorted(sorted);
      forall i, j | 0 <= i < j < |sorted| ensures NameOf(sorted[i]) != NameOf(sorted[j]) {
        Asymmetric(sorted[i].name, sorted[j].name);
      }
      Sorting.DistinctKeysPermute(NameOf, sorted, es);
      forall i, j | 0 <= i < j < |es| ensures es[i].name != es[j].name {
        assert NameOf(es[i]) != NameOf(es[j]);
      }
    } else if DistinctNames(es) {
      forall i, j | 0 <= i < j < |es| ensures NameOf(es[i]) != NameOf(es[j]) {
      }
      Sorting.DistinctKeysPermute(NameOf, es, sorted);
      assert forall i | 0 < i < |sorted| :: NameOf(sorted[i - 1]) != NameOf(sorted[i]);
    }
  }

  /** Supplying the same entries in another order builds the same tree, hence the same hash. */
  lemma InsertionOrderIsIrrelevant(a: seq<TreeEntry>, b: seq<TreeEntry>)
    requires multiset(a) == multiset(b)
    ensures FromEntries(a) == FromEntries(b)
  {
    FromEntriesAccepts(a);
    FromEntriesAccepts(b);
    forall e ensures e in a <==> e in b {
      assert e in multiset(a) <==> e in multiset(b);
    }
    if DistinctNames(a) {
      forall i, j | 0 <= i < j < |a| ensures NameOf(a[i]) != NameOf(a[j]) {
      }
      Sorting.DistinctKeysDetermine(NameOf, a);
      Sorting.SortForgetsOrder(NameOf, a, b);
    } else if DistinctNames(b) {
      forall i, j | 0 <= i < j < |b| ensures NameOf(b[i]) != NameOf(b[j]) {
      }
      Sorting.DistinctKeysDetermine(NameOf, b);
      Sorting.SortForgetsOrder(NameOf, b, a);
    }
  }

  /** Finds the slot of a name in a sorted vector: its index, or where to insert it. */
  method BinarySearch(es: seq<TreeEntry>, n: Text) returns (found: bool, idx: nat)
    requires Sorted(es)
    ensures found ==> idx < |es| && es[idx].name == n
    ensures !found ==>
              && idx <= |es|
              && (forall i | 0 <= i < idx :: Less(es[i].name, n))
              && (forall i | idx <= i < |es| :: Less(n, es[i].name))
  {
    var lo, hi := 0, |es|;
    while lo < hi
      invariant 0 <= lo <= hi <= |es|
      invariant forall i | 0 <= i < lo :: Less(es[i].name, n)
      invariant forall i | hi <= i < |es| :: Less(n, es[i].name)
    {
      var mid := (lo + hi) / 2;
      if es[mid].name == n {
        return true, mid;
      } else if Less(es[mid].name, n) {
        forall i | lo <= i < mid ensures Less(es[i].name, n) {
          Transitive(es[i].name, es[mid].name, n);
        }
        lo := mid + 1;
      } else {
        Trichotomy(es[mid].name, n);
        forall i | mid < i < hi ensures Less(n, es[i].name) {
          Transitive(n, es[mid].name, es[i].name);
        }
        hi := mid;
      }
    }
    return false, lo;
  }

  lemma {:induction false} InsertAtHit(es: seq<TreeEntry>, e: TreeEntry, idx: nat)
    requires Sorted(es) && idx < |es| && es[idx].name == e.name
    ensures Insert(es, e) == es[idx := e]
  {
    if idx > 0 {
      Asymmetric(es[0].name, e.name);
      InsertAtHit(es[1..], e, idx - 1);
    }
  }

  lemma SpliceTail(es: seq<TreeEntry>, e: TreeEntry, idx: nat)
    requires 0 < idx <= |es|
    ensures es[..idx] + [e] + es[idx..] == [es[0]] + (es[1..][..idx - 1] + [e] + es[1..][idx - 1..])
  {
    assert es[1..][..idx - 1] == es[1..idx] && es[1..][idx - 1..] == es[idx..];
    assert es[..idx] == [es[0]] + es[1..idx];
  }

  lemma {:induction false} InsertAtMiss(es: seq<TreeEntry>, e: TreeEntry, idx: nat)
    requires Sorted(es) && idx <= |es|
    requires forall i | 0 <= i < idx :: Less(es[i].name, e.name)
    requires forall i | idx <= i < |es| :: Less(e.name, es[i].name)
    ensures Insert(es, e) == es[..idx] + [e] + es[idx..]
  {
    if idx > 0 {
      var tail := es[1..];
      Asymmetric(es[0].name, e.name);
      forall i | 0 <= i < idx - 1 ensures Less(tail[i].name, e.name) {
        assert tail[i] == es[i + 1];
      }
      forall i | idx - 1 <= i < |tail| ensures Less(e.name, tail[i].name) {
        assert tail[i] == es[i + 1];
      }
      InsertAtMiss(tail, e, idx - 1);
      SpliceTail(es, e, idx);
    } else if es != [] {
      Asymmetric(e.name, es[0].name);
      assert es[..0] + [e] + es[0..] == [e] + es;
    }
  }

  /** A tree under construction, mutated in place. */
  class Tree {
    var entries: seq<TreeEntry>

    constructor (es: seq<TreeEntry>)
      ensures entries == es
    {
      entries := es;
    }

    method Add(e: TreeEntry) returns (r: Result<(), Error>)
      requires Sorted(entries)
      modifies this
      ensures Sorted(entries)
      ensures r.Success? <==> ValidName(e.name)
      ensures entries == if ValidName(e.name) then Insert(old(entries), e) else old(entries)
    {
      if !ValidName(e.name) {
        return Failure(InvalidName);
      }
      var found, idx := BinarySearch(entries, e.name);
      InsertSorted(entries, e);
      if found {
        InsertAtHit(entries, e, idx);
        entries := entries[idx := e];
      } else {
        InsertAtMiss(entries, e, idx);
        entries := entries[..idx] + [e] + entries[idx..];
      }
      return Success(());
    }

    method Lookup(n: Text) returns (r: Option<TreeEntry>)
      requires Sorted(entries)
      ensures r == Find(entries, n)
    {
      var found, idx := BinarySearch(entries, n);
      if found {
        FindMember(entries, entries[idx]);
        return Some(entries[idx]);
      }
      if n in Names(entries) {
        var e :| e in entries && e.name == n;
        var i :| 0 <= i < |entries| && entries[i] == e;
        Asymmetric(n, if i < idx then n else entries[i].name);
      }
      return None;
    }
  }
}
