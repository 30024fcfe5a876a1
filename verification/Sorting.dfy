/** The stable library sort (`sort_by` on a byte-string key), reduced to what callers rely on. */
module Sorting {
  import opened Wrappers
  import opened Lex

  predicate SortedBy<T>(key: T -> Text, xs: seq<T>) {
    forall i, j | 0 <= i < j < |xs| :: !Less(key(xs[j]), key(xs[i]))
  }

  ghost predicate DistinctKeys<T>(key: T -> Text, xs: seq<T>) {
    forall i, j | 0 <= i < j < |xs| :: key(xs[i]) != key(xs[j])
  }

  /** Elements with equal keys are equal, so sorting has no ties to break. */
  ghost predicate KeyDetermines<T>(key: T -> Text, xs: seq<T>) {
    forall x, y | x in xs && y in xs && key(x) == key(y) :: x == y
  }

  /** Inserts `x` after every element whose key is not greater: this keeps the sort stable. */
  function InsertBy<T>(key: T -> Text, x: T, xs: seq<T>): (r: seq<T>)
    ensures |r| == |xs| + 1
    ensures multiset(r) == multiset(xs) + multiset{x}
  {
    if xs == [] then [x]
    else if Less(key(x), key(xs[|xs| - 1])) then
      var last := xs[|xs| - 1];
      assert xs == xs[..|xs| - 1] + [last];
      InsertBy(key, x, xs[..|xs| - 1]) + [last]
    else xs + [x]
  }

  function SortBy<T>(key: T -> Text, xs: seq<T>): (r: seq<T>)
    ensures |r| == |xs|
    ensures multiset(r) == multiset(xs)
  {
    if xs == [] then []
    else
      assert xs == xs[..|xs| - 1] + [xs[|xs| - 1]];
      InsertBy(key, xs[|xs| - 1], SortBy(key, xs[..|xs| - 1]))
  }

  lemma {:induction false} InsertBySorted<T>(key: T -> Text, x: T, xs: seq<T>)
    requires SortedBy(key, xs)
    ensures SortedBy(key, InsertBy(key, x, xs))
  {
    if xs == [] {
    } else if Less(key(x), key(xs[|xs| - 1])) {
      var init, last := xs[..|xs| - 1], xs[|xs| - 1];
      InsertBySorted(key, x, init);
      Asymmetric(key(x), key(last));
      var r := InsertBy(key, x, init);
      forall i | 0 <= i < |r|
        ensures !Less(key(last), key(r[i]))
      {
        assert r[i] in multiset(r);
        assert r[i] == x || r[i] in init;
      }
    } else {
      var last := xs[|xs| - 1];
      forall i | 0 <= i < |xs|
        ensures !Less(key(x), key(xs[i]))
      {
        if Less(key(x), key(xs[i])) {
          Trichotomy(key(xs[i]), key(last));
          if Less(key(xs[i]), key(last)) {
            Transitive(key(x), key(xs[i]), key(last));
          }
        }
      }
    }
  }

  /** The key of a byte string that is sorted as it is. */
  function Itself(t: Text): Text {
    t
  }

  lemma InsertedBelow(n: Text, ns: seq<Text>, top: Text)
    requires Less(n, top) && forall m | m in ns :: Less(m, top)
    ensures forall m | m in InsertBy(Itself, n, ns) :: Less(m, top)
  {
    var r := InsertBy(Itself, n, ns);
    forall m | m in r ensures Less(m, top) {
      assert m in multiset(r);
      assert m == n || m in ns;
    }
  }

  lemma {:induction false} InsertAscends(n: Text, ns: seq<Text>)
    requires Ascending(ns) && n !in ns
    ensures Ascending(InsertBy(Itself, n, ns))
  {
    if ns != [] {
      var init, last := ns[..|ns| - 1], ns[|ns| - 1];
      if Less(n, last) {
        InsertAscends(n, init);
        InsertedBelow(n, init, last);
      } else {
        Trichotomy(n, last);
        forall i | 0 <= i < |ns| ensures Less(ns[i], n) {
          if i < |ns| - 1 { Transitive(ns[i], last, n); }
        }
      }
    }
  }

  lemma {:induction false} SortBySorted<T>(key: T -> Text, xs: seq<T>)
    ensures SortedBy(key, SortBy(key, xs))
  {
    if xs != [] {
      SortBySorted(key, xs[..|xs| - 1]);
      InsertBySorted(key, xs[|xs| - 1], SortBy(key, xs[..|xs| - 1]));
    }
  }

  lemma {:induction false} SortBySortedIsIdentity<T>(key: T -> Text, xs: seq<T>)
    requires SortedBy(key, xs)
    ensures SortBy(key, xs) == xs
  {
    if xs != [] {
      var init := xs[..|xs| - 1];
      assert xs == init + [xs[|xs| - 1]];
      SortBySortedIsIdentity(key, init);
    }
  }

  /** Keys that are pairwise distinct stay so under any reordering. */
  lemma DistinctKeysPermute<T>(key: T -> Text, a: seq<T>, b: seq<T>)
    requires DistinctKeys(key, a) && multiset(a) == multiset(b)
    ensures DistinctKeys(key, b)
  {
    forall i, j | 0 <= i < j < |b|
      ensures key(b[i]) != key(b[j])
    {
      if key(b[i]) == key(b[j]) {
        assert b[i] in multiset(b) && b[j] in multiset(b);
        assert b[i] in a && b[j] in a;
        if b[i] == b[j] {
          TwoOccurrences(b, i, j);
          NoTwoOccurrences(key, a, b[i]);
        }
      }
    }
  }

  lemma TwoOccurrences<T>(b: seq<T>, i: nat, j: nat)
    requires i < j < |b| && b[i] == b[j]
    ensures multiset(b)[b[i]] >= 2
  {
    assert b == b[..j] + [b[j]] + b[j + 1..];
    assert b[i] == b[..j][i];
    assert b[i] in multiset(b[..j]);
  }

  lemma {:induction false} NoTwoOccurrences<T>(key: T -> Text, a: seq<T>, x: T)
    requires DistinctKeys(key, a)
    ensures multiset(a)[x] <= 1
  {
    if a != [] {
      var init, last := a[..|a| - 1], a[|a| - 1];
      assert a == init + [last];
      NoTwoOccurrences(key, init, x);
      assert last !in init;
    }
  }

  lemma DistinctKeysDetermine<T>(key: T -> Text, xs: seq<T>)
    requires DistinctKeys(key, xs)
    ensures KeyDetermines(key, xs)
  {
    forall x, y | x in xs && y in xs && key(x) == key(y) ensures x == y {
      var i :| 0 <= i < |xs| && xs[i] == x;
      var j :| 0 <= j < |xs| && xs[j] == y;
      assert i == j;
    }
  }

  /** Two sorted arrangements without ties end in the same element. */
  lemma SameGreatest<T>(key: T -> Text, a: seq<T>, b: seq<T>)
    requires SortedBy(key, a) && SortedBy(key, b) && KeyDetermines(key, a)
    requires a != [] && b != [] && multiset(a) == multiset(b)
    ensures a[|a| - 1] == b[|b| - 1]
  {
    var la, lb := a[|a| - 1], b[|b| - 1];
    assert la in multiset(b) && lb in multiset(a);
    var i :| 0 <= i < |a| && a[i] == lb;
    var j :| 0 <= j < |b| && b[j] == la;
    Trichotomy(key(la), key(lb));
  }

  lemma InitElements<T>(a: seq<T>)
    requires a != []
    ensures multiset(a[..|a| - 1]) == multiset(a) - multiset{a[|a| - 1]}
  {
    assert a == a[..|a| - 1] + [a[|a| - 1]];
  }

  lemma SameInit<T>(a: seq<T>, b: seq<T>)
    requires a != [] && b != [] && multiset(a) == multiset(b)
    requires a[|a| - 1] == b[|b| - 1]
    ensures multiset(a[..|a| - 1]) == multiset(b[..|b| - 1])
  {
    InitElements(a);
    InitElements(b);
  }

  /** Without ties the sorted arrangement of a multiset is unique. */
  lemma {:induction false} SortedIsUnique<T>(key: T -> Text, a: seq<T>, b: seq<T>)
    requires SortedBy(key, a) && SortedBy(key, b)
    requires KeyDetermines(key, a) && multiset(a) == multiset(b)
    ensures a == b
  {
    if a == [] || b == [] {
      assert |multiset(a)| == |multiset(b)|;
    } else {
      SameGreatest(key, a, b);
      SameInit(a, b);
      SortedIsUnique(key, a[..|a| - 1], b[..|b| - 1]);
      assert a == a[..|a| - 1] + [a[|a| - 1]];
    }
  }

  /** Sorting forgets the order in which elements were supplied, unless two of them tie. */
  lemma SortForgetsOrder<T>(key: T -> Text, a: seq<T>, b: seq<T>)
    requires KeyDetermines(key, a) && multiset(a) == multiset(b)
    ensures SortBy(key, a) == SortBy(key, b)
  {
    var sa, sb := SortBy(key, a), SortBy(key, b);
    SortBySorted(key, a);
    SortBySorted(key, b);
    forall x | x in sa ensures x in a {
      assert x in multiset(sa);
    }
    SortedIsUnique(key, sa, sb);
  }

  /** The last element whose key is `k`. */
  function LastWithKey<T>(key: T -> Text, k: Text, xs: seq<T>): Option<T> {
    if xs == [] then None
    else if key(xs[|xs| - 1]) == k then Some(xs[|xs| - 1])
    else LastWithKey(key, k, xs[..|xs| - 1])
  }

  lemma {:induction false} InsertedIsLast<T>(key: T -> Text, x: T, xs: seq<T>)
    ensures LastWithKey(key, key(x), InsertBy(key, x, xs)) == Some(x)
  {
    if xs != [] && Less(key(x), key(xs[|xs| - 1])) {
      var init, last := xs[..|xs| - 1], xs[|xs| - 1];
      InsertedIsLast(key, x, init);
      Asymmetric(key(x), key(last));
      assert (InsertBy(key, x, init) + [last])[..|xs|] == InsertBy(key, x, init);
    } else {
      assert InsertBy(key, x, xs) == xs + [x];
    }
  }

  /** The sort is stable: among ties, the element supplied last comes last. */
  lemma LastSuppliedIsLast<T>(key: T -> Text, xs: seq<T>, x: T)
    ensures LastWithKey(key, key(x), SortBy(key, xs + [x])) == Some(x)
  {
    assert (xs + [x])[..|xs|] == xs;
    InsertedIsLast(key, x, SortBy(key, xs));
  }
}
