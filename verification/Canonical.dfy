/** Deterministic encoding: sorting the entries of every map by their encoded keys. */
module Canonical {
  import opened Wrappers
  import opened Lex
  import opened Cbor
  import Sorting

  /** The sort key of an entry: its key's encoding. */
  function KeyBytes(p: Pair): Text {
    Encode(p.key)
  }

  function Canon(v: Value): Value
    decreases v, 1
  {
    match v
    case Map(pairs) => Map(Sorting.SortBy(KeyBytes, CanonPairs(pairs)))
    case Array(elems) => Array(CanonAll(elems))
    case Tag(tag, inner) => Tag(tag, Canon(inner))
    case _ => v
  }

  function CanonAll(vs: seq<Value>): (r: seq<Value>)
    ensures |r| == |vs| && forall i | 0 <= i < |vs| :: r[i] == Canon(vs[i])
    decreases vs, 0
  {
    if vs == [] then [] else [Canon(vs[0])] + CanonAll(vs[1..])
  }

  function CanonPair(p: Pair): Pair
    decreases p, 0
  {
    Pair(Canon(p.key), Canon(p.val))
  }

  function CanonPairs(ps: seq<Pair>): (r: seq<Pair>)
    ensures |r| == |ps| && forall i | 0 <= i < |ps| :: r[i] == CanonPair(ps[i])
    decreases ps, 0
  {
    if ps == [] then [] else [CanonPair(ps[0])] + CanonPairs(ps[1..])
  }

  method Canonicalize(v: Value) returns (r: Value)
    ensures r == Canon(v)
    decreases v
  {
    match v
    case Map(pairs) =>
      var entries: seq<Pair> := [];
      var i := 0;
      while i < |pairs|
        invariant 0 <= i <= |pairs| && |entries| == i
        invariant forall j | 0 <= j < i :: entries[j] == CanonPair(pairs[j])
      {
        assert pairs[i] in pairs;
        var k := Canonicalize(pairs[i].key);
        var x := Canonicalize(pairs[i].val);
        entries := entries + [Pair(k, x)];
        i := i + 1;
      }
      assert entries == CanonPairs(pairs);
      return Map(Sorting.SortBy(KeyBytes, entries));
    case Array(elems) =>
      var out: seq<Value> := [];
      var i := 0;
      while i < |elems|
        invariant 0 <= i <= |elems| && |out| == i
        invariant forall j | 0 <= j < i :: out[j] == Canon(elems[j])
      {
        var e := Canonicalize(elems[i]);
        out := out + [e];
        i := i + 1;
      }
      assert out == CanonAll(elems);
      return Array(out);
    case Tag(tag, inner) =>
      var x := Canonicalize(inner);
      return Tag(tag, x);
    case _ =>
      return v;
  }

  function CanonicalEncode(v: Value): Text {
    Encode(Canon(v))
  }

  // --- what canonicalization means ----------------------------------------------------------

  /** `p` visits each index below `n` once. */
  ghost predicate Permutation(p: seq<nat>, n: nat) {
    && |p| == n
    && (forall i | 0 <= i < n :: p[i] < n)
    && (forall i, j | 0 <= i < j < n :: p[i] != p[j])
  }

  /** The two values differ at most by the order of map entries, at any depth. */
  ghost predicate SameValue(v: Value, w: Value)
    decreases v
  {
    match v
    case Map(ps) =>
      w.Map? && |w.pairs| == |ps|
      && exists p: seq<nat> :: Permutation(p, |ps|) &&
           forall i | 0 <= i < |ps| ::
             SameValue(ps[i].key, w.pairs[p[i]].key) && SameValue(ps[i].val, w.pairs[p[i]].val)
    case Array(es) =>
      w.Array? && |w.elems| == |es| && forall i | 0 <= i < |es| :: SameValue(es[i], w.elems[i])
    case Tag(tag, inner) => w.Tag? && w.tag == tag && SameValue(inner, w.inner)
    case _ => v == w
  }

  /** No map, at any depth, has two entries whose keys canonicalize alike and whose values do not. */
  ghost predicate Unambiguous(v: Value)
    decreases v
  {
    match v
    case Map(ps) => !Tied(ps) && forall p | p in ps :: Unambiguous(p.key) && Unambiguous(p.val)
    case Array(es) => forall e | e in es :: Unambiguous(e)
    case Tag(_, inner) => Unambiguous(inner)
    case _ => true
  }

  ghost predicate Tied(ps: seq<Pair>) {
    exists p, q | p in ps && q in ps :: Canon(p.key) == Canon(q.key) && Canon(p.val) != Canon(q.val)
  }

  lemma {:induction false} CanonFits(v: Value)
    requires Fits(v)
    ensures Fits(Canon(v))
    decreases v
  {
    match v
    case Map(ps) =>
      var cs := CanonPairs(ps);
      forall c | c in cs ensures Fits(c.key) && Fits(c.val) {
        var i :| 0 <= i < |cs| && cs[i] == c;
        assert ps[i] in ps;
        CanonFits(ps[i].key);
        CanonFits(ps[i].val);
      }
      forall c | c in Canon(v).pairs ensures c in cs {
        assert c in multiset(Canon(v).pairs);
      }
    case Array(es) =>
      forall c | c in CanonAll(es) ensures Fits(c) {
        var i :| 0 <= i < |es| && CanonAll(es)[i] == c;
        CanonFits(es[i]);
      }
    case Tag(_, inner) => CanonFits(inner);
    case _ =>
  }

  lemma SortedElement(cs: seq<Pair>, c: Pair)
    ensures c in Sorting.SortBy(KeyBytes, cs) <==> c in cs
  {
    assert c in multiset(Sorting.SortBy(KeyBytes, cs)) <==> c in multiset(cs);
  }

  /** In every map, at any depth, the encoded keys do not descend. */
  ghost predicate Ordered(v: Value)
    decreases v
  {
    match v
    case Map(ps) =>
      && (forall i, j | 0 <= i < j < |ps| :: !Less(Encode(ps[j].key), Encode(ps[i].key)))
      && forall p | p in ps :: Ordered(p.key) && Ordered(p.val)
    case Array(es) => forall e | e in es :: Ordered(e)
    case Tag(_, inner) => Ordered(inner)
    case _ => true
  }

  /** The canonical form is ordered. */
  lemma {:induction false} CanonIsOrdered(v: Value)
    ensures Ordered(Canon(v))
    decreases v
  {
    match v
    case Map(ps) =>
      var cs := CanonPairs(ps);
      var sorted := Canon(v).pairs;
      Sorting.SortBySorted(KeyBytes, cs);
      forall i, j | 0 <= i < j < |sorted| ensures !Less(Encode(sorted[j].key), Encode(sorted[i].key)) {
        assert !Less(KeyBytes(sorted[j]), KeyBytes(sorted[i]));
      }
      forall p | p in sorted ensures Ordered(p.key) && Ordered(p.val) {
        SortedElement(cs, p);
        var i :| 0 <= i < |cs| && cs[i] == p;
        assert ps[i] in ps;
        CanonIsOrdered(ps[i].key);
        CanonIsOrdered(ps[i].val);
      }
    case Array(es) =>
      forall e | e in CanonAll(es) ensures Ordered(e) {
        var i :| 0 <= i < |es| && CanonAll(es)[i] == e;
        CanonIsOrdered(es[i]);
      }
    case Tag(_, inner) => CanonIsOrdered(inner);
    case _ =>
  }

  lemma {:induction false} OrderedIsCanon(v: Value)
    requires Ordered(v)
    ensures Canon(v) == v
    decreases v
  {
    match v
    case Map(ps) =>
      forall i | 0 <= i < |ps| ensures CanonPairs(ps)[i] == ps[i] {
        assert ps[i] in ps;
        OrderedIsCanon(ps[i].key);
        OrderedIsCanon(ps[i].val);
      }
      assert CanonPairs(ps) == ps;
      forall i, j | 0 <= i < j < |ps| ensures !Less(KeyBytes(ps[j]), KeyBytes(ps[i])) {
      }
      Sorting.SortBySortedIsIdentity(KeyBytes, ps);
    case Array(es) =>
      forall i | 0 <= i < |es| ensures CanonAll(es)[i] == es[i] {
        OrderedIsCanon(es[i]);
      }
      assert CanonAll(es) == es;
    case Tag(_, inner) => OrderedIsCanon(inner);
    case _ =>
  }

  /** The ordered values are exactly the canonical ones. */
  lemma CanonicalIffOrdered(v: Value)
    ensures Canon(v) == v <==> Ordered(v)
  {
    if Ordered(v) {
      OrderedIsCanon(v);
    } else if Canon(v) == v {
      CanonIsOrdered(v);
    }
  }

  /** Canonicalizing twice is canonicalizing once. */
  lemma CanonIsIdempotent(v: Value)
    ensures Canon(Canon(v)) == Canon(v)
  {
    CanonIsOrdered(v);
    OrderedIsCanon(Canon(v));
  }

  // --- permutations and multisets -----------------------------------------------------------

  function Without<T>(s: seq<T>, k: nat): seq<T>
    requires k < |s|
  {
    s[..k] + s[k + 1..]
  }

  lemma WithoutMultiset<T>(s: seq<T>, k: nat)
    requires k < |s|
    ensures multiset(s) == multiset(Without(s, k)) + multiset{s[k]}
  {
    assert s == s[..k] + [s[k]] + s[k + 1..];
  }

  lemma WithoutLast<T>(s: seq<T>)
    requires s != []
    ensures multiset(s) == multiset(s[..|s| - 1]) + multiset{s[|s| - 1]}
  {
    assert s == s[..|s| - 1] + [s[|s| - 1]];
  }

  lemma Cancel<T>(m: multiset<T>, m': multiset<T>, x: T)
    requires m + multiset{x} == m' + multiset{x}
    ensures m == m'
  {
    assert m == (m + multiset{x}) - multiset{x} && m' == (m' + multiset{x}) - multiset{x};
  }

  /** Where index `i` of a sequence goes when its element `k` is taken out, and back. */
  function Lower(i: nat, k: nat): nat
    requires i != k
  {
    if i < k then i else i - 1
  }

  function Raise(i: nat, k: nat): nat {
    if i < k then i else i + 1
  }

  lemma {:induction false} PermutedMultiset<T>(a: seq<T>, b: seq<T>, p: seq<nat>)
    requires |a| == |b| && Permutation(p, |a|) && forall i | 0 <= i < |a| :: a[i] == b[p[i]]
    ensures multiset(a) == multiset(b)
  {
    if a != [] {
      var n := |a| - 1;
      var k := p[n];
      var rest := Without(b, k);
      var q := seq(n, i requires 0 <= i < n => Lower(p[i], k));
      forall i | 0 <= i < n ensures q[i] < n && a[..n][i] == rest[q[i]] {
        assert p[i] != p[n];
      }
      assert Permutation(q, n);
      PermutedMultiset(a[..n], rest, q);
      WithoutMultiset(b, k);
      WithoutLast(a);
    }
  }

  lemma {:induction false} MultisetPermutation<T>(a: seq<T>, b: seq<T>) returns (p: seq<nat>)
    requires multiset(a) == multiset(b)
    ensures |a| == |b| && Permutation(p, |a|) && forall i | 0 <= i < |a| :: a[i] == b[p[i]]
  {
    assert |multiset(a)| == |multiset(b)|;
    if a == [] {
      p := [];
    } else {
      var n := |a| - 1;
      assert a[n] in multiset(b);
      var k :| 0 <= k < |b| && b[k] == a[n];
      WithoutMultiset(b, k);
      WithoutLast(a);
      Cancel(multiset(a[..n]), multiset(Without(b, k)), b[k]);
      var q := MultisetPermutation(a[..n], Without(b, k));
      p := PermutationStep(a, b, k, q);
    }
  }

  /** A permutation of all but one element, extended by that element. */
  lemma PermutationStep<T>(a: seq<T>, b: seq<T>, k: nat, q: seq<nat>) returns (p: seq<nat>)
    requires a != [] && |a| == |b| && k < |b| && b[k] == a[|a| - 1]
    requires Permutation(q, |a| - 1) && forall i | 0 <= i < |a| - 1 :: a[..|a| - 1][i] == Without(b, k)[q[i]]
    ensures Permutation(p, |a|) && forall i | 0 <= i < |a| :: a[i] == b[p[i]]
  {
    var n := |a| - 1;
    p := RaisedPermutation(q, n, k);
    forall i | 0 <= i < n ensures a[i] == b[p[i]] {
      assert a[i] == a[..n][i] == Without(b, k)[q[i]];
    }
  }

  lemma RaisedPermutation(q: seq<nat>, n: nat, k: nat) returns (p: seq<nat>)
    requires Permutation(q, n) && k <= n
    ensures Permutation(p, n + 1) && p[n] == k && forall i | 0 <= i < n :: p[i] == Raise(q[i], k)
  {
    p := seq(n, i requires 0 <= i < n => Raise(q[i], k)) + [k];
  }

  // --- the main theorem ---------------------------------------------------------------------

  lemma CanonKeysDetermine(ps: seq<Pair>)
    requires !Tied(ps) && Fits(Map(ps))
    ensures Sorting.KeyDetermines(KeyBytes, CanonPairs(ps))
  {
    var cs := CanonPairs(ps);
    forall x, y | x in cs && y in cs && KeyBytes(x) == KeyBytes(y) ensures x == y {
      var i :| 0 <= i < |cs| && cs[i] == x;
      var j :| 0 <= j < |cs| && cs[j] == y;
      assert ps[i] in ps && ps[j] in ps;
      CanonFits(ps[i].key);
      CanonFits(ps[j].key);
      EncodeIsInjective(x.key, y.key);
    }
  }

  /** Values that differ only in the order of entries, none of them tied, canonicalize alike. */
  lemma {:induction false} SameValueSameCanon(v: Value, w: Value)
    requires Fits(v) && Unambiguous(v) && SameValue(v, w)
    ensures Canon(v) == Canon(w)
    decreases v, 1
  {
    match v
    case Map(ps) => SameValueSameEntries(ps, w.pairs);
    case Array(es) =>
      forall i | 0 <= i < |es| ensures Canon(es[i]) == Canon(w.elems[i]) {
        SameValueSameCanon(es[i], w.elems[i]);
      }
      assert CanonAll(es) == CanonAll(w.elems);
    case Tag(_, inner) => SameValueSameCanon(inner, w.inner);
    case _ =>
  }

  lemma {:induction false} SameValueSameEntries(ps: seq<Pair>, qs: seq<Pair>)
    requires Fits(Map(ps)) && Unambiguous(Map(ps)) && SameValue(Map(ps), Map(qs))
    ensures Canon(Map(ps)) == Canon(Map(qs))
    decreases ps, 0
  {
    var p: seq<nat> :| Permutation(p, |ps|) && forall i | 0 <= i < |ps| ::
      SameValue(ps[i].key, qs[p[i]].key) && SameValue(ps[i].val, qs[p[i]].val);
    forall i | 0 <= i < |ps| ensures CanonPair(ps[i]) == CanonPair(qs[p[i]]) {
      assert ps[i] in ps;
      SameValueSamePair(ps[i], qs[p[i]]);
    }
    PermutedEntriesSortAlike(ps, qs, p);
  }

  lemma PermutedEntriesSortAlike(ps: seq<Pair>, qs: seq<Pair>, p: seq<nat>)
    requires !Tied(ps) && Fits(Map(ps)) && |ps| == |qs| && Permutation(p, |ps|)
    requires forall i | 0 <= i < |ps| :: CanonPair(ps[i]) == CanonPair(qs[p[i]])
    ensures Canon(Map(ps)) == Canon(Map(qs))
  {
    PermutedMultiset(CanonPairs(ps), CanonPairs(qs), p);
    CanonKeysDetermine(ps);
    Sorting.SortForgetsOrder(KeyBytes, CanonPairs(ps), CanonPairs(qs));
  }

  lemma {:induction false} SameValueSamePair(p: Pair, q: Pair)
    requires Fits(p.key) && Fits(p.val) && Unambiguous(p.key) && Unambiguous(p.val)
    requires SameValue(p.key, q.key) && SameValue(p.val, q.val)
    ensures CanonPair(p) == CanonPair(q)
    decreases p, 0
  {
    SameValueSameCanon(p.key, q.key);
    SameValueSameCanon(p.val, q.val);
  }

  /** Values that canonicalize alike differ only in the order of entries. */
  lemma {:induction false} SameCanonSameValue(v: Value, w: Value)
    requires Canon(v) == Canon(w)
    ensures SameValue(v, w)
    decreases v, 1
  {
    match v
    case Map(ps) => SameEntriesSameValue(ps, w.pairs);
    case Array(es) =>
      forall i | 0 <= i < |es| ensures SameValue(es[i], w.elems[i]) {
        assert CanonAll(es)[i] == CanonAll(w.elems)[i];
        SameCanonSameValue(es[i], w.elems[i]);
      }
    case Tag(_, inner) => SameCanonSameValue(inner, w.inner);
    case _ =>
  }

  lemma {:induction false} SameEntriesSameValue(ps: seq<Pair>, qs: seq<Pair>)
    requires multiset(CanonPairs(ps)) == multiset(CanonPairs(qs))
    ensures SameValue(Map(ps), Map(qs))
    decreases ps, 0
  {
    var p := MultisetPermutation(CanonPairs(ps), CanonPairs(qs));
    forall i | 0 <= i < |ps|
      ensures SameValue(ps[i].key, qs[p[i]].key) && SameValue(ps[i].val, qs[p[i]].val)
    {
      assert CanonPair(ps[i]) == CanonPair(qs[p[i]]);
      SamePairs(ps[i], qs[p[i]]);
    }
  }

  lemma {:induction false} SamePairs(p: Pair, q: Pair)
    requires CanonPair(p) == CanonPair(q)
    ensures SameValue(p.key, q.key) && SameValue(p.val, q.val)
    decreases p, 0
  {
    SameCanonSameValue(p.key, q.key);
    SameCanonSameValue(p.val, q.val);
  }

  /** Canonicalizing moves nothing but map entries: arrays keep their order, at every depth, and nothing
      else changes. */
  lemma CanonKeepsValue(v: Value)
    ensures SameValue(v, Canon(v))
  {
    CanonIsIdempotent(v);
    SameCanonSameValue(v, Canon(v));
  }

  /** The promise of the canonical form: two values have the same canonical bytes exactly when they
      are the same up to the order of map entries. */
  lemma CanonicalBytesIff(v: Value, w: Value)
    requires Fits(v) && Fits(w) && Unambiguous(v)
    ensures CanonicalEncode(v) == CanonicalEncode(w) <==> SameValue(v, w)
  {
    CanonFits(v);
    CanonFits(w);
    if SameValue(v, w) {
      SameValueSameCanon(v, w);
    } else if CanonicalEncode(v) == CanonicalEncode(w) {
      EncodeIsInjective(Canon(v), Canon(w));
      SameCanonSameValue(v, w);
    }
  }

  /** Without ties the canonical form is the one arrangement of the value that is ordered. */
  lemma CanonIsTheOrdered(v: Value, w: Value)
    requires Fits(v) && Unambiguous(v)
    ensures SameValue(v, w) && Ordered(w) <==> w == Canon(v)
  {
    if SameValue(v, w) && Ordered(w) {
      SameValueSameCanon(v, w);
      OrderedIsCanon(w);
    }
    if w == Canon(v) {
      CanonKeepsValue(v);
      CanonIsOrdered(v);
    }
  }

  // --- the exact condition ------------------------------------------------------------------

  function ToEnd<T>(s: seq<T>, k: nat): (r: seq<T>)
    requires k < |s|
    ensures |r| == |s|
    ensures forall i | 0 <= i < |s| :: r[i] == s[if i < k then i else if i < |s| - 1 then i + 1 else k]
  {
    Without(s, k) + [s[k]]
  }

  lemma ToEndCommutes<A, B>(f: A -> B, s: seq<A>, k: nat, t: seq<B>, u: seq<B>)
    requires k < |s| == |t| == |u|
    requires forall i | 0 <= i < |s| :: t[i] == f(s[i]) && u[i] == f(ToEnd(s, k)[i])
    ensures u == ToEnd(t, k)
  {
  }

  lemma UpdateCommutes<A, B>(f: A -> B, s: seq<A>, k: nat, x: A, t: seq<B>, u: seq<B>)
    requires k < |s| == |t| == |u|
    requires forall i | 0 <= i < |s| :: t[i] == f(s[i]) && u[i] == f(s[k := x][i])
    ensures u == t[k := f(x)]
  {
  }

  /** Moving one entry of a map to the end keeps the value. */
  lemma ToEndSameValue(ps: seq<Pair>, k: nat)
    requires k < |ps|
    ensures SameValue(Map(ps), Map(ToEnd(ps, k)))
  {
    ToEndCommutes(CanonPair, ps, k, CanonPairs(ps), CanonPairs(ToEnd(ps, k)));
    WithoutMultiset(CanonPairs(ps), k);
    SameEntriesSameValue(ps, ToEnd(ps, k));
  }

  ghost function LastTie(k: Value, v: Value): Option<Pair>
    requires v.Map?
  {
    Sorting.LastWithKey(KeyBytes, Encode(k), v.pairs)
  }

  /** The entry moved to the end is the last of its ties in the canonical form. */
  lemma LastTieShows(ps: seq<Pair>, k: nat)
    requires k < |ps|
    ensures LastTie(Canon(ps[k].key), Canon(Map(ToEnd(ps, k)))) == Some(CanonPair(ps[k]))
  {
    var cs := CanonPairs(ps);
    ToEndCommutes(CanonPair, ps, k, cs, CanonPairs(ToEnd(ps, k)));
    Sorting.LastSuppliedIsLast(KeyBytes, Without(cs, k), cs[k]);
  }

  /** Two tied entries give two reorderings with different canonical forms. */
  lemma TieShows(ps: seq<Pair>) returns (w: Value)
    requires Tied(ps)
    ensures SameValue(Map(ps), w) && Canon(w) != Canon(Map(ps))
  {
    var p, q :| p in ps && q in ps && Canon(p.key) == Canon(q.key) && Canon(p.val) != Canon(q.val);
    var i :| 0 <= i < |ps| && ps[i] == p;
    var j :| 0 <= j < |ps| && ps[j] == q;
    LastTieShows(ps, i);
    LastTieShows(ps, j);
    ToEndSameValue(ps, i);
    ToEndSameValue(ps, j);
    w := Map(ToEnd(ps, i));
    if Canon(w) == Canon(Map(ps)) {
      w := Map(ToEnd(ps, j));
    }
  }

  /** Replacing one element changes the multiset, hence every arrangement of it. */
  lemma ReplacedSortDiffers(cs: seq<Pair>, k: nat, c: Pair)
    requires k < |cs| && c != cs[k]
    ensures Sorting.SortBy(KeyBytes, cs[k := c]) != Sorting.SortBy(KeyBytes, cs)
  {
    var m := multiset(Without(cs, k));
    assert Without(cs[k := c], k) == Without(cs, k);
    WithoutMultiset(cs, k);
    WithoutMultiset(cs[k := c], k);
    assert (m + multiset{cs[k]})[c] != (m + multiset{c})[c];
  }

  lemma ReplacedPairSameValue(ps: seq<Pair>, k: nat, q: Pair)
    requires k < |ps| && SameValue(ps[k].key, q.key) && SameValue(ps[k].val, q.val)
    ensures SameValue(Map(ps), Map(ps[k := q]))
  {
    var id := seq(|ps|, i => i);
    assert Permutation(id, |ps|);
    forall i | 0 <= i < |ps|
      ensures SameValue(ps[i].key, ps[k := q][id[i]].key) && SameValue(ps[i].val, ps[k := q][id[i]].val)
    {
      if i != k {
        SamePairs(ps[i], ps[i]);
      }
    }
  }

  /** Replacing one entry by one with another canonical form changes the canonical form. */
  lemma ReplacedPairShows(ps: seq<Pair>, k: nat, q: Pair)
    requires k < |ps| && CanonPair(q) != CanonPair(ps[k])
    ensures Canon(Map(ps[k := q])) != Canon(Map(ps))
  {
    UpdateCommutes(CanonPair, ps, k, q, CanonPairs(ps), CanonPairs(ps[k := q]));
    ReplacedSortDiffers(CanonPairs(ps), k, CanonPair(q));
  }

  lemma ReplacedElementShows(es: seq<Value>, k: nat, x: Value)
    requires k < |es| && Canon(x) != Canon(es[k]) && SameValue(es[k], x)
    ensures SameValue(Array(es), Array(es[k := x])) && Canon(Array(es[k := x])) != Canon(Array(es))
  {
    forall i | 0 <= i < |es| ensures SameValue(es[i], es[k := x][i]) {
      if i != k {
        SameCanonSameValue(es[i], es[i]);
      }
    }
    assert CanonAll(es[k := x])[k] != CanonAll(es)[k];
  }

  /** An ambiguous value can be reordered into one with another canonical form. */
  lemma {:induction false} AmbiguityShows(v: Value) returns (w: Value)
    requires !Unambiguous(v)
    ensures SameValue(v, w) && Canon(w) != Canon(v)
    decreases v, 1
  {
    match v
    case Map(ps) =>
      if Tied(ps) {
        w := TieShows(ps);
      } else {
        var p :| p in ps && !(Unambiguous(p.key) && Unambiguous(p.val));
        var k :| 0 <= k < |ps| && ps[k] == p;
        var q := AmbiguousPairShows(p);
        ReplacedPairSameValue(ps, k, q);
        ReplacedPairShows(ps, k, q);
        w := Map(ps[k := q]);
      }
    case Array(es) =>
      var k :| 0 <= k < |es| && !Unambiguous(es[k]);
      var x := AmbiguityShows(es[k]);
      ReplacedElementShows(es, k, x);
      w := Array(es[k := x]);
    case Tag(tag, inner) =>
      var x := AmbiguityShows(inner);
      w := Tag(tag, x);
    case _ =>
      assert false;
  }

  lemma {:induction false} AmbiguousPairShows(p: Pair) returns (q: Pair)
    requires !(Unambiguous(p.key) && Unambiguous(p.val))
    ensures SameValue(p.key, q.key) && SameValue(p.val, q.val) && CanonPair(q) != CanonPair(p)
    decreases p, 0
  {
    if !Unambiguous(p.key) {
      var k := AmbiguityShows(p.key);
      SameCanonSameValue(p.val, p.val);
      q := Pair(k, p.val);
    } else {
      var x := AmbiguityShows(p.val);
      SameCanonSameValue(p.key, p.key);
      q := Pair(p.key, x);
    }
  }

  /** Exactly when the canonical bytes forget the order in which map entries were given: no two
      entries of a map tie on their keys while differing in their values. */
  lemma OrderIsForgottenIff(v: Value)
    requires Fits(v)
    ensures Unambiguous(v) <==> forall w | Fits(w) && SameValue(v, w) :: CanonicalEncode(w) == CanonicalEncode(v)
  {
    if Unambiguous(v) {
      forall w | Fits(w) && SameValue(v, w) ensures CanonicalEncode(w) == CanonicalEncode(v) {
        SameValueSameCanon(v, w);
      }
    } else {
      var w := AmbiguityShows(v);
      SameValueFits(v, w);
      CanonFits(v);
      CanonFits(w);
      if CanonicalEncode(w) == CanonicalEncode(v) {
        EncodeIsInjective(Canon(w), Canon(v));
      }
    }
  }

  lemma {:induction false} SameValueFits(v: Value, w: Value)
    requires Fits(v) && SameValue(v, w)
    ensures Fits(w)
    decreases v
  {
    match v
    case Map(ps) =>
      var p: seq<nat> :| Permutation(p, |ps|) && forall i | 0 <= i < |ps| ::
        SameValue(ps[i].key, w.pairs[p[i]].key) && SameValue(ps[i].val, w.pairs[p[i]].val);
      forall k | 0 <= k < |w.pairs| ensures Fits(w.pairs[k].key) && Fits(w.pairs[k].val) {
        var i := Preimage(p, |ps|, k);
        assert ps[i] in ps;
        SameValueFits(ps[i].key, w.pairs[k].key);
        SameValueFits(ps[i].val, w.pairs[k].val);
      }
    case Array(es) =>
      forall i | 0 <= i < |es| ensures Fits(w.elems[i]) {
        SameValueFits(es[i], w.elems[i]);
      }
    case Tag(_, inner) => SameValueFits(inner, w.inner);
    case _ =>
  }

  /** A permutation visits every index. */
  lemma {:induction false} Preimage(p: seq<nat>, n: nat, k: nat) returns (i: nat)
    requires Permutation(p, n) && k < n
    ensures i < n && p[i] == k
  {
    var ids := seq(n, j => j);
    PermutedMultiset(p, ids, p);
    assert ids[k] == k;
    assert k in multiset(p);
    i :| i < n && p[i] == k;
  }
}
