/** The CBOR encoding of values (floating point apart), with definite lengths and shortest heads. */
module Cbor {
  import opened Wrappers
  import opened Lex

  datatype Pair = Pair(key: Value, val: Value)

  datatype Value =
    | Unsigned(n: nat)
    | Negative(n: nat) // the integer -1 - n
    | ByteString(b: Text)
    | TextString(t: Text)
    | Array(elems: seq<Value>)
    | Map(pairs: seq<Pair>)
    | Tag(tag: nat, inner: Value)
    | Bool(v: bool)
    | Null

  const LIMIT: nat := 0x1_0000_0000_0000_0000

  /** The low `k` bytes of `n`, most significant first. */
  function BigEndian(n: nat, k: nat): (r: Text)
    ensures |r| == k
  {
    if k == 0 then [] else BigEndian(n / 256, k - 1) + [n % 256]
  }

  function Pow256(k: nat): nat {
    if k == 0 then 1 else 256 * Pow256(k - 1)
  }

  /** A head: the major type and an argument in the shortest form that holds it. */
  function Head(major: nat, n: nat): (r: Text)
    requires major < 8
    ensures r != []
  {
    if n < 24 then [major * 32 + n]
    else if n < 0x100 then [major * 32 + 24] + BigEndian(n, 1)
    else if n < 0x1_0000 then [major * 32 + 25] + BigEndian(n, 2)
    else if n < 0x1_0000_0000 then [major * 32 + 26] + BigEndian(n, 4)
    else [major * 32 + 27] + BigEndian(n, 8)
  }

  /** The number whose bytes these are, most significant first. */
  function NumberOf(t: Text): nat {
    if t == [] then 0 else NumberOf(t[..|t| - 1]) * 256 + t[|t| - 1]
  }

  /** How many bytes follow the initial byte of a head with the given low five bits: section 3 of RFC 8949.
      Values from 28 on are reserved or mean an indefinite length. */
  function Following(info: nat): Option<nat> {
    if info < 24 then Some(0)
    else if info == 24 then Some(1)
    else if info == 25 then Some(2)
    else if info == 26 then Some(4)
    else if info == 27 then Some(8)
    else None
  }

  /** What a decoder reads from a head: the major type in the high three bits, and the argument in the low
      five or in the bytes that follow. */
  predicate HeadSays(h: Text, major: nat, n: nat) {
    && h != [] && h[0] / 32 == major
    && var info := h[0] % 32;
       && Following(info) == Some(|h| - 1)
       && n == if info < 24 then info else NumberOf(h[1..])
  }

  lemma {:induction false} BigEndianIsNumber(n: nat, k: nat)
    requires n < Pow256(k)
    ensures NumberOf(BigEndian(n, k)) == n
  {
    if k > 0 {
      BigEndianIsNumber(n / 256, k - 1);
      assert BigEndian(n, k)[..k - 1] == BigEndian(n / 256, k - 1);
    }
  }

  lemma {:induction false} NumberIsBounded(t: Text)
    ensures NumberOf(t) < Pow256(|t|)
  {
    if t != [] {
      NumberIsBounded(t[..|t| - 1]);
    }
  }

  lemma LongHeadSays(major: nat, info: nat, n: nat, k: nat)
    requires major < 8 && 24 <= info < 32 && Following(info) == Some(k) && n < Pow256(k)
    ensures HeadSays([major * 32 + info] + BigEndian(n, k), major, n)
  {
    var h: Text := [major * 32 + info] + BigEndian(n, k);
    assert h[0] / 32 == major && h[0] % 32 == info && h[1..] == BigEndian(n, k);
    BigEndianIsNumber(n, k);
  }

  lemma HeadSaysIt(major: nat, n: nat)
    requires major < 8 && n < LIMIT
    ensures HeadSays(Head(major, n), major, n)
  {
    Powers();
    if n < 24 {
      assert Head(major, n) == [major * 32 + n];
    } else if n < 0x100 {
      LongHeadSays(major, 24, n, 1);
    } else if n < 0x1_0000 {
      LongHeadSays(major, 25, n, 2);
    } else if n < 0x1_0000_0000 {
      LongHeadSays(major, 26, n, 4);
    } else {
      LongHeadSays(major, 27, n, 8);
    }
  }

  lemma ShorterHeadsSayLess(h: Text, major: nat, n: nat)
    requires HeadSays(h, major, n)
    ensures |h| in {1, 2, 3, 5, 9} && n < if |h| == 1 then 24 else Pow256(|h| - 1)
  {
    if |h| > 1 {
      NumberIsBounded(h[1..]);
    }
  }

  /** The head says what it should, and no shorter head does. */
  lemma HeadIsShortest(major: nat, n: nat)
    requires major < 8 && n < LIMIT
    ensures HeadSays(Head(major, n), major, n)
    ensures forall h | HeadSays(h, major, n) :: |Head(major, n)| <= |h|
  {
    HeadSaysIt(major, n);
    forall h | HeadSays(h, major, n) ensures |Head(major, n)| <= |h| {
      ShorterHeadsSayLess(h, major, n);
      Powers();
    }
  }

  function Encode(v: Value): (r: Text)
    decreases v, 1
  {
    match v
    case Unsigned(n) => Head(0, n)
    case Negative(n) => Head(1, n)
    case ByteString(b) => Head(2, |b|) + b
    case TextString(t) => Head(3, |t|) + t
    case Array(elems) => Head(4, |elems|) + EncodeAll(elems)
    case Map(pairs) => Head(5, |pairs|) + EncodePairs(pairs)
    case Tag(tag, inner) => Head(6, tag) + Encode(inner)
    case Bool(b) => Head(7, if b then 21 else 20)
    case Null => Head(7, 22)
  }

  function EncodeAll(vs: seq<Value>): Text
    decreases vs, 0
  {
    if vs == [] then [] else Encode(vs[0]) + EncodeAll(vs[1..])
  }

  function EncodePair(p: Pair): Text
    decreases p, 0
  {
    Encode(p.key) + Encode(p.val)
  }

  function EncodePairs(ps: seq<Pair>): Text
    decreases ps, 0
  {
    if ps == [] then [] else EncodePair(ps[0]) + EncodePairs(ps[1..])
  }

  /** Every number and every length fits the 64 bits of a head. */
  predicate Fits(v: Value) {
    match v
    case Unsigned(n) => n < LIMIT
    case Negative(n) => n < LIMIT
    case ByteString(b) => |b| < LIMIT
    case TextString(t) => |t| < LIMIT
    case Array(elems) => |elems| < LIMIT && forall e | e in elems :: Fits(e)
    case Map(pairs) => |pairs| < LIMIT && forall p | p in pairs :: Fits(p.key) && Fits(p.val)
    case Tag(tag, inner) => tag < LIMIT && Fits(inner)
    case _ => true
  }

  // --- order and uniqueness of heads --------------------------------------------------------

  lemma {:induction false} LessExtends(a: Text, b: Text, x: Text, y: Text)
    requires |a| == |b| && Less(a, b)
    ensures Less(a + x, b + y)
  {
    if a[0] == b[0] {
      LessExtends(a[1..], b[1..], x, y);
      assert (a + x)[1..] == a[1..] + x && (b + y)[1..] == b[1..] + y;
    }
  }

  lemma {:induction false} BigEndianOrder(n: nat, m: nat, k: nat)
    requires n < m < Pow256(k)
    ensures Less(BigEndian(n, k), BigEndian(m, k))
  {
    if n / 256 < m / 256 {
      BigEndianOrder(n / 256, m / 256, k - 1);
      LessExtends(BigEndian(n / 256, k - 1), BigEndian(m / 256, k - 1), [n % 256], [m % 256]);
    } else {
      LessAfterPrefix(BigEndian(n / 256, k - 1), [n % 256], [m % 256]);
    }
  }

  lemma Powers()
    ensures Pow256(1) == 0x100 && Pow256(2) == 0x1_0000 && Pow256(4) == 0x1_0000_0000 && Pow256(8) == LIMIT
  {
    assert Pow256(3) == 0x100_0000;
    assert Pow256(5) == 0x100_0000_0000 && Pow256(6) == 0x1_0000_0000_0000 && Pow256(7) == 0x100_0000_0000_0000;
  }

  /** Heads of one major type are ordered like their arguments, whatever follows them. */
  lemma HeadOrder(major: nat, n: nat, m: nat, x: Text, y: Text)
    requires major < 8 && n < m < LIMIT
    ensures Less(Head(major, n) + x, Head(major, m) + y)
  {
    Powers();
    var a, b := Head(major, n), Head(major, m);
    assert (a + x)[0] == a[0] && (b + y)[0] == b[0];
    if a[0] == b[0] {
      assert n >= 24;
      var k := |a| - 1;
      BigEndianOrder(n, m, k);
      assert a[1..] == BigEndian(n, k) && b[1..] == BigEndian(m, k);
      assert Less(a, b);
      LessExtends(a, b, x, y);
    }
  }

  lemma HeadIsPrefixFree(major: nat, n: nat, major': nat, n': nat, x: Text, y: Text)
    requires major < 8 && major' < 8 && n < LIMIT && n' < LIMIT
    requires Head(major, n) + x == Head(major', n') + y
    ensures major == major' && n == n' && x == y
  {
    var a, b := Head(major, n), Head(major', n');
    assert (a + x)[0] == a[0] && (b + y)[0] == b[0];
    assert a[0] / 32 == major && b[0] / 32 == major';
    if n < n' {
      HeadOrder(major, n, n', x, y);
      Asymmetric(a + x, b + y);
    } else if n' < n {
      HeadOrder(major, n', n, y, x);
      Asymmetric(b + y, a + x);
    }
    assert x == (a + x)[|a|..] && y == (b + y)[|b|..];
  }

  lemma SamePrefix(a: Text, b: Text, x: Text, y: Text)
    requires |a| == |b| && a + x == b + y
    ensures a == b && x == y
  {
    assert a == (a + x)[..|a|] && b == (b + y)[..|b|];
    assert x == (a + x)[|a|..] && y == (b + y)[|b|..];
  }

  function Major(v: Value): (m: nat)
    ensures m < 8
  {
    match v
    case Unsigned(_) => 0
    case Negative(_) => 1
    case ByteString(_) => 2
    case TextString(_) => 3
    case Array(_) => 4
    case Map(_) => 5
    case Tag(_, _) => 6
    case Bool(_) => 7
    case Null => 7
  }

  function Argument(v: Value): nat {
    match v
    case Unsigned(n) => n
    case Negative(n) => n
    case ByteString(b) => |b|
    case TextString(t) => |t|
    case Array(elems) => |elems|
    case Map(pairs) => |pairs|
    case Tag(tag, _) => tag
    case Bool(b) => if b then 21 else 20
    case Null => 22
  }

  function Body(v: Value): Text {
    match v
    case ByteString(b) => b
    case TextString(t) => t
    case Array(elems) => EncodeAll(elems)
    case Map(pairs) => EncodePairs(pairs)
    case Tag(_, inner) => Encode(inner)
    case _ => []
  }

  lemma EncodeIsHeadAndBody(v: Value, x: Text)
    ensures Encode(v) + x == Head(Major(v), Argument(v)) + (Body(v) + x)
  {
    assert Encode(v) == Head(Major(v), Argument(v)) + Body(v);
  }

  /** The encoding is uniquely decodable: it is injective, and no encoding continues another. So a
      hash of encodings identifies values, as far as the hash function itself does. */
  lemma {:induction false} EncodeIsPrefixFree(v: Value, w: Value, x: Text, y: Text)
    requires Fits(v) && Fits(w) && Encode(v) + x == Encode(w) + y
    ensures v == w && x == y
    decreases v, 1
  {
    EncodeIsHeadAndBody(v, x);
    EncodeIsHeadAndBody(w, y);
    HeadIsPrefixFree(Major(v), Argument(v), Major(w), Argument(w), Body(v) + x, Body(w) + y);
    match v
    case ByteString(b) => SamePrefix(b, w.b, x, y);
    case TextString(t) => SamePrefix(t, w.t, x, y);
    case Array(elems) => EncodeAllIsPrefixFree(elems, w.elems, x, y);
    case Map(pairs) => EncodePairsIsPrefixFree(pairs, w.pairs, x, y);
    case Tag(_, inner) => EncodeIsPrefixFree(inner, w.inner, x, y);
    case _ => assert [] + x == x && [] + y == y;
  }

  lemma {:induction false} EncodeAllIsPrefixFree(vs: seq<Value>, ws: seq<Value>, x: Text, y: Text)
    requires |vs| == |ws| && (forall v | v in vs :: Fits(v)) && (forall w | w in ws :: Fits(w))
    requires EncodeAll(vs) + x == EncodeAll(ws) + y
    ensures vs == ws && x == y
    decreases vs, 0
  {
    if vs == [] {
      assert [] + x == x && [] + y == y;
    } else {
      assert vs[0] in vs && ws[0] in ws;
      assert EncodeAll(vs) + x == Encode(vs[0]) + (EncodeAll(vs[1..]) + x);
      assert EncodeAll(ws) + y == Encode(ws[0]) + (EncodeAll(ws[1..]) + y);
      EncodeIsPrefixFree(vs[0], ws[0], EncodeAll(vs[1..]) + x, EncodeAll(ws[1..]) + y);
      EncodeAllIsPrefixFree(vs[1..], ws[1..], x, y);
      assert vs == [vs[0]] + vs[1..] && ws == [ws[0]] + ws[1..];
    }
  }

  lemma {:induction false} EncodePairIsPrefixFree(p: Pair, q: Pair, x: Text, y: Text)
    requires Fits(p.key) && Fits(p.val) && Fits(q.key) && Fits(q.val)
    requires EncodePair(p) + x == EncodePair(q) + y
    ensures p == q && x == y
    decreases p, 0
  {
    assert EncodePair(p) + x == Encode(p.key) + (Encode(p.val) + x);
    assert EncodePair(q) + y == Encode(q.key) + (Encode(q.val) + y);
    EncodeIsPrefixFree(p.key, q.key, Encode(p.val) + x, Encode(q.val) + y);
    EncodeIsPrefixFree(p.val, q.val, x, y);
  }

  lemma EncodePairsStep(ps: seq<Pair>, x: Text)
    requires ps != []
    ensures EncodePairs(ps) + x == EncodePair(ps[0]) + (EncodePairs(ps[1..]) + x)
  {
    Associative(EncodePair(ps[0]), EncodePairs(ps[1..]), x);
  }

  lemma Associative(a: Text, b: Text, c: Text)
    ensures (a + b) + c == a + (b + c)
  {
  }

  lemma {:induction false} EncodePairsIsPrefixFree(ps: seq<Pair>, qs: seq<Pair>, x: Text, y: Text)
    requires |ps| == |qs|
    requires forall i | 0 <= i < |ps| :: Fits(ps[i].key) && Fits(ps[i].val)
    requires forall i | 0 <= i < |qs| :: Fits(qs[i].key) && Fits(qs[i].val)
    requires EncodePairs(ps) + x == EncodePairs(qs) + y
    ensures ps == qs && x == y
    decreases ps, 0
  {
    if ps == [] {
      assert [] + x == x && [] + y == y;
    } else {
      EncodePairsStep(ps, x);
      EncodePairsStep(qs, y);
      EncodePairIsPrefixFree(ps[0], qs[0], EncodePairs(ps[1..]) + x, EncodePairs(qs[1..]) + y);
      EncodePairsIsPrefixFree(ps[1..], qs[1..], x, y);
      assert ps == [ps[0]] + ps[1..] && qs == [qs[0]] + qs[1..];
    }
  }

  lemma EncodeIsInjective(v: Value, w: Value)
    requires Fits(v) && Fits(w) && Encode(v) == Encode(w)
    ensures v == w
  {
    assert Encode(v) + [] == Encode(w) + [];
    EncodeIsPrefixFree(v, w, [], []);
  }

  /** For text keys, the bytewise order of section 4.2.1 of RFC 8949 is the order by length and then
      by content, across all five lengths of heads. */
  lemma TextKeyOrder(a: Text, b: Text)
    requires |a| < LIMIT && |b| < LIMIT
    ensures Less(Encode(TextString(a)), Encode(TextString(b)))
            <==> |a| < |b| || (|a| == |b| && Less(a, b))
  {
    if |a| < |b| {
      HeadOrder(3, |a|, |b|, a, b);
    } else if |b| < |a| {
      HeadOrder(3, |b|, |a|, b, a);
      Asymmetric(Encode(TextString(b)), Encode(TextString(a)));
    } else {
      LessAfterPrefix(Head(3, |a|), a, b);
    }
  }

  // --- known encodings ----------------------------------------------------------------------

  /** Examples of appendix A of RFC 8949: numbers and simple values. */
  lemma AppendixANumbers()
    ensures Encode(Unsigned(0)) == [0x00] && Encode(Unsigned(10)) == [0x0a] && Encode(Unsigned(23)) == [0x17]
    ensures Encode(Unsigned(24)) == [0x18, 0x18] && Encode(Unsigned(1000)) == [0x19, 0x03, 0xe8]
    ensures Encode(Negative(0)) == [0x20] && Encode(Negative(9)) == [0x29] && Encode(Negative(99)) == [0x38, 0x63]
    ensures Encode(Bool(false)) == [0xf4] && Encode(Bool(true)) == [0xf5] && Encode(Null) == [0xf6]
  {
    OneByte(24);
    OneByte(99);
    TwoBytes(1000);
  }

  /** Strings, empty collections and tags. */
  lemma AppendixAStrings()
    ensures Encode(ByteString([])) == [0x40] && Encode(ByteString([1, 2, 3, 4])) == [0x44, 0x01, 0x02, 0x03, 0x04]
    ensures Encode(TextString([])) == [0x60] && Encode(TextString(Ascii("IETF"))) == [0x64, 0x49, 0x45, 0x54, 0x46]
    ensures Encode(Array([])) == [0x80] && Encode(Map([])) == [0xa0]
    ensures Encode(Tag(23, ByteString([1, 2, 3, 4]))) == [0xd7, 0x44, 0x01, 0x02, 0x03, 0x04]
  {
    assert Ascii("IETF") == [0x49, 0x45, 0x54, 0x46];
  }

  lemma OneByte(n: nat)
    ensures BigEndian(n, 1) == [n % 256]
  {
    assert BigEndian(n / 256, 0) == [];
  }

  lemma TwoBytes(n: nat)
    ensures BigEndian(n, 2) == [n / 256 % 256, n % 256]
  {
    OneByte(n / 256);
    assert BigEndian(n, 2) == BigEndian(n / 256, 1) + [n % 256];
  }

  /** Elements and entries are encoded one after the other, each key before its value. */
  lemma AppendixAArray()
    ensures Encode(Array([Unsigned(1), Unsigned(2), Unsigned(3)])) == [0x83, 0x01, 0x02, 0x03]
  {
    var three := [Unsigned(1), Unsigned(2), Unsigned(3)];
    assert three[1..] == [Unsigned(2), Unsigned(3)] && three[1..][1..] == [Unsigned(3)] && [Unsigned(3)][1..] == [];
    assert EncodeAll([Unsigned(3)]) == [0x03] && EncodeAll(three[1..]) == [0x02, 0x03] && EncodeAll(three) == [0x01, 0x02, 0x03];
  }

  lemma AppendixAMap()
    ensures Encode(Map([Pair(Unsigned(1), Unsigned(2)), Pair(Unsigned(3), Unsigned(4))])) == [0xa2, 0x01, 0x02, 0x03, 0x04]
  {
    var two := [Pair(Unsigned(1), Unsigned(2)), Pair(Unsigned(3), Unsigned(4))];
    assert two[1..] == [two[1]] && two[1..][1..] == [];
    assert EncodePairs(two[1..]) == [0x03, 0x04] && EncodePairs(two) == [0x01, 0x02, 0x03, 0x04];
  }
}
