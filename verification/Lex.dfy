/** Byte strings, their lexicographic order, and paths made of byte-string components.

    Rust compares `String` and `Vec<u8>` bytewise, so one order serves both tree-entry names
    and canonical map keys. */
module Lex {

  type Byte = b: int | 0 <= b < 256

  type Text = seq<Byte>

  type Path = seq<Text>

  const SLASH: Byte := 47
  const NUL: Byte := 0
  const DOT: Byte := 46

  predicate IsContinuation(b: Byte) {
    0x80 <= b <= 0xBF
  }

  /** The length of the first character in UTF-8, or zero where the text does not start with one: table
      3-7 of the Unicode Standard. */
  function CharLength(t: Text): (n: nat)
    requires t != []
    ensures n <= |t|
  {
    var a := t[0];
    if a < 0x80 then 1
    else if |t| >= 2 && 0xC2 <= a <= 0xDF && IsContinuation(t[1]) then 2
    else if |t| >= 3 && 0xE0 <= a <= 0xEF && IsContinuation(t[1]) && IsContinuation(t[2])
            && (a == 0xE0 ==> t[1] >= 0xA0) && (a == 0xED ==> t[1] <= 0x9F) then 3
    else if |t| >= 4 && 0xF0 <= a <= 0xF4 && IsContinuation(t[1]) && IsContinuation(t[2]) && IsContinuation(t[3])
            && (a == 0xF0 ==> t[1] >= 0x90) && (a == 0xF4 ==> t[1] <= 0x8F) then 4
    else 0
  }

  predicate IsUtf8(t: Text) {
    t != [] ==> CharLength(t) > 0 && IsUtf8(t[CharLength(t)..])
  }

  predicate IsScalar(c: nat) {
    c < 0x11_0000 && !(0xD800 <= c < 0xE000)
  }

  /** The bytes of one scalar value: section 3 of RFC 3629. */
  function CharBytes(c: nat): (r: Text)
    requires IsScalar(c)
  {
    if c < 0x80 then [c]
    else if c < 0x800 then [0xC0 + c / 64, 0x80 + c % 64]
    else if c < 0x1_0000 then [0xE0 + c / 4096, 0x80 + c / 64 % 64, 0x80 + c % 64]
    else [0xF0 + c / 262144, 0x80 + c / 4096 % 64, 0x80 + c / 64 % 64, 0x80 + c % 64]
  }

  predicate AreScalars(cs: seq<nat>) {
    forall c | c in cs :: IsScalar(c)
  }

  function Utf8(cs: seq<nat>): Text
    requires AreScalars(cs)
  {
    if cs == [] then [] else CharBytes(cs[0]) + Utf8(cs[1..])
  }

  lemma CharBytesAreRead(c: nat, rest: Text)
    requires IsScalar(c)
    ensures CharLength(CharBytes(c) + rest) == |CharBytes(c)|
  {
    var b := CharBytes(c);
    assert forall i | 0 <= i < |b| :: (b + rest)[i] == b[i];
  }

  lemma SixMore(q: int, r: int)
    requires 0 <= r < 64
    ensures (q * 64 + r) / 64 == q && (q * 64 + r) % 64 == r
  {
  }

  lemma SixAtATime(c: int)
    ensures c / 4096 == c / 64 / 64 && c / 262144 == c / 64 / 64 / 64
  {
  }

  /** The parts of six bits that a number is put together from. */
  lemma SixBits(a: int, b: int, d: int, e: int)
    requires 0 <= b < 64 && 0 <= d < 64 && 0 <= e < 64
    ensures var c := a * 262144 + b * 4096 + d * 64 + e;
            c / 262144 == a && c / 4096 == a * 64 + b && c / 4096 % 64 == b && c / 64 % 64 == d && c % 64 == e
  {
    var high := a * 64 + b;
    SixMore(high * 64 + d, e);
    SixMore(high, d);
    SixMore(a, b);
    SixAtATime((high * 64 + d) * 64 + e);
  }

  lemma ReadCharIsBytes(t: Text) returns (c: nat)
    requires t != [] && CharLength(t) > 0
    ensures IsScalar(c) && CharBytes(c) == t[..CharLength(t)]
  {
    var a: int := t[0];
    var b: int := if CharLength(t) > 1 then t[1] else 0x80;
    var d: int := if CharLength(t) > 2 then t[2] else 0x80;
    match CharLength(t)
    case 1 => c := a;
    case 2 =>
      SixBits(0, 0, a - 0xC0, b - 0x80);
      c := (a - 0xC0) * 64 + (b - 0x80);
    case 3 =>
      SixBits(0, a - 0xE0, b - 0x80, d - 0x80);
      c := (a - 0xE0) * 4096 + (b - 0x80) * 64 + (d - 0x80);
    case _ =>
      var e: int := t[3];
      SixBits(a - 0xF0, b - 0x80, d - 0x80, e - 0x80);
      c := (a - 0xF0) * 262144 + (b - 0x80) * 4096 + (d - 0x80) * 64 + (e - 0x80);
  }

  lemma {:induction false} EncodedIsUtf8(cs: seq<nat>)
    requires AreScalars(cs)
    ensures IsUtf8(Utf8(cs))
  {
    if cs != [] {
      var rest := Utf8(cs[1..]);
      CharBytesAreRead(cs[0], rest);
      assert (CharBytes(cs[0]) + rest)[|CharBytes(cs[0])|..] == rest;
      EncodedIsUtf8(cs[1..]);
    }
  }

  lemma {:induction false} Utf8IsEncoded(t: Text) returns (cs: seq<nat>)
    requires IsUtf8(t)
    ensures AreScalars(cs) && Utf8(cs) == t
    decreases |t|
  {
    if t == [] {
      cs := [];
    } else {
      var rest := Utf8IsEncoded(t[CharLength(t)..]);
      var c := ReadCharIsBytes(t);
      cs := [c] + rest;
      assert cs[1..] == rest;
    }
  }

  /** The accepted texts are exactly the encodings of sequences of scalar values. */
  lemma IsUtf8Iff(t: Text)
    ensures IsUtf8(t) <==> exists cs :: AreScalars(cs) && Utf8(cs) == t
  {
    if IsUtf8(t) {
      var cs := Utf8IsEncoded(t);
    } else if cs :| AreScalars(cs) && Utf8(cs) == t {
      EncodedIsUtf8(cs);
    }
  }

  /** The bytes of a text in ASCII. */
  function Ascii(s: string): (r: Text)
    requires forall i | 0 <= i < |s| :: s[i] as int < 128
    ensures |r| == |s| && forall i | 0 <= i < |s| :: r[i] == s[i] as int
  {
    if s == [] then [] else [s[0] as int as Byte] + Ascii(s[1..])
  }

  /** Bytewise lexicographic order. */
  predicate Less(a: Text, b: Text) {
    && b != []
    && (a == [] || a[0] < b[0] || (a[0] == b[0] && Less(a[1..], b[1..])))
  }

  /** The texts agree up to `k`, where the first has the smaller byte. */
  predicate SmallerAt(a: Text, b: Text, k: nat) {
    k < |a| && k < |b| && a[..k] == b[..k] && a[k] < b[k]
  }

  lemma {:induction false} LessShows(a: Text, b: Text) returns (k: nat)
    requires Less(a, b)
    ensures a < b || SmallerAt(a, b, k)
  {
    k := 0;
    if a != [] && a[0] == b[0] {
      var j := LessShows(a[1..], b[1..]);
      assert a == [a[0]] + a[1..] && b == [b[0]] + b[1..];
      if SmallerAt(a[1..], b[1..], j) {
        k := j + 1;
        assert a[..k] == [a[0]] + a[1..][..j] && b[..k] == [b[0]] + b[1..][..j];
      }
    }
  }

  lemma {:induction false} SmallerIsLess(a: Text, b: Text, k: nat)
    requires SmallerAt(a, b, k)
    ensures Less(a, b)
  {
    if k > 0 {
      assert a[..k][0] == b[..k][0];
      assert a[1..][..k - 1] == a[..k][1..] && b[1..][..k - 1] == b[..k][1..];
      SmallerIsLess(a[1..], b[1..], k - 1);
    }
  }

  lemma {:induction false} PrefixIsLess(a: Text, b: Text)
    requires a < b
    ensures Less(a, b)
  {
    if a != [] {
      PrefixIsLess(a[1..], b[1..]);
    }
  }

  /** One text is before another exactly when it is a proper prefix of it or has the smaller byte where they
      first differ. */
  lemma LessIff(a: Text, b: Text)
    ensures Less(a, b) <==> a < b || exists k: nat :: SmallerAt(a, b, k)
  {
    if Less(a, b) {
      var k := LessShows(a, b);
    } else if a < b {
      PrefixIsLess(a, b);
    } else if k: nat :| SmallerAt(a, b, k) {
      SmallerIsLess(a, b, k);
    }
  }

  lemma {:induction false} Trichotomy(a: Text, b: Text)
    ensures Less(a, b) || a == b || Less(b, a)
  {
    if a != [] && b != [] && a[0] == b[0] {
      Trichotomy(a[1..], b[1..]);
      if a[1..] == b[1..] {
        assert a == [a[0]] + a[1..] && b == [b[0]] + b[1..];
      }
    }
  }

  lemma {:induction false} Asymmetric(a: Text, b: Text)
    requires Less(a, b)
    ensures !Less(b, a) && a != b
  {
    if a != [] && a[0] == b[0] {
      Asymmetric(a[1..], b[1..]);
    }
  }

  lemma {:induction false} Transitive(a: Text, b: Text, c: Text)
    requires Less(a, b) && Less(b, c)
    ensures Less(a, c)
  {
    if a != [] && a[0] == b[0] == c[0] {
      Transitive(a[1..], b[1..], c[1..]);
    }
  }

  /** A common prefix does not influence the comparison. */
  lemma {:induction false} LessAfterPrefix(p: Text, a: Text, b: Text)
    ensures Less(p + a, p + b) <==> Less(a, b)
  {
    if p == [] {
      assert p + a == a && p + b == b;
    } else {
      assert (p + a)[1..] == p[1..] + a && (p + b)[1..] == p[1..] + b;
      LessAfterPrefix(p[1..], a, b);
    }
  }

  predicate Ascending(ns: seq<Text>) {
    forall i, j | 0 <= i < j < |ns| :: Less(ns[i], ns[j])
  }

  /** Component-wise lexicographic order on paths. */
  predicate PathLess(a: Path, b: Path) {
    && b != []
    && (a == [] || Less(a[0], b[0]) || (a[0] == b[0] && PathLess(a[1..], b[1..])))
  }

  /** Neither path is a prefix of the other, so neither lies below the other. */
  predicate Incomparable(p: Path, q: Path) {
    !(p <= q) && !(q <= p)
  }

  /** A name appended to the textual prefix of its directory, the root's prefix being empty. */
  function JoinName(prefix: Text, name: Text): (r: Text)
    ensures prefix <= r
  {
    if prefix == [] then name else prefix + [SLASH] + name
  }

  /** The textual form of a path. */
  function Join(p: Path): Text {
    if p == [] then [] else JoinName(Join(p[..|p| - 1]), p[|p| - 1])
  }

  lemma {:induction false} JoinPrefix(p: Path, q: Path)
    requires p <= q
    ensures Join(p) <= Join(q)
    decreases |q|
  {
    if p != q {
      var init := q[..|q| - 1];
      assert p <= init;
      JoinPrefix(p, init);
    } else {
      assert Join(p) == Join(q);
    }
  }
}
