/** Two ways of cutting a text into lines, and when they agree.

    `Lines` is the standard library's cut at line feeds; `Tokens` is the cut of the line-diff
    library, which keeps the terminators and also ends a token at a lone carriage return. */
module LineCuts {
  import opened Lex

  const LF: Byte := 10
  const CR: Byte := 13

  /** The length of the first line, terminator included. */
  function LineEnd(t: Text): (n: nat)
    requires t != []
    ensures 0 < n <= |t|
  {
    if t[0] == LF || |t| == 1 then 1 else 1 + LineEnd(t[1..])
  }

  /** Drops a final line feed, and a carriage return before it. */
  function Chomp(t: Text): Text {
    if t == [] || t[|t| - 1] != LF then t
    else if |t| > 1 && t[|t| - 2] == CR then t[..|t| - 2]
    else t[..|t| - 1]
  }

  /** `str::lines` */
  function Lines(t: Text): seq<Text> {
    if t == [] then [] else [Chomp(t[..LineEnd(t)])] + Lines(t[LineEnd(t)..])
  }

  /** The length of the first token, terminator included. */
  function TokenEnd(t: Text): (n: nat)
    requires t != []
    ensures 0 < n <= |t|
  {
    if t[0] == LF || |t| == 1 then 1
    else if t[0] == CR then if t[1] == LF then 2 else 1
    else 1 + TokenEnd(t[1..])
  }

  function Tokens(t: Text): seq<Text> {
    if t == [] then [] else [t[..TokenEnd(t)]] + Tokens(t[TokenEnd(t)..])
  }

  /** Drops a final line feed, then a final carriage return, each on its own account. */
  function StripEol(t: Text): Text {
    var u := if t != [] && t[|t| - 1] == LF then t[..|t| - 1] else t;
    if u != [] && u[|u| - 1] == CR then u[..|u| - 1] else u
  }

  predicate IsEnding(e: Text) {
    e == [] || e == [LF] || e == [CR] || e == [CR, LF]
  }

  predicate EndsWith(t: Text, e: Text) {
    |e| <= |t| && t[|t| - |e|..] == e
  }

  lemma LastOfEnding(t: Text, e: Text)
    requires EndsWith(t, e) && e != []
    ensures t != [] && t[|t| - 1] == e[|e| - 1]
  {
    assert t[|t| - |e|..][|e| - 1] == e[|e| - 1];
  }

  lemma PairEnding(t: Text)
    requires EndsWith(t, [CR, LF])
    ensures |t| >= 2 && t[|t| - 2] == CR && t[|t| - 1] == LF
  {
    assert t[|t| - 2..][0] == CR && t[|t| - 2..][1] == LF;
  }

  lemma EndingIsStripped(t: Text, e: Text)
    requires IsEnding(e) && EndsWith(t, e)
    ensures |StripEol(t)| + |e| <= |t|
  {
    if e == [CR, LF] {
      PairEnding(t);
      assert t[..|t| - 1][|t| - 2] == CR;
    } else if e != [] {
      assert |e| == 1;
      LastOfEnding(t, e);
    }
  }

  lemma StrippedIsEnding(t: Text)
    ensures StripEol(t) <= t && IsEnding(t[|StripEol(t)|..])
  {
    var n := |t|;
    if n >= 2 && t[n - 1] == LF && t[n - 2] == CR {
      assert t[..n - 1][..n - 2] == t[..n - 2] && t[n - 2..] == [CR, LF];
    } else if n >= 1 && (t[n - 1] == LF || t[n - 1] == CR) {
      assert t[n - 1..] == [t[n - 1]];
    }
  }

  /** What is stripped is the longest of the four endings that the text has. */
  lemma StripEolDropsLongestEnding(t: Text)
    ensures StripEol(t) <= t && IsEnding(t[|StripEol(t)|..])
    ensures forall e | IsEnding(e) && EndsWith(t, e) :: |StripEol(t)| + |e| <= |t|
  {
    StrippedIsEnding(t);
    forall e | IsEnding(e) && EndsWith(t, e) ensures |StripEol(t)| + |e| <= |t| {
      EndingIsStripped(t, e);
    }
  }

  method StripEnd(t: Text) returns (u: Text)
    ensures u == StripEol(t)
  {
    u := t;
    if u != [] && u[|u| - 1] == LF {
      u := u[..|u| - 1];
    }
    if u != [] && u[|u| - 1] == CR {
      u := u[..|u| - 1];
    }
  }

  function StripAll(ts: seq<Text>): (r: seq<Text>)
    ensures |r| == |ts| && forall i | 0 <= i < |ts| :: r[i] == StripEol(ts[i])
  {
    seq(|ts|, i requires 0 <= i < |ts| => StripEol(ts[i]))
  }

  /** Every carriage return is followed by a line feed. */
  predicate NoLoneCr(t: Text) {
    forall i | 0 <= i < |t| && t[i] == CR :: i + 1 < |t| && t[i + 1] == LF
  }

  lemma {:induction false} LineEndIsFirst(t: Text)
    requires t != []
    ensures forall i | 0 <= i < LineEnd(t) - 1 :: t[i] != LF
    ensures t[LineEnd(t) - 1] == LF || LineEnd(t) == |t|
  {
    if t[0] != LF && |t| > 1 {
      LineEndIsFirst(t[1..]);
      forall i | 0 < i < LineEnd(t) - 1 ensures t[i] != LF {
        assert t[i] == t[1..][i - 1];
      }
    }
  }

  /** Inside a token there is no terminator. */
  lemma {:induction false} TokenEndIsFirst(t: Text)
    requires t != []
    ensures var n := TokenEnd(t);
            forall i | 0 <= i < n - 1 :: t[i] != LF && (t[i] == CR ==> i == n - 2 && t[n - 1] == LF)
  {
    if t[0] != LF && |t| > 1 && t[0] != CR {
      TokenEndIsFirst(t[1..]);
      forall i | 0 < i < TokenEnd(t) - 1
        ensures t[i] != LF && (t[i] == CR ==> i == TokenEnd(t) - 2 && t[TokenEnd(t) - 1] == LF)
      {
        assert t[i] == t[1..][i - 1];
      }
    }
  }

  lemma {:induction false} TokenEndIsLineEnd(t: Text)
    requires t != [] && NoLoneCr(t)
    ensures TokenEnd(t) == LineEnd(t)
  {
    if t[0] != LF && |t| > 1 {
      if t[0] == CR {
        assert t[1..][0] == LF;
      } else {
        forall i | 0 <= i < |t[1..]| && t[1..][i] == CR ensures i + 1 < |t[1..]| && t[1..][i + 1] == LF {
          assert t[i + 1] == CR;
        }
        TokenEndIsLineEnd(t[1..]);
      }
    }
  }

  lemma ChompIsStrip(t: Text)
    requires t != [] && NoLoneCr(t)
    ensures Chomp(t[..LineEnd(t)]) == StripEol(t[..LineEnd(t)])
  {
    LineEndIsFirst(t);
    var line := t[..LineEnd(t)];
    assert line[|line| - 1] != CR;
  }

  lemma NoLoneCrAfter(t: Text, n: nat)
    requires n <= |t| && NoLoneCr(t)
    ensures NoLoneCr(t[n..])
  {
    forall i | 0 <= i < |t[n..]| && t[n..][i] == CR ensures i + 1 < |t[n..]| && t[n..][i + 1] == LF {
      assert t[n + i] == CR;
    }
  }

  lemma {:induction false} CleanTokensAreLines(t: Text)
    requires NoLoneCr(t)
    ensures Lines(t) == StripAll(Tokens(t))
    decreases |t|
  {
    if t != [] {
      var n := LineEnd(t);
      TokenEndIsLineEnd(t);
      ChompIsStrip(t);
      NoLoneCrAfter(t, n);
      CleanTokensAreLines(t[n..]);
      StripAllCons(t[..n], Tokens(t[n..]));
    }
  }

  lemma StripAllCons(x: Text, ts: seq<Text>)
    ensures StripAll([x] + ts) == [StripEol(x)] + StripAll(ts)
  {
  }

  /** A stripped token holds no carriage return. */
  lemma {:induction false} StrippedTokensAreClean(t: Text, k: nat)
    requires k < |Tokens(t)|
    ensures CR !in StripEol(Tokens(t)[k])
    decreases |t|
  {
    if k == 0 {
      TokenEndIsFirst(t);
    } else {
      StrippedTokensAreClean(t[TokenEnd(t)..], k - 1);
    }
  }

  /** A line keeps each of its lone carriage returns. */
  lemma {:induction false} LoneCrStaysInLine(t: Text, i: nat) returns (k: nat)
    requires i < |t| && t[i] == CR && !(i + 1 < |t| && t[i + 1] == LF)
    ensures k < |Lines(t)| && CR in Lines(t)[k]
    decreases |t|
  {
    var n := LineEnd(t);
    if i < n {
      k := 0;
      var line := t[..n];
      assert line[i] == CR;
      assert i < |Chomp(line)| && Chomp(line)[i] == CR;
    } else {
      assert t[n..][i - n] == CR;
      var j := LoneCrStaysInLine(t[n..], i - n);
      k := j + 1;
    }
  }

  /** Exactly when the two cuts give the same lines. */
  lemma LinesAgreeIff(t: Text)
    ensures Lines(t) == StripAll(Tokens(t)) <==> NoLoneCr(t)
  {
    if NoLoneCr(t) {
      CleanTokensAreLines(t);
    } else {
      var i :| 0 <= i < |t| && t[i] == CR && !(i + 1 < |t| && t[i + 1] == LF);
      var k := LoneCrStaysInLine(t, i);
      if Lines(t) == StripAll(Tokens(t)) {
        StrippedTokensAreClean(t, k);
      }
    }
  }

  // --- what the cuts are ----------------------------------------------------------------------

  /** A line as it stands in a text: without a line feed, and ended by one, which a carriage return may
      precede. */
  datatype Piece = Piece(line: Text, crlf: bool) {
    function Bytes(): Text {
      line + if crlf then [CR, LF] else [LF]
    }

    /** A carriage return that belongs to the terminator is not part of the line. */
    predicate Proper() {
      LF !in line && (!crlf ==> line == [] || line[|line| - 1] != CR)
    }
  }

  function Laid(ps: seq<Piece>): Text {
    if ps == [] then [] else ps[0].Bytes() + Laid(ps[1..])
  }

  function LinesOf(ps: seq<Piece>): (r: seq<Text>)
    ensures |r| == |ps| && forall i | 0 <= i < |ps| :: r[i] == ps[i].line
  {
    seq(|ps|, i requires 0 <= i < |ps| => ps[i].line)
  }

  lemma {:induction false} LineEndAtFeed(line: Text, rest: Text)
    requires LF !in line
    ensures LineEnd(line + [LF] + rest) == |line| + 1
  {
    var t := line + [LF] + rest;
    if line == [] {
      assert t[0] == LF;
    } else {
      assert t[0] == line[0] && t[1..] == line[1..] + [LF] + rest;
      LineEndAtFeed(line[1..], rest);
    }
  }

  lemma {:induction false} LineEndAtLast(line: Text)
    requires LF !in line && line != []
    ensures LineEnd(line) == |line|
  {
    if |line| > 1 {
      LineEndAtLast(line[1..]);
    }
  }

  lemma FirstPieceIsLine(p: Piece, rest: Text)
    requires p.Proper()
    ensures p.Bytes() + rest != [] && LineEnd(p.Bytes() + rest) == |p.Bytes()|
    ensures (p.Bytes() + rest)[..|p.Bytes()|] == p.Bytes() && (p.Bytes() + rest)[|p.Bytes()|..] == rest
    ensures Chomp(p.Bytes()) == p.line
  {
    var body := p.line + if p.crlf then [CR] else [];
    assert p.Bytes() + rest == body + [LF] + rest;
    LineEndAtFeed(body, rest);
  }

  lemma LinesFromPiece(p: Piece, rest: Text)
    requires p.Proper()
    ensures Lines(p.Bytes() + rest) == [p.line] + Lines(rest)
  {
    FirstPieceIsLine(p, rest);
  }

  lemma LaidStep(ps: seq<Piece>, last: Text)
    requires ps != []
    ensures Laid(ps) + last == ps[0].Bytes() + (Laid(ps[1..]) + last)
  {
    Associative(ps[0].Bytes(), Laid(ps[1..]), last);
  }

  lemma LinesOfStep(ps: seq<Piece>)
    requires ps != []
    ensures LinesOf(ps) == [ps[0].line] + LinesOf(ps[1..])
  {
    var ls := [ps[0].line] + LinesOf(ps[1..]);
    forall i | 0 <= i < |ps| ensures LinesOf(ps)[i] == ls[i] {
    }
  }

  lemma Associative(a: Text, b: Text, c: Text)
    ensures (a + b) + c == a + (b + c)
  {
  }

  /** Laying out lines with either terminator, and a last one without, cuts back to just these lines. Every
      text is laid out like that, so this says what the cut is. */
  lemma {:induction false} LinesAreLaid(ps: seq<Piece>, last: Text)
    requires (forall p | p in ps :: p.Proper()) && LF !in last
    ensures Lines(Laid(ps) + last) == LinesOf(ps) + if last == [] then [] else [last]
    decreases |ps|
  {
    if ps == [] {
      assert Laid(ps) + last == last;
      if last != [] {
        LineEndAtLast(last);
        assert last[..|last|] == last && last[|last|..] == [];
      }
    } else {
      assert ps[0] in ps;
      LaidStep(ps, last);
      LinesOfStep(ps);
      LinesFromPiece(ps[0], Laid(ps[1..]) + last);
      LinesAreLaid(ps[1..], last);
    }
  }

  lemma {:induction false} FeedIsReached(t: Text)
    requires LF in t
    ensures t[LineEnd(t) - 1] == LF
  {
    if t[0] != LF {
      assert LF in t[1..];
      FeedIsReached(t[1..]);
    }
  }

  lemma {:induction false} EveryTextIsLaid(t: Text) returns (ps: seq<Piece>, last: Text)
    ensures (forall p | p in ps :: p.Proper()) && LF !in last && t == Laid(ps) + last
    decreases |t|
  {
    if LF !in t {
      ps, last := [], t;
    } else {
      var n := LineEnd(t);
      LineEndIsFirst(t);
      FeedIsReached(t);
      var crlf := n > 1 && t[n - 2] == CR;
      var p := Piece(t[..n - if crlf then 2 else 1], crlf);
      assert p.Proper() && t[..n] == p.Bytes();
      var rest;
      rest, last := EveryTextIsLaid(t[n..]);
      ps := [p] + rest;
      assert ps[1..] == rest && t == t[..n] + t[n..];
    }
  }

  /** A token that ends where a line may end, with its terminator. */
  predicate IsToken(t: Text) {
    && t != []
    && forall i | 0 <= i < |t| - 1 :: t[i] != LF && (t[i] == CR ==> i == |t| - 2 && t[|t| - 1] == LF)
  }

  predicate IsEnded(t: Text) {
    t != [] && (t[|t| - 1] == LF || t[|t| - 1] == CR)
  }

  function Joined(ts: seq<Text>): Text {
    if ts == [] then [] else ts[0] + Joined(ts[1..])
  }

  /** The text cut after every terminator, the pair of carriage return and line feed being one. */
  predicate IsCut(t: Text, ts: seq<Text>) {
    && Joined(ts) == t
    && (forall i | 0 <= i < |ts| :: IsToken(ts[i]))
    && (forall i | 0 <= i < |ts| - 1 :: Follows(ts[i], ts[i + 1]))
  }

  lemma {:induction false} TokenEndOfToken(x: Text, rest: Text)
    requires IsToken(x) && (rest == [] || (IsEnded(x) && !(x[|x| - 1] == CR && rest[0] == LF)))
    ensures TokenEnd(x + rest) == |x|
    decreases |x|
  {
    var t := x + rest;
    assert t[0] == x[0];
    if |x| == 1 {
      assert rest != [] ==> t[1] == rest[0];
    } else if x[0] == CR {
      assert t[1] == x[1];
    } else {
      assert t[1..] == x[1..] + rest;
      var y := x[1..];
      assert y[|y| - 1] == x[|x| - 1];
      forall i | 0 <= i < |y| - 1 ensures y[i] != LF && (y[i] == CR ==> i == |y| - 2 && y[|y| - 1] == LF) {
        assert y[i] == x[i + 1];
      }
      TokenEndOfToken(y, rest);
    }
  }

  /** Two tokens may follow each other: the first is ended, and not inside a pair. */
  predicate Follows(x: Text, y: Text) {
    IsEnded(x) && !(x[|x| - 1] == CR && y != [] && y[0] == LF)
  }

  lemma CutWithout(t: Text, ts: seq<Text>)
    requires ts != [] && IsCut(t, ts)
    ensures IsCut(Joined(ts[1..]), ts[1..])
  {
    var rest := ts[1..];
    forall i | 0 <= i < |rest| ensures IsToken(rest[i]) {
      assert rest[i] == ts[i + 1];
    }
    forall i | 0 <= i < |rest| - 1 ensures Follows(rest[i], rest[i + 1]) {
      assert rest[i] == ts[i + 1] && rest[i + 1] == ts[i + 2];
      assert Follows(ts[i + 1], ts[i + 2]);
    }
  }

  lemma CutWith(x: Text, r: Text, rest: seq<Text>)
    requires IsToken(x) && IsCut(r, rest) && (rest != [] ==> Follows(x, rest[0]))
    ensures IsCut(x + r, [x] + rest)
  {
    var ts := [x] + rest;
    assert ts[1..] == rest;
    forall i | 0 <= i < |ts| ensures IsToken(ts[i]) {
      if i > 0 {
        assert ts[i] == rest[i - 1];
      }
    }
    forall i | 0 <= i < |ts| - 1 ensures Follows(ts[i], ts[i + 1]) {
      assert ts[i + 1] == rest[i];
      if i > 0 {
        assert Follows(rest[i - 1], rest[i]);
      }
    }
  }

  lemma JoinedStartsWithFirst(ts: seq<Text>)
    requires ts != [] && ts[0] != []
    ensures Joined(ts) != [] && Joined(ts)[0] == ts[0][0]
  {
  }

  lemma {:induction false} CutIsTokens(t: Text, ts: seq<Text>)
    requires IsCut(t, ts)
    ensures ts == Tokens(t)
    decreases |ts|
  {
    if ts != [] {
      var rest := Joined(ts[1..]);
      CutWithout(t, ts);
      if |ts| > 1 {
        assert IsToken(ts[1]) && Follows(ts[0], ts[1]);
        JoinedStartsWithFirst(ts[1..]);
      }
      TokenEndOfToken(ts[0], rest);
      assert t[..|ts[0]|] == ts[0] && t[|ts[0]|..] == rest;
      CutIsTokens(rest, ts[1..]);
    }
  }

  lemma {:induction false} TokenIsToken(t: Text)
    requires t != []
    ensures var x := t[..TokenEnd(t)];
            IsToken(x) && (TokenEnd(t) < |t| ==> IsEnded(x) && !(x[|x| - 1] == CR && t[TokenEnd(t)] == LF))
  {
    TokenEndIsFirst(t);
    if t[0] != LF && |t| > 1 && t[0] != CR {
      TokenIsToken(t[1..]);
      var n := TokenEnd(t);
      assert t[..n][n - 1] == t[1..][..n - 1][n - 2];
    }
  }

  lemma {:induction false} TokensAreCut(t: Text)
    ensures IsCut(t, Tokens(t))
    decreases |t|
  {
    if t != [] {
      var n := TokenEnd(t);
      TokenIsToken(t);
      TokensAreCut(t[n..]);
      if n < |t| {
        assert Tokens(t[n..])[0] == t[n..][..TokenEnd(t[n..])];
      }
      CutWith(t[..n], t[n..], Tokens(t[n..]));
      assert t == t[..n] + t[n..];
    }
  }

  /** The tokens are the one cut of that kind. */
  lemma TokensAreTheCut(t: Text, ts: seq<Text>)
    ensures IsCut(t, ts) <==> ts == Tokens(t)
  {
    TokensAreCut(t);
    if IsCut(t, ts) {
      CutIsTokens(t, ts);
    }
  }

  /** A zero byte near the start marks a file as binary. */
  predicate IsBinary(t: Text) {
    NUL in t[..if |t| < 8192 then |t| else 8192]
  }

  /** The window is the first eight kibibytes: a zero byte in it counts wherever it is, and one after it
      does not. */
  lemma BinaryIff(t: Text)
    ensures IsBinary(t) <==> exists i: nat :: i < |t| && i < 8 * 1024 && t[i] == 0
  {
    var w := t[..if |t| < 8192 then |t| else 8192];
    if IsBinary(t) {
      var i: nat :| i < |w| && w[i] == NUL;
      assert t[i] == 0;
    }
    if i: nat :| i < |t| && i < 8 * 1024 && t[i] == 0 {
      assert w[i] == NUL;
    }
  }
}
