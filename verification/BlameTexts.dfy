/** When the texts of an attribution are the file's lines, and when its credits are right, whatever edit
    scripts the line-diff library chooses. */
module BlameTexts {
  import opened Wrappers
  import opened Lex
  import opened Objects
  import Trees
  import opened LineCuts
  import opened Attribution = Blame

  /** The version with which the text file began: following first parents from it finds no text file. */
  function FirstVersion(s: Store, h: Hash, p: Path): (o: Hash)
    requires p != [] && HasText(s, h, p)
    ensures HasText(s, o, p) && !Inherits(s, o, p)
    decreases h
  {
    if Inherits(s, h, p) then FirstVersion(s, Parent(h), p) else h
  }

  /** Every version from the first one up to `h` has the token. */
  ghost predicate InAllVersions(s: Store, h: Hash, p: Path, token: Text)
    requires p != [] && HasText(s, h, p)
    decreases h
  {
    && token in Tokens(TextAt(s, h, p))
    && (Inherits(s, h, p) ==> InAllVersions(s, Parent(h), p, token))
  }

  /** Line `k` of the text differs from the stripped token at the same place. */
  predicate Misaligned(t: Text, k: nat) {
    k < |Lines(t)| && k < |Tokens(t)| && Lines(t)[k] != StripEol(Tokens(t)[k])
  }

  /** The condition under which no edit script can lead to a wrong text: the target has no lone carriage
      return, and no misaligned token of the first version lasts in every version up to the target. The
      target as a first version needs no condition. */
  ghost predicate TextsSafe(s: Store, h: Hash, p: Path)
    requires p != [] && HasText(s, h, p)
  {
    Inherits(s, h, p) ==>
      && NoLoneCr(TextAt(s, h, p))
      && var first := TextAt(s, FirstVersion(s, h, p), p);
         forall k: nat | Misaligned(first, k) :: !InAllVersions(s, h, p, Tokens(first)[k])
  }

  // --- every text comes from a token or from the first version --------------------------------

  lemma {:induction false} TokenEndWithinLine(t: Text)
    requires t != []
    ensures TokenEnd(t) <= LineEnd(t)
  {
    if t[0] != LF && |t| > 1 && t[0] != CR {
      TokenEndWithinLine(t[1..]);
    }
  }

  lemma {:induction false} LineEndAfterToken(t: Text, n: nat)
    requires t != [] && n < LineEnd(t)
    ensures LineEnd(t[n..]) == LineEnd(t) - n
  {
    if n > 0 {
      LineEndAfterToken(t[1..], n - 1);
      assert t[1..][n - 1..] == t[n..];
    } else {
      assert t[0..] == t;
    }
  }

  /** There are at least as many tokens as lines. */
  lemma {:induction false} LinesAreFewer(t: Text)
    ensures |Lines(t)| <= |Tokens(t)|
    decreases |t|
  {
    if t != [] {
      var n, m := TokenEnd(t), LineEnd(t);
      TokenEndWithinLine(t);
      LinesAreFewer(t[n..]);
      if n < m {
        LineEndAfterToken(t, n);
        assert t[n..][m - n..] == t[m..];
      }
    }
  }

  /** The text of a line is that of its token, or that of a line of the first version whose token lasted
      through every version since. */
  ghost predicate Sourced(s: Store, h: Hash, p: Path, token: Text, line: Text)
    requires p != [] && HasText(s, h, p)
  {
    line == StripEol(token)
    || (InAllVersions(s, h, p, token)
        && var first := TextAt(s, FirstVersion(s, h, p), p);
           exists k: nat | k < |Lines(first)| && k < |Tokens(first)| :: Tokens(first)[k] == token && Lines(first)[k] == line)
  }

  lemma {:induction false} TextsAreSourced(s: Store, h: Hash, p: Path, d: Differ)
    requires p != [] && Blame(s, h, p, d).Success?
    ensures HasText(s, h, p)
    ensures var r, tokens := Blame(s, h, p, d).value, Tokens(TextAt(s, h, p));
            && |r| <= |tokens| && (Inherits(s, h, p) ==> |r| == |tokens|)
            && forall i | 0 <= i < |r| :: Sourced(s, h, p, tokens[i], r[i].line)
    decreases h
  {
    BlameUnfolds(s, h, p, d);
    var t := TextAt(s, h, p);
    var b := Tokens(t);
    if Inherits(s, h, p) {
      TextsAreSourced(s, Parent(h), p, d);
      var a, es, attrs := Tokens(TextAt(s, Parent(h), p)), Script(s, h, p, d), Blame(s, Parent(h), p, d).value;
      AttributeIsAttributed(a, b, es, attrs, h, h.obj.snap);
      forall i | 0 <= i < |b| ensures Sourced(s, h, p, b[i], Attributed(b, es, i, attrs, h, h.obj.snap).line) {
        if Carrier(es, i).Some? {
          CarrierInRange(a, b, es, 0, 0, i);
          SourcedBelow(s, h, p, b[i], attrs, Carrier(es, i).value);
        }
      }
    } else {
      LinesAreFewer(t);
    }
  }

  lemma SourcedBelow(s: Store, h: Hash, p: Path, token: Text, attrs: seq<BlameLine>, o: nat)
    requires p != [] && HasText(s, h, p) && Inherits(s, h, p) && token in Tokens(TextAt(s, h, p))
    requires o < |attrs| ==> Sourced(s, Parent(h), p, token, attrs[o].line)
    ensures o < |attrs| ==> Sourced(s, h, p, token, attrs[o].line)
  {
  }

  /** Under the condition the texts are right, whatever the differ. */
  lemma SafeTextsAreLines(s: Store, h: Hash, p: Path, d: Differ)
    requires p != [] && Blame(s, h, p, d).Success? && HasText(s, h, p) && TextsSafe(s, h, p)
    ensures Texts(Blame(s, h, p, d).value) == Lines(TextAt(s, h, p))
  {
    BlameUnfolds(s, h, p, d);
    var t, r := TextAt(s, h, p), Blame(s, h, p, d).value;
    if Inherits(s, h, p) {
      TextsAreSourced(s, h, p, d);
      LinesAgreeIff(t);
      forall i | 0 <= i < |r| ensures r[i].line == Lines(t)[i] {
        SafeSourceIsStripped(s, h, p, Tokens(t)[i], r[i].line);
      }
    }
  }

  lemma SafeSourceIsStripped(s: Store, h: Hash, p: Path, token: Text, line: Text)
    requires p != [] && HasText(s, h, p) && Inherits(s, h, p) && TextsSafe(s, h, p) && Sourced(s, h, p, token, line)
    ensures line == StripEol(token)
  {
    var first := TextAt(s, FirstVersion(s, h, p), p);
    assert forall k: nat | k < |Lines(first)| && k < |Tokens(first)| && Lines(first)[k] != StripEol(Tokens(first)[k]) ::
        Misaligned(first, k);
  }

  // --- a differ that carries one token --------------------------------------------------------

  /** The occurrence of the token that is carried: position `k` in the token list `base`, and the first
      one in every other list. */
  function Occurrence(base: seq<Text>, k: nat, token: Text, ts: seq<Text>): (i: nat)
    requires token in ts && k < |base| && base[k] == token
    ensures i < |ts| && ts[i] == token
  {
    if ts == base then k else FirstIndex(token, ts)
  }

  function FirstIndex(token: Text, ts: seq<Text>): (i: nat)
    requires token in ts
    ensures i < |ts| && ts[i] == token
  {
    if ts[0] == token then 0 else 1 + FirstIndex(token, ts[1..])
  }

  /** Deletes up to `i`, inserts up to `j`, keeps that one token, and rewrites the rest. */
  function KeepOne(a: seq<Text>, b: seq<Text>, i: nat, j: nat, x: nat, y: nat): (es: seq<Edit>)
    requires x <= i < |a| && y <= j < |b| && a[i] == b[j]
    ensures IsScript(a, b, es, x, y) && Carrier(es, j) == Some(i)
    decreases i - x + j - y
  {
    if x < i then [Delete(x)] + KeepOne(a, b, i, j, x + 1, y)
    else if y < j then [Insert(y)] + KeepOne(a, b, i, j, x, y + 1)
    else [Equal(i, j)] + DeleteThenInsert(a, b, i + 1, j + 1)
  }

  /** Keeps the chosen occurrence of the token where both sides have it, and nothing else. */
  function Keeping(base: seq<Text>, k: nat, a: seq<Text>, b: seq<Text>): (es: seq<Edit>)
    ensures IsScript(a, b, es, 0, 0)
    ensures k < |base| && base[k] in a && base[k] in b ==>
              Carrier(es, Occurrence(base, k, base[k], b)) == Some(Occurrence(base, k, base[k], a))
  {
    if k < |base| && base[k] in a && base[k] in b then
      KeepOne(a, b, Occurrence(base, k, base[k], a), Occurrence(base, k, base[k], b), 0, 0)
    else Rewrite(a, b)
  }

  /** With that differ a token that lasts through all versions brings the line of the first version. */
  lemma {:induction false} KeptLineArrives(s: Store, h: Hash, p: Path, d: Differ, base: seq<Text>, k: nat)
    requires p != [] && Blame(s, h, p, d).Success? && HasText(s, h, p)
    requires forall a, b :: d(a, b) == Keeping(base, k, a, b)
    requires base == Tokens(TextAt(s, FirstVersion(s, h, p), p)) && k < |base|
    requires k < |Lines(TextAt(s, FirstVersion(s, h, p), p))| && InAllVersions(s, h, p, base[k])
    ensures var r, i := Blame(s, h, p, d).value, Occurrence(base, k, base[k], Tokens(TextAt(s, h, p)));
            i < |r| && r[i].line == Lines(TextAt(s, FirstVersion(s, h, p), p))[k]
    decreases h
  {
    BlameUnfolds(s, h, p, d);
    if Inherits(s, h, p) {
      KeptLineArrives(s, Parent(h), p, d, base, k);
      AttributeIsAttributed(Tokens(TextAt(s, Parent(h), p)), Tokens(TextAt(s, h, p)), Script(s, h, p, d),
                            Blame(s, Parent(h), p, d).value, h, h.obj.snap);
    }
  }

  /** Whether blame succeeds does not depend on the differ. */
  lemma {:induction false} SuccessIgnoresDiffer(s: Store, h: Hash, p: Path, d: Differ, e: Differ)
    requires p != [] && Blame(s, h, p, d).Success?
    ensures Blame(s, h, p, e).Success?
    decreases h
  {
    BlameUnfolds(s, h, p, d);
    if Inherits(s, h, p) {
      SuccessIgnoresDiffer(s, Parent(h), p, d, e);
    }
  }

  /** A misaligned token that lasts gives a wrong text. */
  lemma LastingTokenBreaksTexts(s: Store, h: Hash, p: Path, k: nat) returns (d: Differ)
    requires p != [] && Blame(s, h, p, Rewrite).Success? && HasText(s, h, p) && NoLoneCr(TextAt(s, h, p))
    requires Misaligned(TextAt(s, FirstVersion(s, h, p), p), k)
    requires InAllVersions(s, h, p, Tokens(TextAt(s, FirstVersion(s, h, p), p))[k])
    ensures Blame(s, h, p, d).Success? && Texts(Blame(s, h, p, d).value) != Lines(TextAt(s, h, p))
  {
    var base := Tokens(TextAt(s, FirstVersion(s, h, p), p));
    d := (a, b) => Keeping(base, k, a, b);
    SuccessIgnoresDiffer(s, h, p, Rewrite, d);
    KeptLineArrives(s, h, p, d, base, k);
    LinesAgreeIff(TextAt(s, h, p));
    var i := Occurrence(base, k, base[k], Tokens(TextAt(s, h, p)));
    assert Texts(Blame(s, h, p, d).value)[i] == Lines(TextAt(s, FirstVersion(s, h, p), p))[k];
  }

  lemma {:induction false} NothingCarried(a: seq<Text>, b: seq<Text>, i: nat, j: nat, k: nat)
    requires i <= |a| && j <= |b|
    ensures Carrier(DeleteThenInsert(a, b, i, j), k).None?
    decreases |a| - i + |b| - j
  {
    if i < |a| {
      NothingCarried(a, b, i + 1, j, k);
    } else if j < |b| {
      NothingCarried(a, b, i, j + 1, k);
    }
  }

  /** A differ that keeps nothing gives the stripped tokens. */
  lemma RewriteGivesTokens(s: Store, h: Hash, p: Path)
    requires p != [] && Blame(s, h, p, Rewrite).Success? && Inherits(s, h, p)
    ensures HasText(s, h, p) && Texts(Blame(s, h, p, Rewrite).value) == StripAll(Tokens(TextAt(s, h, p)))
  {
    BlameUnfolds(s, h, p, Rewrite);
    var a, b := Tokens(TextAt(s, Parent(h), p)), Tokens(TextAt(s, h, p));
    RewriteStrips(a, b, Blame(s, Parent(h), p, Rewrite).value, h, h.obj.snap);
  }

  lemma RewriteStrips(a: seq<Text>, b: seq<Text>, attrs: seq<BlameLine>, h: Hash, snap: Snapshot)
    ensures Texts(Attribute(a, b, Rewrite(a, b), 0, 0, attrs, h, snap)) == StripAll(b)
  {
    AttributeIsAttributed(a, b, Rewrite(a, b), attrs, h, snap);
    forall k | 0 <= k < |b| ensures Attributed(b, Rewrite(a, b), k, attrs, h, snap).line == StripEol(b[k]) {
      NothingCarried(a, b, 0, 0, k);
    }
  }

  // --- the exact condition --------------------------------------------------------------------

  lemma UnsafeTextsBreak(s: Store, h: Hash, p: Path) returns (d: Differ)
    requires p != [] && Blame(s, h, p, Rewrite).Success? && HasText(s, h, p) && !TextsSafe(s, h, p)
    ensures Blame(s, h, p, d).Success? && Texts(Blame(s, h, p, d).value) != Lines(TextAt(s, h, p))
  {
    if !NoLoneCr(TextAt(s, h, p)) {
      RewriteGivesTokens(s, h, p);
      LinesAgreeIff(TextAt(s, h, p));
      d := Rewrite;
    } else {
      var first := TextAt(s, FirstVersion(s, h, p), p);
      var k: nat :| Misaligned(first, k) && InAllVersions(s, h, p, Tokens(first)[k]);
      d := LastingTokenBreaksTexts(s, h, p, k);
    }
  }

  /** Exactly when blame returns the file's lines whatever edit scripts the library chooses. */
  lemma TextsAreLinesIff(s: Store, h: Hash, p: Path)
    requires p != [] && Blame(s, h, p, Rewrite).Success?
    ensures HasText(s, h, p)
    ensures TextsSafe(s, h, p)
            <==> forall d: Differ :: Blame(s, h, p, d).Success? && Texts(Blame(s, h, p, d).value) == Lines(TextAt(s, h, p))
  {
    BlameUnfolds(s, h, p, Rewrite);
    if TextsSafe(s, h, p) {
      forall d: Differ
        ensures Blame(s, h, p, d).Success? && Texts(Blame(s, h, p, d).value) == Lines(TextAt(s, h, p))
      {
        SuccessIgnoresDiffer(s, h, p, Rewrite, d);
        SafeTextsAreLines(s, h, p, d);
      }
    } else {
      var d := UnsafeTextsBreak(s, h, p);
    }
  }

  // --- credits --------------------------------------------------------------------------------

  /** The line names a snapshot, carries its metadata, and the snapshot is the one at which line `i`
      entered the chain. */
  ghost predicate Credited(s: Store, h: Hash, p: Path, d: Differ, i: nat, b: BlameLine)
    requires p != [] && HasText(s, h, p)
  {
    Credits(b, b.line, b.snap) && CameFrom(s, h, p, d, i, b.snap)
  }

  ghost predicate AllCredited(s: Store, h: Hash, p: Path, d: Differ)
    requires p != [] && HasText(s, h, p) && Blame(s, h, p, d).Success?
  {
    forall i | 0 <= i < |Blame(s, h, p, d).value| :: Credited(s, h, p, d, i, Blame(s, h, p, d).value[i])
  }

  /** The token stands in the first version at a place that has no line, and lasts in every version. */
  ghost predicate Unlined(s: Store, h: Hash, p: Path, token: Text)
    requires p != [] && HasText(s, h, p)
  {
    var first := TextAt(s, FirstVersion(s, h, p), p);
    InAllVersions(s, h, p, token) && exists k: nat | |Lines(first)| <= k < |Tokens(first)| :: Tokens(first)[k] == token
  }

  /** The condition under which no edit script can lead to a wrong credit: every token of the first version
      beyond the number of its lines is missing from some version up to the target. */
  ghost predicate CreditsSafe(s: Store, h: Hash, p: Path)
    requires p != [] && HasText(s, h, p)
  {
    Inherits(s, h, p) ==>
      var first := TextAt(s, FirstVersion(s, h, p), p);
      forall k: nat | |Lines(first)| <= k < |Tokens(first)| :: !InAllVersions(s, h, p, Tokens(first)[k])
  }

  /** Every credit is right but for tokens that last from a place without a line. */
  ghost predicate CreditedOrUnlined(s: Store, h: Hash, p: Path, d: Differ, i: nat, b: BlameLine)
    requires p != [] && HasText(s, h, p) && i < |Tokens(TextAt(s, h, p))|
  {
    && Credits(b, b.line, b.snap)
    && (CameFrom(s, h, p, d, i, b.snap) || (Inherits(s, h, p) && Unlined(s, h, p, Tokens(TextAt(s, h, p))[i])))
  }

  lemma {:induction false} CreditsAreRightOrUnlined(s: Store, h: Hash, p: Path, d: Differ)
    requires p != [] && Blame(s, h, p, d).Success?
    ensures HasText(s, h, p)
    ensures var r, tokens := Blame(s, h, p, d).value, Tokens(TextAt(s, h, p));
            && |r| == (if Inherits(s, h, p) then |tokens| else |Lines(TextAt(s, h, p))|) && |r| <= |tokens|
            && forall i | 0 <= i < |r| :: CreditedOrUnlined(s, h, p, d, i, r[i])
    decreases h
  {
    BlameUnfolds(s, h, p, d);
    var t := TextAt(s, h, p);
    if Inherits(s, h, p) {
      CreditsAreRightOrUnlined(s, Parent(h), p, d);
      var a, b, es, attrs := Tokens(TextAt(s, Parent(h), p)), Tokens(t), Script(s, h, p, d), Blame(s, Parent(h), p, d).value;
      AttributeIsAttributed(a, b, es, attrs, h, h.obj.snap);
      forall i | 0 <= i < |b| ensures CreditedOrUnlined(s, h, p, d, i, Attributed(b, es, i, attrs, h, h.obj.snap)) {
        if Carrier(es, i).Some? {
          CarrierInRange(a, b, es, 0, 0, i);
          CarriedCredit(s, h, p, d, attrs, i, Carrier(es, i).value);
        }
      }
    } else {
      LinesAreFewer(t);
    }
  }

  lemma CarriedCredit(s: Store, h: Hash, p: Path, d: Differ, attrs: seq<BlameLine>, i: nat, o: nat)
    requires p != [] && HasText(s, h, p) && IsSnap(h) && Inherits(s, h, p)
    requires i < |Tokens(TextAt(s, h, p))| && o < |Tokens(TextAt(s, Parent(h), p))|
    requires Carrier(Script(s, h, p, d), i) == Some(o)
    requires Tokens(TextAt(s, Parent(h), p))[o] == Tokens(TextAt(s, h, p))[i]
    requires o < |attrs| ==> CreditedOrUnlined(s, Parent(h), p, d, o, attrs[o])
    requires o >= |attrs| ==> !Inherits(s, Parent(h), p) && |attrs| == |Lines(TextAt(s, Parent(h), p))|
    ensures CreditedOrUnlined(s, h, p, d, i, Inherit(o, Tokens(TextAt(s, h, p))[i], attrs, h, h.obj.snap))
  {
    var token := Tokens(TextAt(s, h, p))[i];
    if o >= |attrs| {
      var first := TextAt(s, FirstVersion(s, h, p), p);
      assert FirstVersion(s, h, p) == FirstVersion(s, Parent(h), p) == Parent(h);
      assert Tokens(first)[o] == token;
      assert InAllVersions(s, h, p, token);
    } else if CameFrom(s, Parent(h), p, d, o, attrs[o].snap) {
      assert CameFrom(s, h, p, d, i, attrs[o].snap);
    } else {
      assert Unlined(s, Parent(h), p, token);
      assert Unlined(s, h, p, token);
    }
  }

  lemma SafeCredits(s: Store, h: Hash, p: Path, d: Differ)
    requires p != [] && Blame(s, h, p, d).Success? && HasText(s, h, p) && CreditsSafe(s, h, p)
    ensures AllCredited(s, h, p, d)
  {
    CreditsAreRightOrUnlined(s, h, p, d);
    forall i | 0 <= i < |Blame(s, h, p, d).value| ensures Credited(s, h, p, d, i, Blame(s, h, p, d).value[i]) {
      assert CreditedOrUnlined(s, h, p, d, i, Blame(s, h, p, d).value[i]);
    }
  }

  /** With the differ that keeps it, a lasting token from a place without a line is credited to a later
      snapshot than the first version, from which it came. */
  lemma {:induction false} KeptCreditIsLate(s: Store, h: Hash, p: Path, d: Differ, base: seq<Text>, k: nat)
    requires p != [] && Blame(s, h, p, d).Success? && HasText(s, h, p) && Inherits(s, h, p)
    requires forall a, b :: d(a, b) == Keeping(base, k, a, b)
    requires base == Tokens(TextAt(s, FirstVersion(s, h, p), p)) && k < |base|
    requires |Lines(TextAt(s, FirstVersion(s, h, p), p))| <= k && InAllVersions(s, h, p, base[k])
    ensures var r, i := Blame(s, h, p, d).value, Occurrence(base, k, base[k], Tokens(TextAt(s, h, p)));
            i < |r| && r[i].snap != FirstVersion(s, h, p) && CameFrom(s, h, p, d, i, FirstVersion(s, h, p))
    decreases h
  {
    BlameUnfolds(s, h, p, d);
    var a, b := Tokens(TextAt(s, Parent(h), p)), Tokens(TextAt(s, h, p));
    AttributeIsAttributed(a, b, Script(s, h, p, d), Blame(s, Parent(h), p, d).value, h, h.obj.snap);
    if Inherits(s, Parent(h), p) {
      KeptCreditIsLate(s, Parent(h), p, d, base, k);
    } else {
      BlameUnfolds(s, Parent(h), p, d);
      assert Parent(h) < h;
    }
  }

  lemma {:induction false} OriginIsUnique(s: Store, h: Hash, p: Path, d: Differ, i: nat, o: Hash, o': Hash)
    requires p != [] && HasText(s, h, p) && CameFrom(s, h, p, d, i, o) && CameFrom(s, h, p, d, i, o')
    ensures o == o'
    decreases h
  {
    if Inherits(s, h, p) && Carrier(Script(s, h, p, d), i).Some? {
      OriginIsUnique(s, Parent(h), p, d, Carrier(Script(s, h, p, d), i).value, o, o');
    }
  }

  lemma LateCreditIsWrong(s: Store, h: Hash, p: Path, d: Differ, i: nat, o: Hash)
    requires p != [] && HasText(s, h, p) && Blame(s, h, p, d).Success? && i < |Blame(s, h, p, d).value|
    requires CameFrom(s, h, p, d, i, o) && Blame(s, h, p, d).value[i].snap != o
    ensures !AllCredited(s, h, p, d)
  {
    var b := Blame(s, h, p, d).value[i];
    if Credited(s, h, p, d, i, b) {
      OriginIsUnique(s, h, p, d, i, b.snap, o);
    }
  }

  lemma UnlinedTokenBreaksCredits(s: Store, h: Hash, p: Path, k: nat) returns (d: Differ)
    requires p != [] && Blame(s, h, p, Rewrite).Success? && HasText(s, h, p) && Inherits(s, h, p)
    requires |Lines(TextAt(s, FirstVersion(s, h, p), p))| <= k < |Tokens(TextAt(s, FirstVersion(s, h, p), p))|
    requires InAllVersions(s, h, p, Tokens(TextAt(s, FirstVersion(s, h, p), p))[k])
    ensures Blame(s, h, p, d).Success? && !AllCredited(s, h, p, d)
  {
    var base := Tokens(TextAt(s, FirstVersion(s, h, p), p));
    d := (a, b) => Keeping(base, k, a, b);
    SuccessIgnoresDiffer(s, h, p, Rewrite, d);
    KeptCreditIsLate(s, h, p, d, base, k);
    LateCreditIsWrong(s, h, p, d, Occurrence(base, k, base[k], Tokens(TextAt(s, h, p))), FirstVersion(s, h, p));
  }

  lemma UnsafeCreditsBreak(s: Store, h: Hash, p: Path) returns (d: Differ)
    requires p != [] && Blame(s, h, p, Rewrite).Success? && HasText(s, h, p) && !CreditsSafe(s, h, p)
    ensures Blame(s, h, p, d).Success? && !AllCredited(s, h, p, d)
  {
    var first := TextAt(s, FirstVersion(s, h, p), p);
    var k: nat :| |Lines(first)| <= k < |Tokens(first)| && InAllVersions(s, h, p, Tokens(first)[k]);
    d := UnlinedTokenBreaksCredits(s, h, p, k);
  }

  /** Exactly when every line credits the snapshot at which it entered the chain, whatever edit scripts
      the library chooses. */
  lemma CreditsAreRightIff(s: Store, h: Hash, p: Path)
    requires p != [] && Blame(s, h, p, Rewrite).Success?
    ensures HasText(s, h, p)
    ensures CreditsSafe(s, h, p) <==> forall d: Differ :: Blame(s, h, p, d).Success? && AllCredited(s, h, p, d)
  {
    BlameUnfolds(s, h, p, Rewrite);
    if CreditsSafe(s, h, p) {
      forall d: Differ ensures Blame(s, h, p, d).Success? && AllCredited(s, h, p, d) {
        SuccessIgnoresDiffer(s, h, p, Rewrite, d);
        SafeCredits(s, h, p, d);
      }
    } else {
      var d := UnsafeCreditsBreak(s, h, p);
    }
  }

  /** The attribution is the file's lines, each credited to the snapshot at which it entered the chain. */
  ghost predicate FullyExplained(s: Store, h: Hash, p: Path, d: Differ)
    requires p != [] && HasText(s, h, p)
  {
    var r := Blame(s, h, p, d);
    && r.Success? && |r.value| == |Lines(TextAt(s, h, p))|
    && forall i | 0 <= i < |r.value| :: Explained(s, h, p, d, i, r.value[i])
  }

  lemma ExplainedIsBoth(s: Store, h: Hash, p: Path, d: Differ)
    requires p != [] && HasText(s, h, p) && Blame(s, h, p, d).Success?
    ensures FullyExplained(s, h, p, d)
            <==> Texts(Blame(s, h, p, d).value) == Lines(TextAt(s, h, p)) && AllCredited(s, h, p, d)
  {
    var r, lines := Blame(s, h, p, d).value, Lines(TextAt(s, h, p));
    if Texts(r) == lines && AllCredited(s, h, p, d) {
      forall i | 0 <= i < |r| ensures Explained(s, h, p, d, i, r[i]) {
        assert Texts(r)[i] == r[i].line && Credited(s, h, p, d, i, r[i]);
      }
    }
    if FullyExplained(s, h, p, d) {
      forall i | 0 <= i < |r| ensures Texts(r)[i] == lines[i] && Credited(s, h, p, d, i, r[i]) {
        assert Explained(s, h, p, d, i, r[i]);
      }
    }
  }

  /** Exactly when blame is right in texts and credits, whatever edit scripts the library chooses. */
  lemma BlameIsRightIff(s: Store, h: Hash, p: Path)
    requires p != [] && Blame(s, h, p, Rewrite).Success?
    ensures HasText(s, h, p)
    ensures TextsSafe(s, h, p) && CreditsSafe(s, h, p) <==> forall d: Differ :: FullyExplained(s, h, p, d)
  {
    BlameUnfolds(s, h, p, Rewrite);
    if TextsSafe(s, h, p) && CreditsSafe(s, h, p) {
      forall d: Differ ensures FullyExplained(s, h, p, d) {
        SuccessIgnoresDiffer(s, h, p, Rewrite, d);
        SafeTextsAreLines(s, h, p, d);
        SafeCredits(s, h, p, d);
        ExplainedIsBoth(s, h, p, d);
      }
    } else {
      var d: Differ;
      if TextsSafe(s, h, p) {
        d := UnsafeCreditsBreak(s, h, p);
      } else {
        d := UnsafeTextsBreak(s, h, p);
      }
      ExplainedIsBoth(s, h, p, d);
      assert !FullyExplained(s, h, p, d);
    }
  }

  lemma {:induction false} CleanFirstVersion(s: Store, h: Hash, p: Path)
    requires p != [] && HasText(s, h, p) && CleanChain(s, h, p)
    ensures NoLoneCr(TextAt(s, h, p)) && NoLoneCr(TextAt(s, FirstVersion(s, h, p), p))
    decreases h
  {
    if Inherits(s, h, p) {
      CleanFirstVersion(s, Parent(h), p);
    }
  }

  /** Blame of a history without lone carriage returns is right, whatever the differ. */
  lemma BlameExplains(s: Store, h: Hash, p: Path, d: Differ)
    requires p != [] && Blame(s, h, p, d).Success? && CleanChain(s, h, p)
    ensures HasText(s, h, p) && TextsSafe(s, h, p) && CreditsSafe(s, h, p)
    ensures FullyExplained(s, h, p, d)
  {
    BlameUnfolds(s, h, p, d);
    CleanFirstVersion(s, h, p);
    LinesAgreeIff(TextAt(s, FirstVersion(s, h, p), p));
    SafeTextsAreLines(s, h, p, d);
    SafeCredits(s, h, p, d);
    ExplainedIsBoth(s, h, p, d);
  }

  // --- failing files ------------------------------------------------------------------------

  /** The snapshot of a directory that holds one regular file. */
  function OneFile(parents: seq<Hash>, name: Text, bytes: Text): Snapshot {
    Snapshot(parents, TreeHash([TreeEntry(name, FileKind, Of(BlobObj(bytes)), REGULAR, None)]), [], 0, None)
  }

  /** The objects that a snapshot of one file needs. */
  function OneFileObjects(snap: Snapshot, bytes: Text): seq<Object>
    requires snap.tree.Of?
  {
    [SnapObj(snap), snap.tree.obj, BlobObj(bytes)]
  }

  function PutAll(s: Store, os: seq<Object>): (s': Store)
    requires Honest(s)
    ensures Honest(s') && Extends(s, s') && forall o | o in os :: Of(o) in s'
    decreases |os|
  {
    if os == [] then s
    else
      assert os == [os[0]] + os[1..];
      PutAll(Put(s, os[0]), os[1..])
  }

  lemma OneFileVersion(s: Store, snap: Snapshot, name: Text, bytes: Text)
    requires Honest(s) && snap == OneFile(snap.parents, name, bytes)
    requires forall o | o in OneFileObjects(snap, bytes) :: Of(o) in s
    ensures Version(s, Of(SnapObj(snap)), [name]) == Success(Some(bytes)) && GetSnap(s, Of(SnapObj(snap))).Success?
  {
    var os := OneFileObjects(snap, bytes);
    assert os[0] in os && os[1] in os && os[2] in os;
    assert GetTree(s, snap.tree) == Success(snap.tree.obj.entries);
    assert Trees.Find(snap.tree.obj.entries, name) == Some(snap.tree.obj.entries[0]);
  }

  /** A snapshot whose file holds `after`, on top of a first one whose file held `before`. */
  ghost predicate TwoVersions(s: Store, h: Hash, name: Text, before: Text, after: Text) {
    && IsSnap(h) && GetSnap(s, h).Success? && h.obj.snap.parents != []
    && IsSnap(Parent(h)) && GetSnap(s, Parent(h)).Success? && Parent(h).obj.snap.parents == []
    && Version(s, h, [name]) == Success(Some(after)) && Version(s, Parent(h), [name]) == Success(Some(before))
  }

  lemma TwoVersionsExist(name: Text, before: Text, after: Text) returns (s: Store, h: Hash)
    ensures Honest(s) && TwoVersions(s, h, name, before, after)
  {
    var first := OneFile([], name, before);
    var second := OneFile([Of(SnapObj(first))], name, after);
    var s0 := PutAll(map[], OneFileObjects(first, before));
    s, h := PutAll(s0, OneFileObjects(second, after)), Of(SnapObj(second));
    OneFileVersion(s, first, name, before);
    OneFileVersion(s, second, name, after);
  }

  lemma TwoVersionsInherit(s: Store, h: Hash, name: Text, before: Text, after: Text)
    requires TwoVersions(s, h, name, before, after) && !IsBinary(before) && !IsBinary(after)
    ensures HasText(s, h, [name]) && TextAt(s, h, [name]) == after
    ensures Inherits(s, h, [name]) && TextAt(s, Parent(h), [name]) == before && !Inherits(s, Parent(h), [name])
    ensures FirstVersion(s, h, [name]) == Parent(h)
    ensures forall d: Differ :: Blame(s, h, [name], d).Success?
  {
    forall d: Differ ensures Blame(s, h, [name], d).Success? {
      assert Blame(s, Parent(h), [name], d).Success?;
    }
  }

  /** Whatever the differ, the texts are wrong. */
  ghost predicate AllTextsWrong(s: Store, h: Hash, p: Path) {
    && p != [] && HasText(s, h, p)
    && forall d: Differ :: Blame(s, h, p, d).Success? && Texts(Blame(s, h, p, d).value) != Lines(TextAt(s, h, p))
  }

  /** There is a repository like that: a file that was empty and now holds `a`, a carriage return, and `b`. */
  lemma WrongTextsExist()
    ensures exists s: Store, h: Hash, p: Path :: Honest(s) && AllTextsWrong(s, h, p)
  {
    var name, bytes: Text := [102], [97, CR, 98];
    assert bytes[1] == CR && bytes[2] != LF;
    var s, h := TwoVersionsExist(name, [], bytes);
    TwoVersionsInherit(s, h, name, [], bytes);
    forall d: Differ ensures Texts(Blame(s, h, [name], d).value) != Lines(TextAt(s, h, [name])) {
      LoneCrBreaksBlame(s, h, [name], d);
    }
    assert AllTextsWrong(s, h, [name]);
  }

  /** The two texts of the next example cut into tokens and lines. */
  lemma WitnessCuts()
    ensures Tokens([97, CR, 98]) == [[97, CR], [98]] && Lines([97, CR, 98]) == [[97, CR, 98]]
    ensures Tokens([98]) == [[98]] && NoLoneCr([98])
  {
    var t: Text := [97, CR, 98];
    assert t[1..] == [CR, 98] && t[1..][1..] == [98];
    assert TokenEnd(t) == 2 && t[..2] == [97, CR] && t[2..] == [98];
    assert [98][..1] == [98] && [98][1..] == [] && Tokens([]) == [];
    assert LineEnd(t) == 3 && t[..3] == t && t[3..] == [] && Lines([]) == [];
  }

  lemma WitnessIsUnsafe(s: Store, h: Hash, p: Path)
    requires p != [] && HasText(s, h, p) && TextAt(s, h, p) == [98] && Inherits(s, h, p)
    requires FirstVersion(s, h, p) == Parent(h) && TextAt(s, Parent(h), p) == [97, CR, 98]
    requires !Inherits(s, Parent(h), p)
    ensures TextsSafe(s, h, p) && !CreditsSafe(s, h, p)
  {
    WitnessCuts();
    var first: Text := [97, CR, 98];
    assert forall k: nat | Misaligned(first, k) :: k == 0;
    assert InAllVersions(s, h, p, Tokens(first)[1]);
  }

  /** The texts are right under every differ and yet some differ leads to a wrong credit. */
  ghost predicate OnlyCreditsWrong(s: Store, h: Hash, p: Path) {
    && p != [] && HasText(s, h, p)
    && (forall d: Differ :: Blame(s, h, p, d).Success? && Texts(Blame(s, h, p, d).value) == Lines(TextAt(s, h, p)))
    && exists d: Differ :: !AllCredited(s, h, p, d)
  }

  /** There is a repository like that: a file that held `a`, a carriage return, and `b`, and now holds `b`
      alone. */
  lemma WrongCreditsExist()
    ensures exists s: Store, h: Hash, p: Path :: Honest(s) && OnlyCreditsWrong(s, h, p)
  {
    var name, first: Text := [102], [97, CR, 98];
    var s, h := TwoVersionsExist(name, first, [98]);
    TwoVersionsInherit(s, h, name, first, [98]);
    WitnessIsUnsafe(s, h, [name]);
    TextsAreLinesIff(s, h, [name]);
    CreditsAreRightIff(s, h, [name]);
    assert OnlyCreditsWrong(s, h, [name]);
  }
}
