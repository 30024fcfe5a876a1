/** The framing of the log file: each record is a 32-bit big-endian length followed by its payload.

    The record codec is a parameter; all that is used of it is that decoding inverts encoding. */
module LogFormat {
  import opened Wrappers
  import opened Lex
  import opened Objects

  datatype Codec<!T> = Codec(encode: T -> Text, decode: Text -> Option<T>)

  ghost predicate Faithful<T(!new)>(codec: Codec<T>) {
    forall x :: codec.decode(codec.encode(x)) == Some(x)
  }

  const LIMIT: nat := 0x1_0000_0000

  /** `to_be_bytes` */
  function Header(n: nat): (r: Text)
    requires n < LIMIT
    ensures |r| == 4
  {
    [n / 256 / 256 / 256, n / 256 / 256 % 256, n / 256 % 256, n % 256]
  }

  /** `from_be_bytes` */
  function HeaderValue(b: Text): int
    requires |b| == 4
  {
    ((b[0] as int * 256 + b[1]) * 256 + b[2]) * 256 + b[3]
  }

  lemma HeaderRoundTrip(n: nat)
    requires n < LIMIT
    ensures HeaderValue(Header(n)) == n
  {
  }

  lemma DivMod(q: int, r: Byte)
    ensures (q * 256 + r) / 256 == q && (q * 256 + r) % 256 == r
  {
  }

  lemma HeaderIsUnique(b: Text)
    requires |b| == 4
    ensures 0 <= HeaderValue(b) < LIMIT && Header(HeaderValue(b)) == b
  {
    var q1: int := b[0];
    var q2 := q1 * 256 + b[1];
    DivMod(q1, b[1]);
    DivMod(q2, b[2]);
    DivMod(q2 * 256 + b[2], b[3]);
  }

  /** Headers compare bytewise like the lengths they stand for: the most significant byte comes first. With
      every four bytes being a header, that leaves no other choice of `Header` and `HeaderValue`. */
  lemma HeaderOrder(a: nat, b: nat)
    requires a < b < LIMIT
    ensures Less(Header(a), Header(b))
  {
    var x, y := Header(a), Header(b);
    var k: nat := if x[0] != y[0] then 0 else if x[1] != y[1] then 1 else if x[2] != y[2] then 2 else 3;
    HeaderRoundTrip(a);
    HeaderRoundTrip(b);
    assert SmallerAt(x, y, k);
    LessIff(x, y);
  }

  function Frame(payload: Text): Text
    requires |payload| < LIMIT
  {
    Header(|payload|) + payload
  }

  ghost predicate Framable<T>(codec: Codec<T>, ops: seq<T>) {
    forall i | 0 <= i < |ops| :: |codec.encode(ops[i])| < LIMIT
  }

  /** The file after appending the given records. */
  function LogBytes<T>(codec: Codec<T>, ops: seq<T>): Text
    requires Framable(codec, ops)
  {
    if ops == [] then [] else Frame(codec.encode(ops[0])) + LogBytes(codec, ops[1..])
  }

  /** Reading a whole file. Whatever is left over or undecodable makes it corrupt. */
  function ReadAll<T>(codec: Codec<T>, bytes: Text): Result<seq<T>, Error>
    decreases |bytes|
  {
    if bytes == [] then Success([])
    else if |bytes| < 4 then Failure(Corrupt)
    else
      var len := HeaderValue(bytes[..4]);
      if |bytes| - 4 < len then Failure(Corrupt)
      else
        match codec.decode(bytes[4..4 + len])
        case None => Failure(Corrupt)
        case Some(op) =>
          var rest :- ReadAll(codec, bytes[4 + len..]);
          Success([op] + rest)
  }

  function Resume<T>(out: seq<T>, rest: Result<seq<T>, Error>): Result<seq<T>, Error> {
    if rest.Success? then Success(out + rest.value) else rest
  }

  lemma ResumeOne<T>(out: seq<T>, op: T, rest: Result<seq<T>, Error>)
    ensures Resume(out, Resume([op], rest)) == Resume(out + [op], rest)
  {
    if rest.Success? {
      assert out + ([op] + rest.value) == out + [op] + rest.value;
    }
  }

  datatype Located<T> = Located(op: T, next: nat)

  /** The record that starts at a position and where the next one starts. */
  function RecordAt<T>(codec: Codec<T>, bytes: Text, pos: nat): (r: Option<Located<T>>)
    requires pos <= |bytes|
    ensures r.Some? ==> pos < r.value.next <= |bytes|
  {
    if |bytes| - pos < 4 then None
    else
      var from := pos + 4;
      var len := HeaderValue(bytes[pos..from]);
      if |bytes| - from < len then None
      else
        match codec.decode(bytes[from..from + len])
        case None => None
        case Some(op) => Some(Located(op, from + len))
  }

  lemma ReadHere<T>(codec: Codec<T>, bytes: Text, pos: nat)
    requires pos < |bytes|
    ensures var at := RecordAt(codec, bytes, pos);
            ReadAll(codec, bytes[pos..]) ==
            if at.None? then Failure(Corrupt) else Resume([at.value.op], ReadAll(codec, bytes[at.value.next..]))
  {
    var left := bytes[pos..];
    if |left| >= 4 {
      assert left[..4] == bytes[pos..pos + 4];
      var from, len := pos + 4, HeaderValue(left[..4]);
      if |left| - 4 >= len {
        assert left[4..4 + len] == bytes[from..from + len] && left[4 + len..] == bytes[from + len..];
      }
    }
  }

  /** The reading by position, after `out` was read. */
  function ReadFrom<T>(codec: Codec<T>, bytes: Text, pos: nat, out: seq<T>): Result<seq<T>, Error>
    requires pos <= |bytes|
    decreases |bytes| - pos
  {
    if pos == |bytes| then Success(out)
    else
      match RecordAt(codec, bytes, pos)
      case None => Failure(Corrupt)
      case Some(at) => ReadFrom(codec, bytes, at.next, out + [at.op])
  }

  lemma {:induction false} ReadFromIsReadAll<T>(codec: Codec<T>, bytes: Text, pos: nat, out: seq<T>)
    requires pos <= |bytes|
    ensures ReadFrom(codec, bytes, pos, out) == Resume(out, ReadAll(codec, bytes[pos..]))
    decreases |bytes| - pos
  {
    if pos == |bytes| {
      assert bytes[pos..] == [] && out + [] == out;
    } else {
      ReadHere(codec, bytes, pos);
      match RecordAt(codec, bytes, pos)
      case None =>
      case Some(at) =>
        ReadFromIsReadAll(codec, bytes, at.next, out + [at.op]);
        ResumeOne(out, at.op, ReadAll(codec, bytes[at.next..]));
    }
  }

  lemma ReadFromStart<T>(codec: Codec<T>, bytes: Text)
    ensures ReadFrom(codec, bytes, 0, []) == ReadAll(codec, bytes)
  {
    ReadFromIsReadAll(codec, bytes, 0, []);
    assert bytes[0..] == bytes;
    var all := ReadAll(codec, bytes);
    assert all.Success? ==> [] + all.value == all.value;
  }

  method ReadAllRecords<T>(codec: Codec<T>, bytes: Text) returns (r: Result<seq<T>, Error>)
    ensures r == ReadAll(codec, bytes)
  {
    var total := |bytes|;
    var out: seq<T> := [];
    var pos := 0;
    ReadFromStart(codec, bytes);
    ghost var all := ReadAll(codec, bytes);
    while pos < total
      invariant 0 <= pos <= total
      invariant ReadFrom(codec, bytes, pos, out) == all
    {
      if total - pos < 4 {
        return Failure(Corrupt);
      }
      var len := HeaderValue(bytes[pos..pos + 4]);
      pos := pos + 4;
      if total - pos < len {
        return Failure(Corrupt);
      }
      var payload := bytes[pos..pos + len];
      pos := pos + len;
      match codec.decode(payload) {
        case None =>
          return Failure(Corrupt);
        case Some(op) =>
          out := out + [op];
      }
    }
    return Success(out);
  }

  lemma ReadFramed<T>(codec: Codec<T>, payload: Text, rest: Text)
    requires |payload| < LIMIT
    ensures ReadAll(codec, Frame(payload) + rest) ==
            match codec.decode(payload)
            case None => Failure(Corrupt)
            case Some(op) => Resume([op], ReadAll(codec, rest))
  {
    var bytes := Frame(payload) + rest;
    HeaderRoundTrip(|payload|);
    assert bytes[..4] == Header(|payload|);
    assert bytes[4..4 + |payload|] == payload;
    assert bytes[4 + |payload|..] == rest;
  }

  /** Reading back a log built by any number of appends returns exactly those records in order. */
  lemma {:induction false} ReadBack<T(!new)>(codec: Codec<T>, ops: seq<T>)
    requires Faithful(codec) && Framable(codec, ops)
    ensures ReadAll(codec, LogBytes(codec, ops)) == Success(ops)
  {
    if ops != [] {
      ReadBack(codec, ops[1..]);
      ReadFramed(codec, codec.encode(ops[0]), LogBytes(codec, ops[1..]));
      assert [ops[0]] + ops[1..] == ops;
    }
  }

  lemma {:induction false} BytesOfPrefix<T>(codec: Codec<T>, ops: seq<T>, j: nat)
    requires Framable(codec, ops) && j <= |ops|
    ensures Framable(codec, ops[..j]) && LogBytes(codec, ops[..j]) <= LogBytes(codec, ops)
  {
    if j > 0 {
      BytesOfPrefix(codec, ops[1..], j - 1);
      assert ops[..j][1..] == ops[1..][..j - 1];
    }
  }

  /** A cut is after the `j`-th record, or, when `j` is negative, inside a record. */
  lemma {:induction false} LocateCut<T>(codec: Codec<T>, ops: seq<T>, cut: nat) returns (j: int)
    requires Framable(codec, ops) && cut <= |LogBytes(codec, ops)|
    ensures -1 <= j <= |ops|
    ensures j >= 0 ==> |LogBytes(codec, ops[..j])| == cut
    ensures j < 0 ==> ReadAll(codec, LogBytes(codec, ops)[..cut]) == Failure(Corrupt)
  {
    var bytes := LogBytes(codec, ops)[..cut];
    if cut == 0 {
      j := 0;
    } else {
      var frame := Frame(codec.encode(ops[0]));
      assert LogBytes(codec, ops) == frame + LogBytes(codec, ops[1..]);
      if cut < |frame| {
        assert cut >= 4 ==> bytes[..4] == Header(|codec.encode(ops[0])|);
        HeaderRoundTrip(|codec.encode(ops[0])|);
        j := -1;
      } else {
        var rest := LogBytes(codec, ops[1..])[..cut - |frame|];
        assert bytes == frame + rest;
        ReadFramed(codec, codec.encode(ops[0]), rest);
        j := LocateCut(codec, ops[1..], cut - |frame|);
        if j >= 0 {
          assert ops[..j + 1][1..] == ops[1..][..j];
          j := j + 1;
        }
      }
    }
  }

  /** The part of a log before the end of a record reads as the records up to there. */
  lemma PrefixReads<T(!new)>(codec: Codec<T>, ops: seq<T>, j: nat)
    requires Faithful(codec) && Framable(codec, ops) && j <= |ops|
    ensures |LogBytes(codec, ops[..j])| <= |LogBytes(codec, ops)|
    ensures ReadAll(codec, LogBytes(codec, ops)[..|LogBytes(codec, ops[..j])|]) == Success(ops[..j])
  {
    BytesOfPrefix(codec, ops, j);
    var before := ops[..j];
    ReadBack(codec, before);
    assert LogBytes(codec, ops)[..|LogBytes(codec, before)|] == LogBytes(codec, before);
  }

  /** A truncated log is readable exactly when the cut is at the end of a record, and then yields
      the records before the cut; every other cut is reported as corrupt. */
  lemma TruncationIsDetected<T(!new)>(codec: Codec<T>, ops: seq<T>, cut: nat) returns (j: int)
    requires Faithful(codec) && Framable(codec, ops) && cut <= |LogBytes(codec, ops)|
    ensures -1 <= j <= |ops|
    ensures j >= 0 ==> |LogBytes(codec, ops[..j])| == cut
                       && ReadAll(codec, LogBytes(codec, ops)[..cut]) == Success(ops[..j])
    ensures j < 0 ==> ReadAll(codec, LogBytes(codec, ops)[..cut]) == Failure(Corrupt)
                      && forall k | 0 <= k <= |ops| :: |LogBytes(codec, ops[..k])| != cut
  {
    j := LocateCut(codec, ops, cut);
    if j >= 0 {
      PrefixReads(codec, ops, j);
    } else {
      forall k | 0 <= k <= |ops| ensures |LogBytes(codec, ops[..k])| != cut {
        PrefixReads(codec, ops, k);
      }
    }
  }

  predicate Short(payloads: seq<Text>) {
    forall i | 0 <= i < |payloads| :: |payloads[i]| < LIMIT
  }

  /** The file consisting of the given payloads. */
  function Frames(payloads: seq<Text>): Text
    requires Short(payloads)
  {
    if payloads == [] then [] else Frame(payloads[0]) + Frames(payloads[1..])
  }

  ghost predicate Decodes<T>(codec: Codec<T>, payloads: seq<Text>, ops: seq<T>) {
    |payloads| == |ops| && forall i | 0 <= i < |ops| :: codec.decode(payloads[i]) == Some(ops[i])
  }

  lemma DecodesCons<T>(codec: Codec<T>, p: Text, op: T, payloads: seq<Text>, ops: seq<T>)
    requires codec.decode(p) == Some(op) && Decodes(codec, payloads, ops)
    requires |p| < LIMIT && Short(payloads)
    ensures Decodes(codec, [p] + payloads, [op] + ops) && Short([p] + payloads)
    ensures Frames([p] + payloads) == Frame(p) + Frames(payloads)
  {
    assert ([p] + payloads)[1..] == payloads;
  }

  lemma SplitFrame(bytes: Text)
    requires |bytes| >= 4 && |bytes| - 4 >= HeaderValue(bytes[..4])
    ensures 0 <= HeaderValue(bytes[..4]) < LIMIT
    ensures var len := HeaderValue(bytes[..4]);
            bytes == Frame(bytes[4..4 + len]) + bytes[4 + len..]
  {
    HeaderIsUnique(bytes[..4]);
    var len := HeaderValue(bytes[..4]);
    assert |bytes[4..4 + len]| == len;
    assert bytes == (bytes[..4] + bytes[4..4 + len]) + bytes[4 + len..];
  }

  /** Only files made of whole records can be read: an accepted file is the framing of payloads that
      decode, one by one, to the records returned. */
  lemma {:induction false} OnlyWholeRecordsAreRead<T>(codec: Codec<T>, bytes: Text) returns (payloads: seq<Text>)
    requires ReadAll(codec, bytes).Success?
    ensures Short(payloads) && bytes == Frames(payloads)
    ensures Decodes(codec, payloads, ReadAll(codec, bytes).value)
    decreases |bytes|
  {
    if bytes == [] {
      payloads := [];
    } else {
      var len := HeaderValue(bytes[..4]);
      SplitFrame(bytes);
      var payload, tail := bytes[4..4 + len], bytes[4 + len..];
      var rest := OnlyWholeRecordsAreRead(codec, tail);
      payloads := [payload] + rest;
      DecodesCons(codec, payload, codec.decode(payload).value, rest, ReadAll(codec, tail).value);
    }
  }

  lemma {:induction false} BytesOfAppend<T>(codec: Codec<T>, ops: seq<T>, op: T)
    requires Framable(codec, ops) && |codec.encode(op)| < LIMIT
    ensures Framable(codec, ops + [op])
    ensures LogBytes(codec, ops + [op]) == LogBytes(codec, ops) + Frame(codec.encode(op))
  {
    if ops == [] {
      assert (ops + [op])[1..] == [];
    } else {
      BytesOfAppend(codec, ops[1..], op);
      assert (ops + [op])[1..] == ops[1..] + [op];
    }
  }

  class LogFile<!T(!new)> {
    const codec: Codec<T>
    var bytes: Text

    constructor (codec: Codec<T>)
      ensures this.codec == codec && bytes == []
    {
      this.codec := codec;
      bytes := [];
    }

    /** Appends one record, unless its encoding is too long for the header. */
    method Append(op: T) returns (r: Result<(), Error>)
      modifies this
      ensures r.Success? <==> |codec.encode(op)| < LIMIT
      ensures r.Failure? ==> bytes == old(bytes)
      ensures r.Success? ==>
                forall ops | Framable(codec, ops) && old(bytes) == LogBytes(codec, ops) ::
                  Framable(codec, ops + [op]) && bytes == LogBytes(codec, ops + [op])
    {
      var payload := codec.encode(op);
      if |payload| >= LIMIT {
        return Failure(TooLarge);
      }
      bytes := bytes + Header(|payload|);
      bytes := bytes + payload;
      assert bytes == old(bytes) + Frame(payload);
      forall ops | Framable(codec, ops) && old(bytes) == LogBytes(codec, ops)
        ensures Framable(codec, ops + [op]) && bytes == LogBytes(codec, ops + [op])
      {
        BytesOfAppend(codec, ops, op);
      }
      return Success(());
    }
  }
}
