// What the bytes given to a decoder determine: which symbols it can read, when it must ask
// for more, and why a stream that an encoder wrote is read exactly.

module LzmaStreams {
  import opened Bytes
  import opened RangeCoding
  import opened BitTrees
  import opened LzmaModel
  import opened LzmaPrefixCode
  import opened DryRun

  // ----- the same bytes at another place

  /** n bytes of s from i on are the bytes of t from j on. */
  ghost predicate SameBytes(s: seq<Byte>, i: nat, t: seq<Byte>, j: nat, n: nat) {
    i + n <= |s| && j + n <= |t| && s[i..i + n] == t[j..j + n]
  }

  /** Reading does not depend on where in a buffer the bytes lie. */
  lemma {:induction false} Rebase(s: seq<Byte>, d: Reader, t: seq<Byte>, j: nat, n: nat, ops: seq<Op>)
    requires ValidReader(d) && SameBytes(s, d.pos, t, j, n)
    requires TakeAll(s, d, ops).pos <= d.pos + n
    ensures Reads(t, d.(pos := j), ops) <==> Reads(s, d, ops)
    ensures TakeAll(t, d.(pos := j), ops) == TakeAll(s, d, ops).(pos := TakeAll(s, d, ops).pos - d.pos + j)
    decreases |ops|
  {
    hide Split, Peek, SameBytes, ValidProbs;
    if ops != [] {
      var k := |ops| - 1;
      Rebase(s, d, t, j, n, ops[..k]);
      RebaseStep(s, TakeAll(s, d, ops[..k]), d.pos, t, j, n, ops[k]);
    }
  }

  lemma RebaseStep(s: seq<Byte>, d: Reader, i: nat, t: seq<Byte>, j: nat, n: nat, op: Op)
    requires ValidReader(d) && SameBytes(s, i, t, j, n) && i <= d.pos
    requires Take(s, d, op).pos <= i + n
    ensures Peek(d.(pos := d.pos - i + j), op) == Peek(d, op)
    ensures Take(t, d.(pos := d.pos - i + j), op) == Take(s, d, op).(pos := Take(s, d, op).pos - i + j)
  {
    hide Learn, ValidProbs;
    var e := d.(pos := d.pos - i + j);
    assert Split(e, op) == Split(d, op).(pos := e.pos);
    if Split(d, op).range < TOP {
      assert ByteAt(s, d.pos) == s[i..i + n][d.pos - i] == t[j..j + n][d.pos - i] == ByteAt(t, e.pos);
    }
  }

  // ----- what is read first stays read

  lemma {:induction false} TakeMonotone(s: seq<Byte>, d: Reader, ops: seq<Op>, k: nat)
    requires ValidReader(d) && k <= |ops|
    ensures TakeAll(s, d, ops[..k]).pos <= TakeAll(s, d, ops).pos
    ensures Reads(s, d, ops) ==> Reads(s, d, ops[..k])
    decreases |ops|
  {
    hide Take, Peek;
    if k == |ops| {
      assert ops[..k] == ops;
    } else {
      var n := |ops| - 1;
      TakeMonotone(s, d, ops[..n], k);
      assert ops[..n][..k] == ops[..k];
      TakeForward(s, TakeAll(s, d, ops[..n]), ops[n]);
    }
  }

  lemma TakeForward(s: seq<Byte>, d: Reader, op: Op)
    requires ValidReader(d)
    ensures d.pos <= Take(s, d, op).pos
  {
  }

  // ----- too few bytes

  /** The next symbol, read with zeros for the missing bytes, needs more than the bytes in hand. */
  ghost predicate Short(p: Props, z: Lz, d: Reader, bytes: seq<Byte>)
    requires ValidProps(p) && ValidLz(z) && ValidReader(d)
  {
    exists t :: ValidSymbol(t) && ReadsSymbol(p, z, d, bytes, t) && NeedsMore(p, z, d, bytes, t)
  }

  ghost predicate ReadsSymbol(p: Props, z: Lz, d: Reader, bytes: seq<Byte>, t: Symbol)
    requires ValidProps(p) && ValidLz(z) && ValidReader(d) && ValidSymbol(t)
  {
    Reads(bytes, d, SymbolOps(p, z, t))
  }

  ghost predicate NeedsMore(p: Props, z: Lz, d: Reader, bytes: seq<Byte>, t: Symbol)
    requires ValidProps(p) && ValidLz(z) && ValidReader(d) && ValidSymbol(t)
  {
    TakeAll(bytes, d, SymbolOps(p, z, t)).pos > |bytes|
  }

  /** The first decisions of `ops` that need a byte past the end are fixed by the bytes in hand. */
  lemma {:induction false} FirstShort(s: seq<Byte>, t: seq<Byte>, d: Reader, ops: seq<Op>) returns (k: nat)
    requires ValidReader(d) && d.pos <= |s| && s <= t
    requires Reads(s, d, ops) && TakeAll(s, d, ops).pos > |s|
    ensures k <= |ops| && Reads(t, d, ops[..k]) && TakeAll(t, d, ops[..k]).pos > |s|
    decreases |ops|
  {
    hide Take, Peek;
    var n := |ops| - 1;
    if TakeAll(s, d, ops[..n]).pos > |s| {
      k := FirstShort(s, t, d, ops[..n]);
      assert ops[..n][..k] == ops[..k];
    } else {
      Extends(s, t, d, ops[..n]);
      k := |ops|;
      assert ops[..k] == ops;
      SamePull(s, t, TakeAll(s, d, ops[..n]), ops[n]);
    }
  }

  lemma SamePull(s: seq<Byte>, t: seq<Byte>, d: Reader, op: Op)
    requires ValidReader(d)
    ensures Take(s, d, op).pos == Take(t, d, op).pos
  {
  }

  /** If the bytes in hand are short for one reading of the next symbol, they are for the true one. */
  lemma ShortMeansShort(p: Props, z: Lz, d: Reader, bytes: seq<Byte>, more: seq<Byte>, s: Symbol)
    requires ValidProps(p) && ValidLz(z) && ValidReader(d) && d.pos <= |bytes| && bytes <= more
    requires Short(p, z, d, bytes) && ValidSymbol(s) && Reads(more, d, SymbolOps(p, z, s))
    ensures TakeAll(more, d, SymbolOps(p, z, s)).pos > |bytes|
  {
    hide SymbolOps, Reads, TakeAll;
    var t :| ValidSymbol(t) && ReadsSymbol(p, z, d, bytes, t) && NeedsMore(p, z, d, bytes, t);
    var a, b := SymbolOps(p, z, s), SymbolOps(p, z, t);
    var k := FirstShort(bytes, more, d, b);
    if s != t {
      SymbolsDiverge(p, z, s, t);
      var i :| 0 <= i < |a| && i < |b| && DivergeAt(a, b, i);
      if i < k {
        assert b[..k][..i] == b[..i];
        assert DivergeAt(a, b[..k], i);
        ReadsOne(more, d, a, b[..k]);
      }
      assert a[..i][..k] == a[..k] && b[..i][..k] == b[..k];
    }
    TakeMonotone(more, d, a, k);
  }

  // ----- what a range coder wrote

  /** The reader after the five bytes that start a stream. */
  function ReaderFrom(probs: seq<int>, input: seq<Byte>): (d: Reader)
    requires ValidProbs(probs) && |input| >= 5
    ensures ValidReader(d)
  {
    CodeBelowWord(input[1..5]);
    Reader(BigEndian(input[1..5]), INIT_RANGE, 5, probs, true)
  }

  lemma CodeBelowWord(s: seq<Byte>)
    requires |s| == 4
    ensures BigEndian(s) < WORD
    ensures BigEndian(s) == ((s[0] as int * 256 + s[1]) * 256 + s[2]) * 256 + s[3]
  {
    assert s[..3][..2] == s[..2] && s[..2][..1] == s[..1] && s[..1][..0] == [];
    assert BigEndian(s[..1]) == s[0];
    assert BigEndian(s[..2]) == s[0] as int * 256 + s[1];
    assert BigEndian(s[..3]) == BigEndian(s[..2]) * 256 + s[2];
  }

  lemma {:induction false} WithinStart(s: seq<Byte>, e: Interval, ops: seq<Op>)
    requires WellFormed(e) && Within(s, CodeAll(e, ops))
    ensures Within(s, e)
    decreases |ops|
  {
    hide Code, Within;
    if ops != [] {
      var n := |ops| - 1;
      WithinBefore(s, CodeAll(e, ops[..n]), ops[n]);
      WithinStart(s, e, ops[..n]);
    }
  }

  lemma FirstByteZero(s: seq<Byte>)
    requires |s| >= 5 && BigEndian(s[..5]) < INIT_RANGE
    ensures s[0] == 0 && BigEndian(s[..5]) == BigEndian(s[1..5])
  {
    CodeBelowWord(s[1..5]);
    CodeBelowWord(s[..4]);
    CutOne(s, 4);
  }

  /**
   * Any adaptive and direct decisions, coded from any valid probabilities and flushed, are all
   * read back; the first byte is 0, the reader takes exactly the bytes written and ends with code 0.
   */
  lemma CodedReads(probs: seq<int>, ops: seq<Op>, stream: seq<Byte>)
    requires ValidProbs(probs) && IsCoded(probs, ops, stream)
    ensures |stream| >= 5 && stream[0] == 0
    ensures var d := ReaderFrom(probs, stream);
            Reads(stream, d, ops) && TakeAll(stream, d, ops).pos == |stream| && TakeAll(stream, d, ops).code == 0
  {
    var e := Interval(0, INIT_RANGE, 0, probs);
    CodedWithin(probs, ops, stream);
    hide Reads, TakeAll, CodeAll, Within;
    WithinStart(stream, e, ops);
    CodedAligned(probs, stream);
    Inverse(stream, ReaderFrom(probs, stream), e, ops);
    var t := TakeAll(stream, ReaderFrom(probs, stream), ops);
    assert stream[..t.pos] == stream;
  }

  lemma CodedWithin(probs: seq<int>, ops: seq<Op>, stream: seq<Byte>)
    requires ValidProbs(probs) && IsCoded(probs, ops, stream)
    ensures Within(stream, CodeAll(Interval(0, INIT_RANGE, 0, probs), ops))
  {
    hide CodeAll;
    assert stream[..5 + CodeAll(Interval(0, INIT_RANGE, 0, probs), ops).shifts] == stream;
  }

  lemma CodedAligned(probs: seq<int>, stream: seq<Byte>)
    requires ValidProbs(probs) && Within(stream, Interval(0, INIT_RANGE, 0, probs))
    ensures |stream| >= 5 && stream[0] == 0 && ReaderFrom(probs, stream).code == BigEndian(stream[..5])
  {
    FirstByteZero(stream);
  }

  // ----- the symbols of a stream

  /** The reader of an LZMA stream starts with every probability in the middle. */
  function FirstReader(p: Props, input: seq<Byte>): (d: Reader)
    requires ValidProps(p) && |input| >= 5
    ensures ValidReader(d)
  {
    ReaderFrom(seq(NumProbs(p), i => 1024), input)
  }

  lemma PlayEmpty(p: Props, z: Lz)
    requires ValidProps(p) && ValidLz(z)
    ensures Playable(z, []) && Run(z, []) == z && AllOps(p, z, []) == []
  {
  }

  lemma PlayLast(p: Props, z: Lz, syms: seq<Symbol>)
    requires ValidProps(p) && ValidLz(z) && syms != [] && Playable(z, syms)
    ensures var n := |syms| - 1;
            && Playable(z, syms[..n]) && ValidSymbol(syms[n]) && Refers(Run(z, syms[..n]), syms[n])
            && Run(z, syms) == Apply(Run(z, syms[..n]), syms[n])
            && AllOps(p, z, syms) == AllOps(p, z, syms[..n]) + SymbolOps(p, Run(z, syms[..n]), syms[n])
  {
  }

  lemma {:induction false} PlayConcat(p: Props, z: Lz, a: seq<Symbol>, b: seq<Symbol>)
    requires ValidProps(p) && ValidLz(z) && Playable(z, a) && Playable(Run(z, a), b)
    ensures Playable(z, a + b) && Run(z, a + b) == Run(Run(z, a), b)
    ensures AllOps(p, z, a + b) == AllOps(p, z, a) + AllOps(p, Run(z, a), b)
    decreases |b|
  {
    hide SymbolOps, Apply, Playable, Run, AllOps;
    var y := Run(z, a);
    if b == [] {
      PlayEmpty(p, y);
      assert a + b == a;
      assert AllOps(p, z, a) + [] == AllOps(p, z, a);
    } else {
      var b', s := b[..|b| - 1], b[|b| - 1];
      PlayLast(p, y, b);
      PlayConcat(p, z, a, b');
      assert a + b == (a + b') + [s];
      RunSnoc(p, z, a + b', s);
      var ops := SymbolOps(p, Run(y, b'), s);
      assert (AllOps(p, z, a) + AllOps(p, y, b')) + ops == AllOps(p, z, a) + (AllOps(p, y, b') + ops);
    }
  }

  lemma {:induction false} PlayPrefix(p: Props, z: Lz, syms: seq<Symbol>, k: nat)
    requires ValidProps(p) && ValidLz(z) && Playable(z, syms) && k <= |syms|
    ensures Playable(z, syms[..k]) && AllOps(p, z, syms[..k]) <= AllOps(p, z, syms)
    ensures Run(z, syms[..k]).hist <= Run(z, syms).hist
    decreases |syms|
  {
    hide SymbolOps, Apply;
    if k == |syms| {
      assert syms[..k] == syms;
    } else {
      var n := |syms| - 1;
      PlayPrefix(p, z, syms[..n], k);
      assert syms[..n][..k] == syms[..k];
      ApplyExtends(Run(z, syms[..n]), syms[n]);
    }
  }

  lemma ApplyExtends(z: Lz, s: Symbol)
    requires ValidLz(z) && ValidSymbol(s) && Refers(z, s)
    ensures z.hist <= Apply(z, s).hist
  {
    match s
    case Literal(_) =>
    case ShortRep => CopyExtends(z.hist, z.reps[0], 1);
    case Rep(i, len) => CopyExtends(z.hist, z.reps[i], len);
    case Match(d, len) => CopyExtends(z.hist, d, len);
  }

  // ----- a stream that an encoder wrote

  /** Every distance fits a dictionary of this size. */
  predicate InDictionary(syms: seq<Symbol>, size: nat) {
    forall i :: 0 <= i < |syms| && syms[i].Match? ==> syms[i].distance < size
  }

  /** A stream starts with a zero byte and its decisions are read back exactly, ending with code 0. */
  lemma StreamReads(p: Props, enc: seq<Symbol>, stream: seq<Byte>)
    requires ValidProps(p) && Playable(START, enc) && IsStream(p, enc, stream)
    ensures |stream| >= 5 && stream[0] == 0
    ensures var d := FirstReader(p, stream); var ops := StreamOps(p, enc);
            && Reads(stream, d, ops)
            && TakeAll(stream, d, ops).pos == |stream| && TakeAll(stream, d, ops).code == 0
  {
    hide Reads, TakeAll, CodeAll, StreamOps, NumProbs;
    CodedReads(seq(NumProbs(p), i => 1024), StreamOps(p, enc), stream);
  }

  /** The bytes given so far and the stream agree as far as both go. */
  predicate Agrees(stream: seq<Byte>, input: seq<Byte>) {
    stream <= input || input <= stream
  }

  /** The symbol of a stream after the first k: the marker after the last. */
  function NextSymbol(enc: seq<Symbol>, k: nat): Symbol
    requires k <= |enc|
  {
    if k < |enc| then enc[k] else MARKER
  }

  /** Reads of a whole stream contain the reading of each of its symbols. */
  lemma NextReads(p: Props, enc: seq<Symbol>, input: seq<Byte>, d: Reader, k: nat)
    requires ValidProps(p) && ValidReader(d) && Playable(START, enc) && k <= |enc|
    requires Reads(input, d, StreamOps(p, enc))
    ensures Playable(START, enc[..k]) && ValidSymbol(NextSymbol(enc, k))
    ensures k < |enc| ==> Refers(Run(START, enc[..k]), enc[k])
    ensures Reads(input, d, AllOps(p, START, enc[..k]))
    ensures Reads(input, TakeAll(input, d, AllOps(p, START, enc[..k])), SymbolOps(p, Run(START, enc[..k]), NextSymbol(enc, k)))
    ensures TakeAll(input, TakeAll(input, d, AllOps(p, START, enc[..k])), SymbolOps(p, Run(START, enc[..k]), NextSymbol(enc, k))).pos
         <= TakeAll(input, d, StreamOps(p, enc)).pos
  {
    hide SymbolOps, Apply, Reads, TakeAll, Playable, Run, AllOps;
    var ops := AllOps(p, START, enc);
    var marked := ops + SymbolOps(p, Run(START, enc), MARKER);
    PlayPrefix(p, START, enc, k);
    var before := AllOps(p, START, enc[..k]);
    if k < |enc| {
      PlayPrefix(p, START, enc, k + 1);
      PlayLast(p, START, enc[..k + 1]);
      assert enc[..k + 1][..k] == enc[..k];
    }
    var next := SymbolOps(p, Run(START, enc[..k]), NextSymbol(enc, k));
    var upto := before + next;
    if k < |enc| {
      assert upto == AllOps(p, START, enc[..k + 1]) <= ops <= marked;
    } else {
      assert enc[..k] == enc;
    }
    assert marked[..|upto|] == upto;
    TakeMonotone(input, d, marked, |upto|);
    ReadsConcat(input, d, before, next);
    TakeConcat(input, d, before, next);
  }

  /** Whatever symbols a decoder reads from a genuine stream are the first ones of the stream. */
  lemma {:induction false} SymbolsFollow(p: Props, enc: seq<Symbol>, input: seq<Byte>, d: Reader, syms: seq<Symbol>)
    requires ValidProps(p) && ValidReader(d) && Playable(START, enc) && Playable(START, syms)
    requires Reads(input, d, StreamOps(p, enc)) && Reads(input, d, AllOps(p, START, syms))
    ensures syms <= enc
    decreases |syms|
  {
    hide SymbolOps, Apply, Reads, TakeAll, Playable, Run, AllOps, StreamOps;
    if syms != [] {
      var k := |syms| - 1;
      PlayLast(p, START, syms);
      var before := AllOps(p, START, syms[..k]);
      ReadsConcat(input, d, before, SymbolOps(p, Run(START, syms[..k]), syms[k]));
      SymbolsFollow(p, enc, input, d, syms[..k]);
      assert enc[..k] == syms[..k];
      NextReads(p, enc, input, d, k);
      SymbolUnique(p, Run(START, syms[..k]), input, TakeAll(input, d, before), syms[k], NextSymbol(enc, k));
    }
  }

  /** The longer of the bytes given and the stream. */
  function Longer(stream: seq<Byte>, input: seq<Byte>): seq<Byte> {
    if |stream| <= |input| then input else stream
  }

  /** What is read within the bytes given, and the whole stream, are read from the longer of the two. */
  lemma ReadFromLonger(p: Props, enc: seq<Symbol>, stream: seq<Byte>, input: seq<Byte>, ops: seq<Op>)
    requires ValidProps(p) && Playable(START, enc) && IsStream(p, enc, stream)
    requires Agrees(stream, input) && |input| >= 5
    requires Reads(input, FirstReader(p, input), ops) && TakeAll(input, FirstReader(p, input), ops).pos <= |input|
    ensures |stream| >= 5
    ensures var w := Longer(stream, input); var d := FirstReader(p, input);
            && d == FirstReader(p, stream) && Reads(w, d, ops) && TakeAll(w, d, ops) == TakeAll(input, d, ops)
            && Reads(w, d, StreamOps(p, enc))
            && TakeAll(w, d, StreamOps(p, enc)).pos == |stream| && TakeAll(w, d, StreamOps(p, enc)).code == 0
  {
    hide StreamOps, Reads, TakeAll;
    StreamReads(p, enc, stream);
    assert stream[1..5] == input[1..5];
    if |stream| <= |input| {
      Extends(stream, input, FirstReader(p, stream), StreamOps(p, enc));
    } else {
      Extends(input, stream, FirstReader(p, input), ops);
    }
  }
}
