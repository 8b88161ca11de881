// The bit layer of LZMA, on values: what coding a list of binary decisions does to an
// interval, what reading a list of decisions does to a reader, and why the second
// undoes the first.

module RangeCoding {
  import opened Bytes

  const TOP := 0x100_0000
  const WORD := 0x1_0000_0000
  const PROB_MIN := 31
  const PROB_MAX := 2017

  type Bit = b: int | 0 <= b < 2

  /** One binary decision: modelled by the adaptive probability in a slot, or direct. */
  datatype Op = Model(slot: nat, bit: Bit) | Direct(bit: Bit)

  /** Two decisions that ask the same question. */
  predicate SameRequest(a: Op, b: Op) {
    if a.Model? then b.Model? && a.slot == b.slot else b.Direct?
  }

  // ----- adaptive probabilities

  predicate ValidProbs(probs: seq<int>) {
    forall i :: 0 <= i < |probs| ==> PROB_MIN <= probs[i] <= PROB_MAX
  }

  /** Every slot asked for is one of n. */
  predicate Fits(ops: seq<Op>, n: nat) {
    forall i :: 0 <= i < |ops| ==> ops[i].Model? ==> ops[i].slot < n
  }

  /** The probability of a 0 after one more bit: it moves 1/32 of the way to 2048 or 0. */
  function Adapt(p: int, bit: Bit): (r: int)
    ensures PROB_MIN <= p <= PROB_MAX ==> PROB_MIN <= r <= PROB_MAX
  {
    if bit == 0 then p + (2048 - p) / 32 else p - p / 32
  }

  function Learn(probs: seq<int>, op: Op): (r: seq<int>)
    ensures |r| == |probs|
    ensures ValidProbs(probs) ==> ValidProbs(r)
  {
    if op.Model? && op.slot < |probs| then probs[op.slot := Adapt(probs[op.slot], op.bit)] else probs
  }

  function Prob(probs: seq<int>, slot: nat): int {
    if slot < |probs| then probs[slot] else 1024
  }

  // ----- coding decisions into an interval

  /** The coder's interval [low, low+range) of numbers, scaled up by 256 `shifts` times. */
  datatype Interval = Interval(low: nat, range: int, shifts: nat, probs: seq<int>)

  predicate WellFormed(e: Interval) {
    TOP <= e.range < WORD && ValidProbs(e.probs)
  }

  function Bound(range: int, p: int): int { range / 2048 * p }

  function Narrow(e: Interval, op: Op): (r: Interval)
    requires WellFormed(e)
    ensures e.low <= r.low && r.low + r.range <= e.low + e.range
    ensures TOP / 256 <= r.range < WORD
    ensures r.shifts == e.shifts && r.probs == Learn(e.probs, op)
  {
    var probs := Learn(e.probs, op);
    if op.Direct? then
      Interval(e.low + op.bit * (e.range / 2), e.range / 2, e.shifts, probs)
    else
      var p := Prob(e.probs, op.slot);
      BoundInside(e.range, p);
      if op.bit == 0 then Interval(e.low, Bound(e.range, p), e.shifts, probs)
      else Interval(e.low + Bound(e.range, p), e.range - Bound(e.range, p), e.shifts, probs)
  }

  /** Both halves of a split keep at least 31/2048 of the range. */
  lemma BoundInside(range: int, p: int)
    requires TOP <= range < WORD && PROB_MIN <= p <= PROB_MAX
    ensures TOP / 256 <= Bound(range, p)
    ensures TOP / 256 <= range - Bound(range, p)
  {
    var q := range / 2048;
    assert q * PROB_MIN <= q * p <= q * PROB_MAX;
  }

  function Scale(e: Interval): Interval {
    if e.range < TOP then Interval(e.low * 256, e.range * 256, e.shifts + 1, e.probs) else e
  }

  /** Coding one decision.  One scaling step is always enough. */
  function Code(e: Interval, op: Op): (r: Interval)
    requires WellFormed(e)
    ensures WellFormed(r) && |r.probs| == |e.probs|
  {
    Scale(Narrow(e, op))
  }

  function CodeAll(e: Interval, ops: seq<Op>): (r: Interval)
    requires WellFormed(e)
    ensures WellFormed(r) && |r.probs| == |e.probs|
  {
    if ops == [] then e else Code(CodeAll(e, ops[..|ops| - 1]), ops[|ops| - 1])
  }

  lemma CodeSnoc(e: Interval, ops: seq<Op>, op: Op)
    requires WellFormed(e)
    ensures CodeAll(e, ops + [op]) == Code(CodeAll(e, ops), op)
  {
    assert (ops + [op])[..|ops|] == ops;
  }

  // ----- reading decisions back

  /**
   * The reader's registers: `pos` input bytes have been taken in.  A dry run, which does
   * not learn, leaves the probabilities alone.
   */
  datatype Reader = Reader(code: int, range: int, pos: nat, probs: seq<int>, learn: bool)

  predicate ValidReader(d: Reader) {
    TOP <= d.range < WORD && 0 <= d.code < WORD && ValidProbs(d.probs)
  }

  function ByteAt(s: seq<Byte>, i: nat): Byte {
    if i < |s| then s[i] else 0
  }

  /** Normalisation: a small range takes in one more byte, in 32-bit arithmetic. */
  function Pull(s: seq<Byte>, d: Reader): (r: Reader)
    ensures d.range >= TOP ==> r == d
    ensures r.probs == d.probs && r.learn == d.learn
  {
    if d.range < TOP then
      Reader((d.code * 256 + ByteAt(s, d.pos)) % WORD, d.range * 256, d.pos + 1, d.probs, d.learn)
    else d
  }

  /** The bit the registers give for a request; a direct bit is the sign of code - range/2. */
  function Peek(d: Reader, op: Op): Bit {
    if op.Direct? then
      if (d.code - d.range / 2) % WORD >= WORD / 2 then 0 else 1
    else if d.code < Bound(d.range, Prob(d.probs, op.slot)) then 0
    else 1
  }

  /** Taking the decision op.bit, before normalisation, in 32-bit arithmetic. */
  function Split(d: Reader, op: Op): (r: Reader)
    requires ValidReader(d)
    ensures TOP / 256 <= r.range < WORD && 0 <= r.code < WORD
    ensures r.pos == d.pos && r.learn == d.learn
    ensures r.probs == if d.learn then Learn(d.probs, op) else d.probs
  {
    var probs := if d.learn then Learn(d.probs, op) else d.probs;
    if op.Direct? then
      Reader(if op.bit == 0 then d.code else (d.code - d.range / 2) % WORD, d.range / 2, d.pos, probs, d.learn)
    else
      var bound := Bound(d.range, Prob(d.probs, op.slot));
      BoundInside(d.range, Prob(d.probs, op.slot));
      if op.bit == 0 then Reader(d.code, bound, d.pos, probs, d.learn)
      else Reader((d.code - bound) % WORD, d.range - bound, d.pos, probs, d.learn)
  }

  function Take(s: seq<Byte>, d: Reader, op: Op): (r: Reader)
    requires ValidReader(d)
    ensures ValidReader(r) && |r.probs| == |d.probs| && r.learn == d.learn
    ensures d.pos <= r.pos <= d.pos + 1
  {
    Pull(s, Split(d, op))
  }

  function TakeAll(s: seq<Byte>, d: Reader, ops: seq<Op>): (r: Reader)
    requires ValidReader(d)
    ensures ValidReader(r) && |r.probs| == |d.probs| && r.learn == d.learn
    ensures d.pos <= r.pos
  {
    if ops == [] then d else Take(s, TakeAll(s, d, ops[..|ops| - 1]), ops[|ops| - 1])
  }

  /** Every decision of `ops` is the one the registers give at its turn. */
  predicate Reads(s: seq<Byte>, d: Reader, ops: seq<Op>)
    requires ValidReader(d)
  {
    ops == [] ||
    var n := |ops| - 1;
    Reads(s, d, ops[..n]) && Peek(TakeAll(s, d, ops[..n]), ops[n]) == ops[n].bit
  }

  lemma TakeSnoc(s: seq<Byte>, d: Reader, ops: seq<Op>, op: Op)
    requires ValidReader(d)
    ensures TakeAll(s, d, ops + [op]) == Take(s, TakeAll(s, d, ops), op)
  {
    assert (ops + [op])[..|ops|] == ops;
  }

  lemma ReadsSnoc(s: seq<Byte>, d: Reader, ops: seq<Op>, op: Op)
    requires ValidReader(d)
    ensures Reads(s, d, ops + [op]) <==> Reads(s, d, ops) && Peek(TakeAll(s, d, ops), op) == op.bit
    ensures TakeAll(s, d, ops + [op]) == Take(s, TakeAll(s, d, ops), op)
  {
    assert (ops + [op])[..|ops|] == ops;
  }

  lemma {:induction false} TakeConcat(s: seq<Byte>, d: Reader, a: seq<Op>, b: seq<Op>)
    requires ValidReader(d)
    ensures TakeAll(s, d, a + b) == TakeAll(s, TakeAll(s, d, a), b)
    decreases |b|
  {
    if b == [] {
      assert a + b == a;
    } else {
      var b', last := b[..|b| - 1], b[|b| - 1];
      assert a + b == (a + b') + [last];
      calc {
        TakeAll(s, d, a + b);
        { TakeSnoc(s, d, a + b', last); }
        Take(s, TakeAll(s, d, a + b'), last);
        { TakeConcat(s, d, a, b'); }
        Take(s, TakeAll(s, TakeAll(s, d, a), b'), last);
      }
    }
  }

  lemma {:induction false} ReadsConcat(s: seq<Byte>, d: Reader, a: seq<Op>, b: seq<Op>)
    requires ValidReader(d)
    ensures Reads(s, d, a + b) <==> Reads(s, d, a) && Reads(s, TakeAll(s, d, a), b)
    decreases |b|
  {
    if b == [] {
      assert a + b == a;
    } else {
      var b', last := b[..|b| - 1], b[|b| - 1];
      assert a + b == (a + b') + [last];
      var t := TakeAll(s, d, a);
      calc {
        Reads(s, d, a + b);
        { ReadsSnoc(s, d, a + b', last); }
        Reads(s, d, a + b') && Peek(TakeAll(s, d, a + b'), last) == last.bit;
        { TakeConcat(s, d, a, b'); }
        Reads(s, d, a + b') && Peek(TakeAll(s, t, b'), last) == last.bit;
        { ReadsConcat(s, d, a, b'); }
        Reads(s, d, a) && Reads(s, t, b') && Peek(TakeAll(s, t, b'), last) == last.bit;
      }
    }
  }

  // ----- the inverse

  function BigEndian(s: seq<Byte>): nat {
    if s == [] then 0 else BigEndian(s[..|s| - 1]) * 256 + s[|s| - 1]
  }

  lemma BigEndianSnoc(s: seq<Byte>, b: Byte)
    ensures BigEndian(s + [b]) == BigEndian(s) * 256 + b
  {
    assert (s + [b])[..|s|] == s;
  }

  /** The stream, cut after as many bytes as the coder has fixed, points into its interval. */
  ghost predicate Within(s: seq<Byte>, e: Interval) {
    && 5 + e.shifts <= |s|
    && e.low <= BigEndian(s[..5 + e.shifts]) < e.low + e.range
  }

  /** Reader and coder are at the same place. */
  ghost predicate Aligned(s: seq<Byte>, d: Reader, e: Interval) {
    && d.learn && d.range == e.range && d.probs == e.probs
    && d.pos == 5 + e.shifts <= |s|
    && d.code == BigEndian(s[..d.pos]) - e.low
    && 0 <= d.code < d.range
  }

  lemma CutOne(s: seq<Byte>, n: nat)
    requires n < |s|
    ensures BigEndian(s[..n + 1]) == BigEndian(s[..n]) * 256 + s[n]
  {
    assert s[..n + 1] == s[..n] + [s[n]];
    BigEndianSnoc(s[..n], s[n]);
  }

  /** Intervals are nested: what lies in the later one lies in the earlier one. */
  lemma WithinBefore(s: seq<Byte>, e: Interval, op: Op)
    requires WellFormed(e) && Within(s, Code(e, op))
    ensures 5 + e.shifts <= |s|
    ensures var n := Narrow(e, op); n.low <= BigEndian(s[..5 + e.shifts]) < n.low + n.range
    ensures Within(s, e)
  {
    var n := Narrow(e, op);
    if n.range < TOP {
      CutOne(s, 5 + e.shifts);
    }
  }

  lemma SplitInverseDirect(d: Reader, e: Interval, op: Op, v: nat)
    requires WellFormed(e) && ValidReader(d) && d.range == e.range && d.probs == e.probs && op.Direct?
    requires var n := Narrow(e, op); n.low <= v < n.low + n.range
    requires d.code == v - e.low < d.range
    ensures Peek(d, op) == op.bit
    ensures var t := Split(d, op); var n := Narrow(e, op); t.code == v - n.low && t.range == n.range
  {
    var half := e.range / 2;
    if op.bit == 0 {
      assert (d.code - half) % WORD == d.code - half + WORD;
    }
  }

  /** Inside the narrowed interval the registers give the bit that narrowed it. */
  lemma SplitInverse(d: Reader, e: Interval, op: Op, v: nat)
    requires WellFormed(e) && ValidReader(d) && d.range == e.range && d.probs == e.probs
    requires var n := Narrow(e, op); n.low <= v < n.low + n.range
    requires d.code == v - e.low < d.range
    ensures Peek(d, op) == op.bit
    ensures var t := Split(d, op); var n := Narrow(e, op); t.code == v - n.low && t.range == n.range
  {
    if op.Direct? {
      SplitInverseDirect(d, e, op, v);
    }
  }

  /** A reader aligned with the coder reads the bit coded next and stays aligned. */
  lemma StepInverse(s: seq<Byte>, d: Reader, e: Interval, op: Op)
    requires WellFormed(e) && ValidReader(d) && Aligned(s, d, e) && Within(s, Code(e, op))
    ensures Peek(d, op) == op.bit
    ensures Aligned(s, Take(s, d, op), Code(e, op))
  {
    hide Split, Narrow, Peek, ValidProbs, Learn;
    WithinBefore(s, e, op);
    SplitInverse(d, e, op, BigEndian(s[..d.pos]));
    if Narrow(e, op).range < TOP {
      CutOne(s, d.pos);
    }
  }

  /**
   * Range coder inverse: from any aligned start, every decision coded is read back and
   * reader and coder end aligned, provided the stream points into the final interval.
   */
  lemma {:induction false} Inverse(s: seq<Byte>, d: Reader, e: Interval, ops: seq<Op>)
    requires WellFormed(e) && ValidReader(d) && d.learn && d.range == e.range && d.probs == e.probs
    requires d.pos == 5 + e.shifts <= |s| && d.code == BigEndian(s[..d.pos]) - e.low
    requires Within(s, CodeAll(e, ops))
    ensures Within(s, e)
    ensures Reads(s, d, ops)
    ensures Aligned(s, TakeAll(s, d, ops), CodeAll(e, ops))
    decreases |ops|
  {
    if ops != [] {
      var n := |ops| - 1;
      WithinBefore(s, CodeAll(e, ops[..n]), ops[n]);
      Inverse(s, d, e, ops[..n]);
      StepInverse(s, TakeAll(s, d, ops[..n]), CodeAll(e, ops[..n]), ops[n]);
    }
  }
}
