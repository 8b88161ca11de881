// The range coder and the bit reader, end to end: any adaptive and direct decisions, coded and
// flushed, are read back.

module RangeRoundTrips {
  import opened Bytes
  import opened RangeCoding
  import opened BitTrees
  import opened LzmaModel
  import opened LzmaStreams
  import opened RangeEncoders
  import opened RangeDecoders
  import opened RangeLearning

  /** Codes the decisions one by one and flushes. */
  method Write(numProbs: nat, ops: seq<Op>) returns (stream: seq<Byte>)
    requires Fits(ops, numProbs)
    ensures IsCoded(seq(numProbs, i => 1024), ops, stream)
  {
    hide RangeEncoder.Valid, CodeAll;
    var rc := new RangeEncoder(numProbs);
    for k := 0 to |ops|
      invariant rc.Valid() && rc.trace == ops[..k] && fresh(rc) && fresh(rc.probs) && rc.probs.Length == numProbs
      invariant rc.start == Interval(0, INIT_RANGE, 0, seq(numProbs, i => 1024))
    {
      match ops[k]
      case Model(slot, bit) => rc.EncodeBit(slot, bit);
      case Direct(bit) => rc.EncodeDirectBit(bit);
      assert ops[..k + 1] == ops[..k] + [ops[k]];
    }
    Flushed(rc, numProbs, ops);
    rc.FlushData();
    stream := rc.out;
  }

  lemma Flushed(rc: RangeEncoder, numProbs: nat, ops: seq<Op>)
    requires rc.Valid() && rc.trace == ops && rc.start == Interval(0, INIT_RANGE, 0, seq(numProbs, i => 1024))
    ensures rc.cacheSize >= 1 && rc.Number() == CodeAll(rc.start, ops).low && rc.View().shifts == CodeAll(rc.start, ops).shifts
  {
    hide CodeAll;
  }

  /** Asks for the same decisions in the same order, and then takes in what is still due. */
  method Read(numProbs: nat, ops: seq<Op>, stream: seq<Byte>) returns (bits: seq<Bit>, used: nat, code: int)
    requires Fits(ops, numProbs) && IsCoded(seq(numProbs, i => 1024), ops, stream)
    ensures |bits| == |ops| && forall k :: 0 <= k < |ops| ==> bits[k] == ops[k].bit
    ensures used == |stream| && code == 0
  {
    hide RangeDecoder.Valid, CodeAll, Reads, TakeAll, IsCoded;
    ghost var probs0 := seq(numProbs, i => 1024);
    CodedReads(probs0, ops, stream);
    ghost var d := ReaderFrom(probs0, stream);
    var probs := new int[numProbs](i => 1024);
    assert probs[..] == probs0;
    var rc := new RangeDecoder(probs, true, INIT_RANGE, FirstCode(stream), stream, 5);
    bits := [];
    for k := 0 to |ops|
      invariant rc.Valid() && rc.start == d && rc.src == stream && rc.learn && rc.trace == ops[..k]
      invariant fresh(rc) && rc.probs == probs
      invariant |bits| == k && forall i :: 0 <= i < k ==> bits[i] == ops[i].bit
    {
      var bit;
      match ops[k] {
        case Model(slot, _) => bit := rc.GetBit(slot);
        case Direct(_) => bit := rc.GetDirectBit();
      }
      bits := bits + [bit];
      SameBit(rc, ops, k, bit);
    }
    rc.Finish();
    AllRead(rc, ops);
    used, code := rc.buf, rc.code;
  }

  function FirstCode(stream: seq<Byte>): (code: int)
    requires |stream| >= 5
    ensures code == BigEndian(stream[1..5]) && 0 <= code < WORD
  {
    CodeBelowWord(stream[1..5]);
    ((stream[1] as int * 256 + stream[2]) * 256 + stream[3]) * 256 + stream[4]
  }

  /** A reader that has agreed so far reads the next decision as coded. */
  lemma SameBit(rc: RangeDecoder, ops: seq<Op>, k: nat, bit: Bit)
    requires rc.Valid() && k < |ops| && Reads(rc.src, rc.start, ops)
    requires rc.trace == ops[..k] + [if ops[k].Model? then Model(ops[k].slot, bit) else Direct(bit)]
    ensures bit == ops[k].bit && rc.trace == ops[..k + 1]
  {
    hide TakeAll;
    ReadsAt(rc.src, rc.start, ops, k);
    ReadsAt(rc.src, rc.start, rc.trace, k);
    assert rc.trace[..k] == ops[..k] && ops[..k + 1] == ops[..k] + [ops[k]];
  }

  lemma AllRead(rc: RangeDecoder, ops: seq<Op>)
    requires rc.Valid() && rc.range >= TOP && rc.trace == ops[..|ops|]
    ensures rc.buf == TakeAll(rc.src, rc.start, ops).pos && rc.code == TakeAll(rc.src, rc.start, ops).code
  {
    hide TakeAll, Reads;
    assert ops[..|ops|] == ops;
  }

  /**
   * Range coder round trip: the first byte written is 0, every decision is read back, exactly
   * the bytes written are read, and the reader's code is 0 at the end.
   */
  method RoundTrip(numProbs: nat, ops: seq<Op>) returns (stream: seq<Byte>, bits: seq<Bit>, used: nat, code: int)
    requires Fits(ops, numProbs)
    ensures |stream| >= 5 && stream[0] == 0
    ensures |bits| == |ops| && forall k :: 0 <= k < |ops| ==> bits[k] == ops[k].bit
    ensures used == |stream| && code == 0
  {
    hide IsCoded;
    stream := Write(numProbs, ops);
    CodedReads(seq(numProbs, i => 1024), ops, stream);
    bits, used, code := Read(numProbs, ops, stream);
  }

  /** A bit that repeats is learned: n of them in a fresh slot are written in 198 + n/64 bytes. */
  method WriteSame(bit: Bit, n: nat) returns (stream: seq<Byte>)
    ensures |stream| <= 198 + n / 64
  {
    var ops := Same(Model(0, bit), n);
    SameFits(0, bit, n);
    stream := Write(1, ops);
    RunCost(Interval(0, INIT_RANGE, 0, seq(1, i => 1024)), 0, bit, n);
  }

  lemma {:induction false} SameFits(slot: nat, bit: Bit, n: nat)
    ensures Fits(Same(Model(slot, bit), n), slot + 1)
  {
    if n > 0 {
      SameFits(slot, bit, n - 1);
    }
  }
}
