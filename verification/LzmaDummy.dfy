// LzmaDec_TryDummy: reads one symbol ahead without learning from it, to find out whether
// the bytes in hand hold a whole symbol.

module LzmaDummies {
  import opened Bytes
  import opened RangeCoding
  import opened BitTrees
  import opened LzmaModel
  import opened RangeDecoders
  import opened DryRun
  import opened LzmaStreams
  import opened LzmaDecoders

  datatype Dummy = DummyError | DummyLit | DummyMatch | DummyRep

  function DummyOf(s: Symbol): Dummy {
    if s.Literal? then DummyLit else if s.Match? then DummyMatch else DummyRep
  }

  /** A dry reader beside a decoder: it shares the probabilities and does not write them. */
  ghost predicate Beside(dec: LzmaDecoder, dry: RangeDecoder)
    reads dec, dec.dic, dec.rc, dec.rc.probs, dry, dry.probs
  {
    dec.Valid() && dry.Valid() && dry != dec.rc && dry.probs == dec.rc.probs && !dry.learn
  }

  /** Why the decoder beside a dry reader stays valid: its registers and probabilities are the same. */
  lemma Undisturbed(rc: RangeDecoder, src: seq<Byte>, start: Reader, trace: seq<Op>, view: Reader)
    requires rc.Registers() && rc.src == src && rc.start == start && rc.trace == trace && rc.View() == view
    requires ValidReader(start) && ValidReader(view) && Reads(src, start, trace) && view == TakeAll(src, start, trace)
    ensures rc.Valid()
  {
  }

  lemma Reading(rc: RangeDecoder)
    requires rc.Valid()
    ensures rc.Registers() && ValidReader(rc.start) && ValidReader(rc.View())
    ensures Reads(rc.src, rc.start, rc.trace) && rc.View() == TakeAll(rc.src, rc.start, rc.trace)
  {
  }

  method DummyLiteral(dec: LzmaDecoder, dry: RangeDecoder) returns (ghost byte: Byte)
    requires Beside(dec, dry)
    modifies dry`buf, dry`range, dry`code, dry`trace, dec.rc.probs
    ensures Beside(dec, dry) && dec.rc.probs[..] == old(dec.rc.probs[..])
    ensures dry.trace == old(dry.trace) + Path(LiteralTree(dec.props, dec.Z()), 256 + byte)
  {
    hide RangeDecoder.Valid, Path, NumProbs, LzmaDecoder.DicHolds, LiteralBase, LzmaDecoder.Counters, Reads, TakeAll,
         ValidProbs;
    Reading(dec.rc);
    ghost var view := dec.rc.View();
    var base := dec.LiteralCoder();
    if dec.state < NUM_LIT_STATES {
      byte := dry.LitDecode(base);
    } else {
      var matchByte := dec.Back(dec.reps[0]);
      byte := dry.LitDecodeMatched(base, matchByte);
    }
    Undisturbed(dec.rc, dec.rc.src, dec.rc.start, dec.rc.trace, view);
  }

  method DummyRepeat(dry: RangeDecoder, state: nat, posState: nat) returns (short: bool, ghost index: nat)
    requires dry.Valid() && dry.probs.Length >= LITERAL && state < NUM_STATES && posState < 16 && !dry.learn
    modifies dry`buf, dry`range, dry`code, dry`trace, dry.probs
    ensures dry.Valid() && index < 4 && (short ==> index == 0)
    ensures dry.trace == old(dry.trace) + if short then ShortOps(state, posState) else RepOps(state, posState, index)
    ensures old(dry.buf) <= dry.buf && dry.probs[..] == old(dry.probs[..])
  {
    hide RangeDecoder.Valid;
    short, index := false, 0;
    var bit := dry.GetBit(IS_REP_G0 + state);
    if bit == 0 {
      bit := dry.GetBit(IS_REP0_LONG + state * 16 + posState);
      short := bit == 0;
    } else {
      bit := dry.GetBit(IS_REP_G1 + state);
      index := 1;
      if bit == 1 {
        bit := dry.GetBit(IS_REP_G2 + state);
        index := if bit == 0 then 2 else 3;
      }
    }
  }

  /** What follows the first two decisions of anything but a literal. */
  method DummyBody(dry: RangeDecoder, ghost p: Props, ghost z: Lz, state: nat, posState: nat, isRep: bool)
    returns (ghost t: Symbol)
    requires ValidLz(z) && z.state == state && posState == PosState(p, z) < 16
    requires dry.Valid() && dry.probs.Length >= LITERAL && !dry.learn
    modifies dry`buf, dry`range, dry`code, dry`trace, dry.probs
    ensures ValidSymbol(t) && !t.Literal? && (isRep <==> !t.Match?)
    ensures dry.Valid() && dry.trace == old(dry.trace) + Body(p, z, t)
    ensures old(dry.buf) <= dry.buf && dry.probs[..] == old(dry.probs[..])
  {
    hide RangeDecoder.Valid, LenOps, DistanceOps, RepOps, ShortOps;
    ghost var tr := dry.trace;
    if isRep {
      var short;
      ghost var index;
      short, index := DummyRepeat(dry, state, posState);
      if short {
        t := ShortRep;
      } else {
        var len := dry.LenDecode(REP_LEN_CODER, posState);
        t := Rep(index, len + MATCH_MIN_LEN);
        assert dry.trace == tr + (RepOps(state, posState, index) + LenOps(REP_LEN_CODER, posState, len));
      }
    } else {
      var len := dry.LenDecode(LEN_CODER, posState);
      var distance := dry.DistanceDecode(len);
      t := Match(distance, len + MATCH_MIN_LEN);
      assert dry.trace == tr + (LenOps(LEN_CODER, posState, len) + DistanceOps(len, distance));
    }
  }

  /** All the decisions of the next symbol, with zeros for the bytes that are missing. */
  method DummySymbol(dec: LzmaDecoder, dry: RangeDecoder) returns (res: Dummy, ghost t: Symbol)
    requires Beside(dec, dry) && dry.trace == []
    modifies dry`buf, dry`range, dry`code, dry`trace, dec.rc.probs
    ensures ValidSymbol(t) && res == DummyOf(t) && dry.Valid()
    ensures dry.trace == SymbolOps(dec.props, old(dec.Z()), t)
    ensures dec.rc.probs[..] == old(dec.rc.probs[..])
  {
    hide RangeDecoder.Valid, Path, NumProbs, LzmaDecoder.DicHolds, LzmaDecoder.Counters, Reads, TakeAll, ValidProbs, Body;
    Reading(dec.rc);
    ghost var view, z := dec.rc.View(), dec.Z();
    var posState := dec.PositionState();
    dec.StateBound();
    var bit := dry.GetBit(IS_MATCH + dec.state * 16 + posState);
    Undisturbed(dec.rc, dec.rc.src, dec.rc.start, dec.rc.trace, view);
    if bit == 0 {
      ghost var byte := DummyLiteral(dec, dry);
      res, t := DummyLit, Literal(byte);
    } else {
      bit := dry.GetBit(IS_REP + dec.state);
      t := DummyBody(dry, dec.props, z, dec.state, posState, bit == 1);
      res := if bit == 0 then DummyMatch else DummyRep;
    }
  }

  /** The registers of a decoder that starts on new input. */
  ghost function Registers(rc: RangeDecoder): Reader
    reads rc, rc.probs
  {
    Reader(rc.code, rc.range, 0, rc.probs[..], true)
  }

  /**
   * Which kind of symbol comes next, or DummyError exactly when reading it to its last
   * normalisation takes more bytes than are in hand.
   */
  method TryDummy(dec: LzmaDecoder, buf: seq<Byte>) returns (res: Dummy, ghost t: Symbol)
    requires dec.Valid() && dec.rc.range >= TOP
    modifies dec.rc.probs
    ensures dec.Valid() && dec.rc.probs[..] == old(dec.rc.probs[..]) && ValidReader(Registers(dec.rc))
    ensures ValidSymbol(t) && ReadsSymbol(dec.props, dec.Z(), Registers(dec.rc), buf, t)
    ensures res == DummyError <==> NeedsMore(dec.props, dec.Z(), Registers(dec.rc), buf, t)
    ensures res != DummyError ==> res == DummyOf(t)
  {
    hide LzmaDecoder.DicHolds, LzmaDecoder.Counters, NumProbs, SymbolOps, Reads, TakeAll;
    Reading(dec.rc);
    ghost var view, z := dec.rc.View(), dec.Z();
    var dry := new RangeDecoder(dec.rc.probs, false, dec.rc.range, dec.rc.code, buf, 0);
    res, t := DummySymbol(dec, dry);
    dry.Finish();
    if dry.buf > |buf| {
      res := DummyError;
    }
    Undisturbed(dec.rc, dec.rc.src, dec.rc.start, dec.rc.trace, view);
    SymbolDistinct(dec.props, z, t);
    DryEquals(buf, Registers(dec.rc), SymbolOps(dec.props, z, t));
  }
}
