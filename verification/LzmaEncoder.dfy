// The symbol coder of LzmaEnc.c: trees, lengths, distances and the main loop that turns a
// parse of the data into decisions for the range encoder.

module LzmaEncoders {
  import opened Bytes
  import opened RangeCoding
  import opened Bits
  import opened BitTrees
  import opened LzmaModel
  import opened LzmaPrefixCode
  import opened RangeEncoders

  // ----- distance slots

  lemma SlotEnds()
    ensures SlotBase(2) == 2 && SlotBase(22) == 2048 && DistSlot(0) == 0 && DistSlot(1) == 1
  {
    assert Pow2(10) == 4 * Pow2(8);
    PowersOfTwo();
  }

  lemma SlotsAdjoin(slot: nat)
    requires 2 <= slot < 22
    ensures SlotBase(slot + 1) == SlotBase(slot) + Pow2(slot / 2 - 1) <= 2048
    ensures FooterBits(slot) == slot / 2 - 1
  {
    hide SlotBase, Pow2;
    var n := slot / 2 - 1;
    Pow2Monotone(n, 9);
    Pow512(n);
    SlotBases(slot);
    SlotBases(slot + 1);
  }

  lemma SlotBases(slot: nat)
    requires slot >= 2
    ensures SlotBase(slot) == if slot % 2 == 0 then 2 * Pow2(slot / 2 - 1) else 3 * Pow2(slot / 2 - 1)
  {
  }

  lemma Pow512(n: nat)
    ensures Pow2(9) == 512 && Pow2(n + 1) == 2 * Pow2(n)
  {
    PowersOfTwo();
  }

  // ----- the encoder

  class LzmaEncoder {
    const props: Props
    const rc: RangeEncoder
    const fastPos: array<nat>
    var state: nat
    var reps: seq<nat>

    ghost predicate Valid()
      reads this, rc, rc.probs, fastPos
    {
      && ValidProps(props) && rc.Valid() && rc.probs.Length == NumProbs(props)
      && fastPos as object != rc.probs && TableReady()
      && state < NUM_STATES && |reps| == 4
    }

    ghost predicate TableReady()
      reads fastPos
    {
      fastPos.Length == 2048 && forall c {:trigger fastPos[c]} :: 0 <= c < 2048 ==> fastPos[c] == DistSlot(c)
    }

    constructor (props: Props)
      requires ValidProps(props)
      ensures Valid() && this.props == props && fresh(rc) && fresh(rc.probs) && fresh(fastPos)
      ensures rc.out == [] && rc.trace == [] && state == 0 && reps == [0, 0, 0, 0]
      ensures rc.start == Interval(0, 0xFFFF_FFFF, 0, seq(NumProbs(props), i => 1024))
    {
      this.props := props;
      rc := new RangeEncoder(NumProbs(props));
      fastPos := new nat[2048];
      state, reps := 0, [0, 0, 0, 0];
      new;
      FastPosInit();
    }

    /** Lists the slots of all distances below 2048, size class by size class. */
    method FastPosInit()
      requires fastPos.Length == 2048
      modifies fastPos
      ensures forall c :: 0 <= c < 2048 ==> fastPos[c] == DistSlot(c)
    {
      hide Pow2, DistSlot, SlotBase, FooterBits;
      SlotEnds();
      fastPos[0] := 0;
      fastPos[1] := 1;
      var c := 2;
      for slotFast := 2 to 22
        invariant c == SlotBase(slotFast) <= 2048
        invariant forall j :: 0 <= j < c ==> fastPos[j] == DistSlot(j)
      {
        SlotsAdjoin(slotFast);
        var k := Pow2(slotFast / 2 - 1);
        for j := 0 to k
          invariant c == SlotBase(slotFast) + j
          invariant forall j :: 0 <= j < c ==> fastPos[j] == DistSlot(j)
        {
          SlotUnique(c, slotFast);
          fastPos[c] := slotFast;
          c := c + 1;
        }
      }
    }

    method LitEncode(base: nat, symbol: Byte)
      requires Valid() && base + 256 <= rc.probs.Length
      modifies rc, rc.probs
      ensures Valid() && rc.trace == old(rc.trace) + Path(Plain(base), 256 + symbol)
    {
      hide Path, Shr, Shl, NumProbs, DistSlot, TableReady, RangeEncoder.Valid;
      var sym: nat := symbol + 256;
      ghost var s, i: nat := sym, 0;
      ShlZero(s);
      while sym < 0x1_0000
        invariant i <= 8 && sym == Shl(s, i) && (sym < 0x1_0000 <==> i < 8)
        invariant Valid() && rc.trace == old(rc.trace) + Path(Plain(base), Shr(s, 8 - i))
        decreases 8 - i
      {
        Window(s, i);
        PathChild(Plain(base), Shr(s, 8 - i), Shr(s, 7 - i) % 2);
        rc.EncodeBit(base + sym / 256, sym / 128 % 2);
        sym := sym * 2;
        i := i + 1;
        ShlStep(s, i);
        Window(s, i);
      }
    }

    method LitEncodeMatched(base: nat, symbol: Byte, matchByte: Byte)
      requires Valid() && base + 768 <= rc.probs.Length
      modifies rc, rc.probs
      ensures Valid() && rc.trace == old(rc.trace) + Path(Matched(base, matchByte), 256 + symbol)
    {
      hide Path, Shr, Shl, Depth, Slot, NumProbs, DistSlot, TableReady, RangeEncoder.Valid;
      var sym: nat := symbol + 256;
      var mb: nat := matchByte;
      var offs := 256;
      ghost var s, m, i: nat := sym, mb + 256, 0;
      ghost var tree := Matched(base, matchByte);
      ShlZero(s);
      ShlZero(m);
      ShlZero(256);
      PathRoot(tree);
      while sym < 0x1_0000
        invariant i <= 8 && sym == Shl(s, i) && (sym < 0x1_0000 <==> i < 8)
        invariant mb + Shl(256, i) == Shl(m, i)
        invariant offs == if Shr(s, 8 - i) == Shr(m, 8 - i) then 256 else 0
        invariant Valid() && rc.trace == old(rc.trace) + Path(tree, Shr(s, 8 - i))
        decreases 8 - i
      {
        Window(s, i);
        MatchWindow(matchByte, i);
        mb := mb * 2;
        MatchedChild(base, matchByte, s, i);
        rc.EncodeBit(base + (offs + (if offs == 256 then mb / 256 % 2 * 256 else 0) + sym / 256), sym / 128 % 2);
        sym := sym * 2;
        offs := if offs == 256 && mb / 256 % 2 == sym / 256 % 2 then 256 else 0;
        i := i + 1;
        ShlStep(s, i);
        Window(s, i);
      }
    }

    method TreeEncode(base: nat, numBitLevels: nat, symbol: nat)
      requires Valid() && symbol < Pow2(numBitLevels) && base + Pow2(numBitLevels) <= rc.probs.Length
      modifies rc, rc.probs
      ensures Valid()
      ensures rc.trace == old(rc.trace) + Path(Plain(base), Pow2(numBitLevels) + symbol)
    {
      hide Path, Shr, Depth, NumProbs, DistSlot, TableReady, RangeEncoder.Valid;
      var m: nat := 1;
      var i := numBitLevels;
      NodeRoot(numBitLevels, symbol);
      PathRoot(Plain(base));
      while i != 0
        invariant 0 <= i <= numBitLevels && m == Pow2(numBitLevels - i) + Shr(symbol, i)
        invariant Valid() && rc.trace == old(rc.trace) + Path(Plain(base), m)
      {
        NodeStep(numBitLevels, symbol, i);
        i := i - 1;
        var bit: Bit := Shr(symbol, i) % 2;
        PathChild(Plain(base), m, bit);
        rc.EncodeBit(base + m, bit);
        m := 2 * m + bit;
      }
      NodeRoot(numBitLevels, symbol);
    }

    method TreeReverseEncode(base: nat, numBitLevels: nat, symbol: nat)
      requires Valid() && base + Pow2(numBitLevels) <= rc.probs.Length
      modifies rc, rc.probs
      ensures Valid()
      ensures rc.trace == old(rc.trace) + Path(Plain(base), ReverseNode(numBitLevels, symbol))
    {
      hide Path, Depth, NumProbs, DistSlot, TableReady, RangeEncoder.Valid;
      var m: nat := 1;
      var sym := symbol;
      PathRoot(Plain(base));
      for i := 0 to numBitLevels
        invariant m == ReverseNode(i, symbol) && sym == Shr(symbol, i)
        invariant Valid() && rc.trace == old(rc.trace) + Path(Plain(base), m)
      {
        var bit: Bit := sym % 2;
        Pow2Monotone(i + 1, numBitLevels);
        PathChild(Plain(base), m, bit);
        rc.EncodeBit(base + m, bit);
        m := 2 * m + bit;
        sym := sym / 2;
      }
    }

    method LenEncode(base: nat, symbol: nat, posState: nat)
      requires Valid() && symbol < 272 && posState < 16 && base + 514 <= rc.probs.Length
      modifies rc, rc.probs
      ensures Valid() && rc.trace == old(rc.trace) + LenOps(base, posState, symbol)
    {
      hide Path, NumProbs, DistSlot, TableReady, RangeEncoder.Valid, Pow2, Depth;
      PowersOfTwo();
      if symbol < 8 {
        rc.EncodeBit(base, 0);
        TreeEncode(base + LEN_LOW + posState * 8, 3, symbol);
      } else {
        LongLenEncode(base, symbol, posState);
      }
    }

    /** A length above the lowest eight. */
    method LongLenEncode(base: nat, symbol: nat, posState: nat)
      requires Valid() && 8 <= symbol < 272 && posState < 16 && base + 514 <= rc.probs.Length
      modifies rc, rc.probs
      ensures Valid() && rc.trace == old(rc.trace) + LenOps(base, posState, symbol)
    {
      hide Path, NumProbs, DistSlot, TableReady, RangeEncoder.Valid, Pow2, Depth;
      PowersOfTwo();
      rc.EncodeBit(base, 1);
      if symbol < 16 {
        rc.EncodeBit(base + LEN_CHOICE2, 0);
        TreeEncode(base + LEN_MID + posState * 8, 3, symbol - 8);
      } else {
        rc.EncodeBit(base + LEN_CHOICE2, 1);
        TreeEncode(base + LEN_HIGH, 8, symbol - 16);
      }
    }

    /** The table for distances below 2048, and the two shifted looks into it above 127. */
    method GetPosSlot(pos: nat) returns (slot: nat)
      requires Valid() && pos < MAX_DICTIONARY
      ensures slot == DistSlot(pos)
    {
      if pos < 128 {
        slot := fastPos[pos];
      } else {
        var i := 6 + (if (0x1_FFFF - pos) % WORD / 0x8000_0000 == 1 then 10 else 0);
        SlotShift(pos, i);
        slot := fastPos[Shr(pos, i)] + i * 2;
      }
    }

    /** The low bits of a far distance: all but four of them direct. */
    method EncodeFar(footerBits: nat, posReduced: nat)
      requires Valid() && 5 <= footerBits <= 30 && posReduced < Pow2(footerBits)
      modifies rc, rc.probs
      ensures Valid()
      ensures rc.trace == old(rc.trace)
                          + (DirectPath(footerBits - 4, posReduced / 16) + Path(Plain(ALIGN), ReverseNode(4, posReduced % 16)))
    {
      hide Path, NumProbs, DistSlot, TableReady, RangeEncoder.Valid, ReverseNode, DirectPath;
      PowersOfTwo();
      rc.EncodeDirectBits(posReduced / 16, footerBits - 4);
      TreeReverseEncode(ALIGN, 4, posReduced % 16);
    }

    method EncodeFooter(posSlot: nat, posReduced: nat)
      requires Valid() && posSlot < 64 && posReduced < Pow2(FooterBits(posSlot))
      modifies rc, rc.probs
      ensures Valid() && rc.trace == old(rc.trace) + FooterOps(posSlot, posReduced)
    {
      hide Path, NumProbs, DistSlot, TableReady, RangeEncoder.Valid, ReverseNode, DirectPath;
      PowersOfTwo();
      if posSlot >= 4 {
        var footerBits := posSlot / 2 - 1;
        var base := (2 + posSlot % 2) * Pow2(footerBits);
        if posSlot < 14 {
          ShortFooter(posSlot);
          TreeReverseEncode(SPEC_POS + base - posSlot - 1, footerBits, posReduced);
        } else {
          EncodeFar(footerBits, posReduced);
        }
      }
    }

    method EncodeDistance(len: nat, pos: nat)
      requires Valid() && len >= 2 && pos < MAX_DICTIONARY
      modifies rc, rc.probs
      ensures Valid() && rc.trace == old(rc.trace) + DistanceOps(len - 2, pos)
    {
      hide Path, NumProbs, DistSlot, TableReady, RangeEncoder.Valid, FooterOps, SlotBase, FooterBits, Pow2;
      SlotInterval(pos);
      SlotBelow64(pos);
      PowersOfTwo();
      var posSlot := GetPosSlot(pos);
      var lenState := if len < 5 then len - 2 else 3;
      TreeEncode(POS_SLOT + lenState * 64, 6, posSlot);
      EncodeFooter(posSlot, pos - SlotBase(posSlot));
    }

    // ----- the main loop

    /** The decoder's view of the encoder's registers. */
    ghost predicate At(z: Lz)
      reads this
    {
      z.state == state && z.reps == reps && ValidLz(z)
    }

    method EncodeLiteral(data: seq<Byte>, pos: nat, ghost z: Lz)
      requires Valid() && pos < |data| && At(z) && z.hist == data[..pos]
      modifies this, rc, rc.probs
      ensures Valid() && At(Apply(z, Literal(data[pos])))
      ensures rc.trace == old(rc.trace) + SymbolOps(props, z, Literal(data[pos]))
    {
      hide Path, DistSlot, TableReady, RangeEncoder.Valid, NumProbs;
      LiteralFits(props, z.hist);
      SlotsFit(this, z);
      var posState := pos % Pow2(props.pb);
      rc.EncodeBit(IS_MATCH + state * 16 + posState, 0);
      var base := LITERAL;
      if pos > 0 {
        base := LITERAL + 768 * (pos % Pow2(props.lp) * Pow2(props.lc) + Shr(data[pos - 1], 8 - props.lc));
      }
      if state < NUM_LIT_STATES {
        LitEncode(base, data[pos]);
      } else {
        LitEncodeMatched(base, data[pos], data[pos - reps[0] - 1]);
      }
      state := [0, 0, 0, 0, 1, 2, 3, 4, 5, 6, 4, 5][state];
    }

    /** Which repeated distance, and whether the shortest form with it. */
    method EncodeRepIndex(posState: nat, index: nat, short: bool)
      requires Valid() && posState < 16 && index < 4 && (short ==> index == 0)
      modifies this, rc, rc.probs
      ensures Valid() && state == old(state) && reps == ToFront(old(reps), index)
      ensures rc.trace == old(rc.trace) + if short then ShortOps(state, posState) else RepOps(state, posState, index)
    {
      hide DistSlot, TableReady, RangeEncoder.Valid, NumProbs;
      if index == 0 {
        rc.EncodeBit(IS_REP_G0 + state, 0);
        rc.EncodeBit(IS_REP0_LONG + state * 16 + posState, if short then 0 else 1);
      } else {
        var distance := reps[index];
        rc.EncodeBit(IS_REP_G0 + state, 1);
        if index == 1 {
          rc.EncodeBit(IS_REP_G1 + state, 0);
        } else {
          rc.EncodeBit(IS_REP_G1 + state, 1);
          rc.EncodeBit(IS_REP_G2 + state, index - 2);
          if index == 3 {
            reps := reps[3 := reps[2]];
          }
          reps := reps[2 := reps[1]];
        }
        reps := reps[1 := reps[0]];
        reps := reps[0 := distance];
      }
    }

    method EncodeRep(pos: nat, index: nat, len: nat, ghost z: Lz)
      requires Valid() && At(z) && |z.hist| == pos && pos > 0
      requires index < 4 && 1 <= len <= MATCH_MAX_LEN && (len == 1 ==> index == 0)
      modifies this, rc, rc.probs
      ensures Valid() && At(Apply(z, if len == 1 then ShortRep else Rep(index, len)))
      ensures rc.trace == old(rc.trace) + SymbolOps(props, z, if len == 1 then ShortRep else Rep(index, len))
    {
      hide Path, DistSlot, TableReady, RangeEncoder.Valid, NumProbs, LenOps, Copy, RepOps;
      SlotsFit(this, z);
      ghost var t0, z' := rc.trace, Apply(z, if len == 1 then ShortRep else Rep(index, len));
      var posState := pos % Pow2(props.pb);
      ghost var head := [Model(IS_MATCH + state * 16 + posState, 1), Model(IS_REP + state, 1)];
      rc.EncodeBit(IS_MATCH + state * 16 + posState, 1);
      rc.EncodeBit(IS_REP + state, 1);
      assert rc.trace == t0 + head;
      EncodeRepIndex(posState, index, len == 1);
      if len == 1 {
        state := [9, 9, 9, 9, 9, 9, 9, 11, 11, 11, 11, 11][state];
        Assoc(t0, head, ShortOps(z.state, posState), []);
      } else {
        LenEncode(REP_LEN_CODER, len - 2, posState);
        state := [8, 8, 8, 8, 8, 8, 8, 11, 11, 11, 11, 11][state];
        Assoc(t0, head, RepOps(z.state, posState, index), LenOps(REP_LEN_CODER, posState, len - 2));
      }
    }

    /** The decisions of a match, up to its distance. */
    method EncodeMatchLength(posState: nat, len: nat)
      requires Valid() && posState < 16 && MATCH_MIN_LEN <= len <= MATCH_MAX_LEN
      modifies this`state, rc, rc.probs
      ensures Valid() && state == MatchState(old(state))
      ensures rc.trace == old(rc.trace)
                          + [Model(IS_MATCH + old(state) * 16 + posState, 1), Model(IS_REP + old(state), 0)]
                          + LenOps(LEN_CODER, posState, len - 2)
    {
      hide DistSlot, TableReady, RangeEncoder.Valid, NumProbs, LenOps;
      rc.EncodeBit(IS_MATCH + state * 16 + posState, 1);
      rc.EncodeBit(IS_REP + state, 0);
      state := [7, 7, 7, 7, 7, 7, 7, 10, 10, 10, 10, 10][state];
      LenEncode(LEN_CODER, len - 2, posState);
    }

    method EncodeMatch(pos: nat, distance: nat, len: nat, ghost z: Lz)
      requires Valid() && At(z) && |z.hist| == pos
      requires distance < MAX_DICTIONARY && distance < pos && MATCH_MIN_LEN <= len <= MATCH_MAX_LEN
      modifies this, rc, rc.probs
      ensures Valid() && At(Apply(z, Match(distance, len)))
      ensures rc.trace == old(rc.trace) + SymbolOps(props, z, Match(distance, len))
    {
      hide Path, DistSlot, TableReady, RangeEncoder.Valid, NumProbs, LenOps, Copy, DistanceOps;
      SlotsFit(this, z);
      var posState := pos % Pow2(props.pb);
      Assoc(rc.trace, [Model(IS_MATCH + state * 16 + posState, 1), Model(IS_REP + state, 0)],
            LenOps(LEN_CODER, posState, len - 2), DistanceOps(len - 2, distance));
      EncodeMatchLength(posState, len);
      EncodeDistance(len, distance);
      reps := reps[3 := reps[2]];
      reps := reps[2 := reps[1]];
      reps := reps[1 := reps[0]];
      reps := reps[0 := distance];
    }

    /** The loop body of LzmaEnc_CodeOneBlock for one choice of the parser. */
    method EncodeDecision(data: seq<Byte>, pos: nat, len: nat, back: nat, ghost z: Lz)
      requires Valid() && At(z) && pos < |data| && z.hist == data[..pos]
      requires Encodable(z, len, back)
      modifies this, rc, rc.probs
      ensures Valid() && At(Apply(z, ToSymbol(data, pos, len, back)))
      ensures rc.trace == old(rc.trace) + SymbolOps(props, z, ToSymbol(data, pos, len, back))
    {
      hide SymbolOps, Apply, RangeEncoder.Valid, TableReady, DistSlot, NumProbs;
      if len == 1 && back == LITERAL_BACK {
        EncodeLiteral(data, pos, z);
      } else if back < 4 {
        EncodeRep(pos, back, len, z);
      } else {
        EncodeMatch(pos, back - 4, len, z);
      }
    }

    /** LZe_full_flush up to the trailer: the end marker, then the last bytes. */
    method FullFlush(pos: nat, ghost z: Lz)
      requires Valid() && At(z) && |z.hist| == pos
      modifies this, rc, rc.probs
      ensures BigEndian(rc.out) == CodeAll(rc.start, old(rc.trace) + SymbolOps(props, z, MARKER)).low
      ensures |rc.out| == 5 + CodeAll(rc.start, old(rc.trace) + SymbolOps(props, z, MARKER)).shifts
    {
      EncodeMarker(pos, z);
      assert rc.View() == CodeAll(rc.start, rc.trace);
      rc.FlushData();
    }

    method EncodeMarker(pos: nat, ghost z: Lz)
      requires Valid() && At(z) && |z.hist| == pos
      modifies this, rc, rc.probs
      ensures Valid() && rc.trace == old(rc.trace) + SymbolOps(props, z, MARKER)
    {
      hide Path, DistSlot, TableReady, RangeEncoder.Valid, NumProbs, LenOps, DirectPath, ReverseNode, DistanceOps;
      SlotsFit(this, z);
      PowersOfTwo();
      var posState := pos % Pow2(props.pb);
      Assoc(rc.trace, [Model(IS_MATCH + state * 16 + posState, 1), Model(IS_REP + state, 0)],
            LenOps(LEN_CODER, posState, 0), DistanceOps(0, END_MARKER));
      EncodeMatchLength(posState, MATCH_MIN_LEN);
      EncodeMarkerDistance();
    }

    method EncodeMarkerDistance()
      requires Valid()
      modifies rc, rc.probs
      ensures Valid() && rc.trace == old(rc.trace) + DistanceOps(0, END_MARKER)
    {
      hide Path, DistSlot, TableReady, RangeEncoder.Valid, NumProbs, DirectPath, ReverseNode;
      PowersOfTwo();
      MarkerSlot();
      ghost var t0 := rc.trace;
      TreeEncode(POS_SLOT, 6, 63);
      rc.EncodeDirectBits(0x3FF_FFFF, 26);
      TreeReverseEncode(ALIGN, 4, 15);
      Assoc(t0, Path(Plain(POS_SLOT), 127), DirectPath(26, 0x3FF_FFFF), Path(Plain(ALIGN), ReverseNode(4, 15)));
    }

    /**
     * The whole member: whatever true parse the parser chose, the bytes written are the
     * stream of its symbols, and these play back the data.
     */
    method Encode(data: seq<Byte>, decisions: seq<Decision>)
      requires Valid() && At(START) && rc.trace == [] && rc.start == StartInterval(props)
      requires TrueParse(data, START, decisions)
      modifies this, rc, rc.probs
      ensures var syms := Symbols(data, START, decisions);
              && Playable(START, syms) && Run(START, syms).hist == data
              && IsStream(props, syms, rc.out)
    {
      hide SymbolOps, Apply, RangeEncoder.Valid, TableReady, DistSlot, NumProbs, ToSymbol, Encodable, Progress,
           Playable, Run, AllOps;
      var pos := 0;
      ghost var z, syms := START, [];
      ProgressEnds(props, data, decisions);
      for k := 0 to |decisions|
        invariant pos == |z.hist| && ValidLz(z) && Progress(data, decisions, k, z, syms)
        invariant Playable(START, syms)
        invariant Valid() && At(z) && rc.trace == AllOps(props, START, syms)
        invariant rc.start == StartInterval(props)
      {
        var len, back := decisions[k].len, decisions[k].back;
        ProgressStep(props, data, decisions, k, z, syms);
        EncodeDecision(data, pos, len, back, z);
        ghost var s := ToSymbol(data, pos, len, back);
        z, syms := Apply(z, s), syms + [s];
        pos := pos + len;
      }
      ProgressDone(data, decisions, z, syms);
      FullFlush(pos, z);
    }
  }

  // ----- parses

  const LITERAL_BACK := 0xFFFF_FFFF

  /** What the parser returns: a length, and a repeat index, 4 + distance, or -1 for a literal. */
  datatype Decision = Decision(len: nat, back: nat)

  function ToSymbol(data: seq<Byte>, pos: nat, len: nat, back: nat): Symbol
    requires pos < |data|
  {
    if len == 1 && back == LITERAL_BACK then Literal(data[pos])
    else if back < 4 then if len == 1 then ShortRep else Rep(back, len)
    else Match(back - 4, len)
  }

  /** A choice that the coder can express: a short form only for the last distance. */
  predicate Encodable(z: Lz, len: nat, back: nat) {
    if back == LITERAL_BACK then len == 1
    else if back < 4 then z.hist != [] && 1 <= len <= MATCH_MAX_LEN && (len == 1 ==> back == 0)
    else MATCH_MIN_LEN <= len <= MATCH_MAX_LEN && back - 4 < |z.hist| && back - 4 < MAX_DICTIONARY
  }

  /** A parse that is true of the data: each choice is expressible and reproduces its bytes. */
  predicate TrueParse(data: seq<Byte>, z: Lz, decisions: seq<Decision>)
    requires ValidLz(z)
    decreases decisions
  {
    if decisions == [] then z.hist == data
    else
      var d := decisions[0];
      && z.hist < data && Encodable(z, d.len, d.back)
      && var next := Apply(z, ToSymbol(data, |z.hist|, d.len, d.back));
         next.hist <= data && TrueParse(data, next, decisions[1..])
  }

  function Symbols(data: seq<Byte>, z: Lz, decisions: seq<Decision>): (r: seq<Symbol>)
    requires ValidLz(z) && TrueParse(data, z, decisions)
    ensures |r| == |decisions|
    decreases decisions
  {
    if decisions == [] then [] else
      var s := ToSymbol(data, |z.hist|, decisions[0].len, decisions[0].back);
      [s] + Symbols(data, Apply(z, s), decisions[1..])
  }

  lemma TrueStep(data: seq<Byte>, z: Lz, decisions: seq<Decision>)
    requires ValidLz(z) && decisions != [] && TrueParse(data, z, decisions)
    ensures var s := ToSymbol(data, |z.hist|, decisions[0].len, decisions[0].back);
            && ValidSymbol(s) && Refers(z, s) && Length(s) == decisions[0].len
            && z.hist == data[..|z.hist|] && TrueParse(data, Apply(z, s), decisions[1..])
            && Symbols(data, z, decisions) == [s] + Symbols(data, Apply(z, s), decisions[1..])
    ensures Encodable(z, decisions[0].len, decisions[0].back)
  {
  }

  /** After k choices: z and syms are what they made, and the rest is still a true parse. */
  ghost predicate Progress(data: seq<Byte>, decisions: seq<Decision>, k: nat, z: Lz, syms: seq<Symbol>)
    requires k <= |decisions| && ValidLz(z)
  {
    && TrueParse(data, START, decisions) && TrueParse(data, z, decisions[k..])
    && Playable(START, syms) && z == Run(START, syms)
    && syms + Symbols(data, z, decisions[k..]) == Symbols(data, START, decisions)
  }

  lemma ProgressEnds(p: Props, data: seq<Byte>, decisions: seq<Decision>)
    requires ValidProps(p) && TrueParse(data, START, decisions)
    ensures Progress(data, decisions, 0, START, []) && Playable(START, []) && AllOps(p, START, []) == []
  {
    assert decisions[0..] == decisions;
  }

  lemma ProgressDone(data: seq<Byte>, decisions: seq<Decision>, z: Lz, syms: seq<Symbol>)
    requires ValidLz(z) && Progress(data, decisions, |decisions|, z, syms)
    ensures syms == Symbols(data, START, decisions) && z == Run(START, syms) && z.hist == data
  {
  }

  lemma ProgressStep(p: Props, data: seq<Byte>, decisions: seq<Decision>, k: nat, z: Lz, syms: seq<Symbol>)
    requires ValidProps(p) && k < |decisions| && ValidLz(z) && Progress(data, decisions, k, z, syms)
    ensures |z.hist| < |data| && z.hist == data[..|z.hist|] && Encodable(z, decisions[k].len, decisions[k].back)
    ensures var s := ToSymbol(data, |z.hist|, decisions[k].len, decisions[k].back);
            && ValidSymbol(s) && Refers(z, s) && Length(s) == decisions[k].len
            && Progress(data, decisions, k + 1, Apply(z, s), syms + [s])
            && Playable(START, syms) && Playable(START, syms + [s])
            && AllOps(p, START, syms + [s]) == AllOps(p, START, syms) + SymbolOps(p, z, s)
  {
    hide SymbolOps, Apply, Encodable, AllOps, Playable, Run;
    var rest := decisions[k..];
    assert rest[0] == decisions[k] && rest[1..] == decisions[k + 1..];
    TrueStep(data, z, rest);
    var s := ToSymbol(data, |z.hist|, decisions[k].len, decisions[k].back);
    RunSnoc(p, START, syms, s);
    assert syms + Symbols(data, z, rest) == (syms + [s]) + Symbols(data, Apply(z, s), decisions[k + 1..]);
  }

  lemma Assoc<T>(a: seq<T>, b: seq<T>, c: seq<T>, d: seq<T>)
    ensures a + b + c + d == a + (b + (c + d))
    ensures d == [] ==> a + b + c == a + (b + c)
  {
  }

  /** The slots outside the literal coders exist. */
  lemma SlotsFit(enc: LzmaEncoder, z: Lz)
    requires enc.Valid() && ValidLz(z)
    ensures PosState(enc.props, z) < 16
    ensures enc.rc.probs.Length >= LITERAL
  {
    PowersOfTwo();
    Pow2Monotone(enc.props.pb, 4);
    assert |z.hist| % Pow2(enc.props.pb) < Pow2(enc.props.pb);
  }

  lemma NodeRoot(n: nat, symbol: nat)
    requires symbol < Pow2(n)
    ensures Pow2(0) == 1 && Shr(symbol, n) == 0 && Shr(symbol, 0) == symbol
  {
    ShrSmall(symbol, n);
  }

  lemma NodeStep(n: nat, symbol: nat, i: nat)
    requires symbol < Pow2(n) && 0 < i <= n
    ensures Pow2(n - i + 1) + Shr(symbol, i - 1) == 2 * (Pow2(n - i) + Shr(symbol, i)) + Shr(symbol, i - 1) % 2
    ensures 1 <= Pow2(n - i) + Shr(symbol, i) < Pow2(n)
  {
    ShrBound(symbol, i, n - i);
    Pow2Monotone(n - i + 1, n);
  }

  /** The slot of a distance from the slot of its leading bits. */
  lemma {:induction false} SlotHalves(d: nat, i: nat)
    requires Shr(d, i) >= 2
    ensures DistSlot(d) == DistSlot(Shr(d, i)) + 2 * i
  {
    if i > 0 {
      SlotHalves(d, i - 1);
    }
  }

  lemma SlotShift(d: nat, i: nat)
    requires 128 <= d < MAX_DICTIONARY
    requires i == 6 + (if (0x1_FFFF - d) % WORD / 0x8000_0000 == 1 then 10 else 0)
    ensures Shr(d, i) < 2048 && DistSlot(d) == DistSlot(Shr(d, i)) + i * 2
  {
    ShrBytes(d);
    if d <= 0x1_FFFF {
      assert Shr(d, 6) == d / 64;
      SlotHalves(d, 6);
    } else {
      ShrBytes(Shr(d, 8));
      ShrShr(d, 8, 8);
      assert Shr(d, 16) == d / 256 / 256;
      SlotHalves(d, 16);
    }
  }

  lemma {:induction false} ShrShr(v: nat, i: nat, j: nat)
    ensures Shr(Shr(v, i), j) == Shr(v, i + j)
  {
    if j > 0 {
      ShrShr(v, i, j - 1);
    }
  }

  lemma NodeDepth(s: nat, i: nat)
    requires 256 <= s < 512 && i <= 8
    ensures Depth(Shr(s, 8 - i)) == i
    decreases 8 - i
  {
    if i < 8 {
      NodeDepth(s, i + 1);
      Window(s, i);
    } else {
      PowersOfTwo();
      DepthRange(s, 8);
    }
  }

  /** The walk through a matched tree one node on, and the slot of the decision there. */
  lemma MatchedChild(base: nat, byte: Byte, s: nat, i: nat)
    requires 256 <= s < 512 && i < 8
    ensures var tree, node := Matched(base, byte), Shr(s, 8 - i);
            var third := if node == Shr(256 + byte, 8 - i) then 256 + Shr(256 + byte, 7 - i) % 2 * 256 else 0;
            Path(tree, Shr(s, 7 - i)) == Path(tree, node) + [Model(base + third + node, Shr(s, 7 - i) % 2)]
  {
    hide Path, Shr, Shl, Depth;
    Window(s, i);
    NodeDepth(s, i);
    PathChild(Matched(base, byte), Shr(s, 8 - i), Shr(s, 7 - i) % 2);
  }

  lemma ShlZero(s: nat)
    ensures Shl(s, 0) == s && Shr(s, 0) == s
    ensures 256 <= s < 512 ==> Shr(s, 8) == 1
  {
    ShrBytes(s);
  }

  lemma ShlStep(s: nat, i: nat)
    requires i >= 1
    ensures Shl(s, i) == 2 * Shl(s, i - 1)
  {
  }
}
