// LzmaDec.c: one symbol, runs of symbols, and the circular dictionary they write.

module LzmaDecoders {
  import opened Bytes
  import opened RangeCoding
  import opened Bits
  import opened BitTrees
  import opened LzmaModel
  import opened LzmaPrefixCode
  import opened SymbolCost
  import opened RangeDecoders
  import opened DryRun
  import opened LzmaStreams

  /** remainLen from here on means the end marker was read. */
  const MATCH_SPEC_LEN_START := 274

  datatype Outcome = Decoded | Marker | Corrupt

  function ZeroBased(reps: seq<nat>): (r: seq<nat>)
    requires |reps| == 4 && forall i :: 0 <= i < 4 ==> reps[i] >= 1
    ensures |r| == 4
  {
    [reps[0] - 1, reps[1] - 1, reps[2] - 1, reps[3] - 1]
  }

  /** Repeated distances, counted from 1, stay inside the output and the dictionary. */
  predicate RepsWithin(reps: seq<nat>, put: nat, size: nat) {
    |reps| == 4 && forall i :: 0 <= i < 4 ==> 1 <= reps[i] <= size && (reps[i] == 1 || reps[i] <= put)
  }

  lemma RepsToFront(reps: seq<nat>, put: nat, size: nat, i: nat)
    requires RepsWithin(reps, put, size) && i < 4
    ensures RepsWithin(ToFront(reps, i), put, size)
  {
  }

  lemma ZeroBasedFront(reps: seq<nat>, i: nat)
    requires |reps| == 4 && i < 4 && forall i :: 0 <= i < 4 ==> reps[i] >= 1
    ensures |ToFront(reps, i)| == 4 && forall k :: 0 <= k < 4 ==> ToFront(reps, i)[k] >= 1
    ensures ZeroBased(ToFront(reps, i)) == ToFront(ZeroBased(reps), i)
    ensures ToFront(reps, i)[0] - 1 == ZeroBased(reps)[i] && (i == 0 ==> ToFront(reps, i) == reps)
  {
  }

  lemma ZeroBasedShift(reps: seq<nat>, d: nat)
    requires |reps| == 4 && forall i :: 0 <= i < 4 ==> reps[i] >= 1
    ensures ZeroBased([d + 1, reps[0], reps[1], reps[2]]) == [d] + ZeroBased(reps)[..3]
    ensures reps[3 := reps[2]][2 := reps[1]][1 := reps[0]][0 := d + 1] == [d + 1, reps[0], reps[1], reps[2]]
  {
  }

  /** The 32-bit test for a straight copy gives the right answer. */
  predicate SumTestRight(dicBufSize: nat, pos: nat, curLen: nat) {
    (pos + curLen) % WORD <= dicBufSize <==> pos + curLen <= dicBufSize
  }

  lemma SumFits(dicBufSize: nat, pos: nat, curLen: nat)
    requires MIN_DICTIONARY <= dicBufSize < WORD && pos < dicBufSize && curLen <= MATCH_MAX_LEN
    ensures SumTestRight(dicBufSize, pos, curLen) <==> pos + curLen < WORD
  {
  }

  /** The largest dictionary for which the test is right wherever a match may start. */
  lemma StraightTestRight(dicBufSize: nat)
    requires MIN_DICTIONARY <= dicBufSize < WORD
    ensures (forall pos: nat, curLen: nat :: pos < dicBufSize && curLen <= MATCH_MAX_LEN ==> SumTestRight(dicBufSize, pos, curLen))
            <==> dicBufSize <= LARGEST_DICTIONARY
  {
    if dicBufSize > LARGEST_DICTIONARY {
      SumFits(dicBufSize, dicBufSize - 1, MATCH_MAX_LEN);
    }
  }

  class LzmaDecoder {
    const props: Props
    const dicBufSize: nat
    const dic: array<Byte>
    const rc: RangeDecoder
    var dicPos: nat
    var processedPos: nat
    var checkDicSize: nat
    var state: nat
    var reps: seq<nat>
    var remainLen: nat

    /** Everything put out so far. */
    ghost var hist: seq<Byte>

    /** Where the dictionary keeps the byte put out k bytes ago. */
    function Index(k: nat): int
      reads this`dicPos
    {
      if k <= dicPos then dicPos - k else dicPos - k + dicBufSize
    }

    /** The dictionary holds the last dicBufSize bytes of the output, around a circle. */
    ghost predicate DicHolds()
      reads this`dicPos, this`hist, dic
    {
      && dic.Length == dicBufSize && MIN_DICTIONARY <= dicBufSize <= LARGEST_DICTIONARY && dicPos <= dicBufSize
      && forall k :: 1 <= k <= |hist| && k <= dicBufSize ==> dic[Index(k)] == hist[|hist| - k]
    }

    ghost predicate Counters()
      reads this`processedPos, this`checkDicSize, this`hist
    {
      && processedPos == |hist| % WORD
      && (checkDicSize == 0 || checkDicSize == dicBufSize)
      && if checkDicSize == 0 then |hist| <= dicBufSize else dicBufSize <= |hist|
    }

    ghost predicate Distances()
      reads this`state, this`reps, this`hist
    {
      && state < NUM_STATES && RepsWithin(reps, |hist|, dicBufSize)
      && (state >= NUM_LIT_STATES ==> hist != [])
    }

    ghost predicate Valid()
      reads this`dicPos, this`processedPos, this`checkDicSize, this`state, this`reps, this`hist, dic, rc, rc.probs
    {
      && ValidProps(props) && rc.Valid() && rc.learn && rc.probs.Length == NumProbs(props)
      && dic as object != rc.probs
      && DicHolds() && Counters() && Distances()
    }

    /** The coder's view of this decoder between symbols. */
    ghost function Z(): (z: Lz)
      reads this`state, this`reps, this`hist
      requires Distances()
      ensures ValidLz(z)
    {
      Lz(state, ZeroBased(reps), hist)
    }

    constructor (props: Props, dicBufSize: nat, rc: RangeDecoder)
      requires ValidProps(props) && MIN_DICTIONARY <= dicBufSize <= LARGEST_DICTIONARY
      requires rc.Valid() && rc.learn && rc.probs.Length == NumProbs(props)
      ensures Valid() && this.props == props && this.dicBufSize == dicBufSize && this.rc == rc
      ensures Z() == START && remainLen == 0 && checkDicSize == 0 && fresh(dic)
    {
      this.props, this.dicBufSize, this.rc := props, dicBufSize, rc;
      dic := new Byte[dicBufSize];
      dicPos, processedPos, checkDicSize, remainLen := 0, 0, 0, 0;
      state, reps, hist := 0, [1, 1, 1, 1], [];
    }

    // ----- the dictionary

    /** dic[dicPos++] = b */
    method PutByte(b: Byte)
      requires DicHolds() && dicPos < dicBufSize
      modifies this`dicPos, this`hist, dic
      ensures DicHolds() && dicPos == old(dicPos) + 1 && hist == old(hist) + [b]
    {
      ghost var pos0, hist0 := dicPos, hist;
      dic[dicPos] := b;
      dicPos := dicPos + 1;
      hist := hist + [b];
      forall k | 1 <= k <= |hist| && k <= dicBufSize
        ensures dic[Index(k)] == hist[|hist| - k]
      {
        if k > 1 {
          assert Index(k) == old(Index(k - 1));
          assert Index(k) != pos0;
        }
      }
    }

    /** The byte `distance` back, as the copies index it. */
    method Back(distance: nat) returns (b: Byte)
      requires DicHolds() && 1 <= distance <= |hist| && distance <= dicBufSize
      ensures b == hist[|hist| - distance]
    {
      b := dic[dicPos - distance + (if dicPos < distance then dicBufSize else 0)];
      assert b == dic[Index(distance)];
    }

    /** At the end of the dictionary, writing goes on at its start. */
    method WrapAround()
      requires Valid()
      modifies this`dicPos
      ensures Valid() && dicPos < dicBufSize && (old(dicPos) < dicBufSize ==> dicPos == old(dicPos))
    {
      hide RangeDecoder.Valid, NumProbs;
      if dicPos == dicBufSize {
        dicPos := 0;
        forall k | 1 <= k <= |hist| && k <= dicBufSize
          ensures dic[Index(k)] == hist[|hist| - k]
        {
          assert Index(k) == old(Index(k));
        }
      }
    }

    /** The byte-by-byte copy of LzmaDec_WriteRem. */
    method CopyBytes(distance: nat, len: nat)
      requires DicHolds() && 1 <= distance <= |hist| && distance <= dicBufSize
      requires dicPos + len <= dicBufSize
      modifies this`dicPos, this`hist, dic
      ensures DicHolds() && dicPos == old(dicPos) + len && hist == Copy(old(hist), distance - 1, len)
    {
      hide DicHolds;
      for i := 0 to len
        invariant DicHolds() && dicPos == old(dicPos) + i && hist == Copy(old(hist), distance - 1, i)
      {
        var b := Back(distance);
        PutByte(b);
      }
    }

    /** The copy inside LzmaDec_DecodeReal, whose test adds in 32 bits: straight when the source does not wrap, else around the end. */
    method CopyMatch(distance: nat, curLen: nat)
      requires DicHolds() && 1 <= distance <= |hist| && distance <= dicBufSize
      requires dicPos + curLen <= dicBufSize && 1 <= curLen <= MATCH_MAX_LEN
      modifies this`dicPos, this`hist, dic
      ensures DicHolds() && dicPos == old(dicPos) + curLen && hist == Copy(old(hist), distance - 1, curLen)
    {
      var pos := dicPos - distance + (if dicPos < distance then dicBufSize else 0);
      ghost var hist0, pos0 := hist, dicPos;
      SumFits(dicBufSize, pos, curLen);
      if (pos + curLen) % WORD <= dicBufSize {
        CopyStraight(distance, curLen, pos);
      } else {
        CopyAround(distance, curLen, pos);
      }
    }

    /** The copy of a match that does not pass the end of the dictionary. */
    method CopyStraight(distance: nat, curLen: nat, pos: nat)
      requires DicHolds() && 1 <= distance <= |hist| && distance <= dicBufSize && pos == Index(distance)
      requires dicPos + curLen <= dicBufSize && pos + curLen <= dicBufSize
      modifies this`dicPos, this`hist, dic
      ensures DicHolds() && dicPos == old(dicPos) + curLen && hist == Copy(old(hist), distance - 1, curLen)
    {
      ghost var hist0, pos0 := hist, dicPos;
      var src := pos - dicPos;
      var lim := dicPos + curLen;
      while dicPos < lim
        invariant DicHolds() && pos0 <= dicPos <= lim && src == pos - pos0
        invariant hist == Copy(hist0, distance - 1, dicPos - pos0)
      {
        assert dicPos + src == Index(distance);
        PutByte(dic[dicPos + src]);
      }
    }

    /** The copy of a match that goes on at the front of the dictionary. */
    method CopyAround(distance: nat, curLen: nat, start: nat)
      requires DicHolds() && 1 <= distance <= |hist| && distance <= dicBufSize && start == Index(distance)
      requires dicPos + curLen <= dicBufSize
      modifies this`dicPos, this`hist, dic
      ensures DicHolds() && dicPos == old(dicPos) + curLen && hist == Copy(old(hist), distance - 1, curLen)
    {
      ghost var hist0, pos0 := hist, dicPos;
      var pos, n := start, curLen;
      while n != 0
        invariant 0 <= n <= curLen && DicHolds() && dicPos == pos0 + (curLen - n)
        invariant n != 0 ==> pos == Index(distance) < dicBufSize
        invariant hist == Copy(hist0, distance - 1, curLen - n)
      {
        PutByte(dic[pos]);
        pos := pos + 1;
        if pos == dicBufSize {
          pos := 0;
        }
        n := n - 1;
      }
    }

    // ----- one symbol

    /** The state once the `len` bytes still owed by the last match are put out. */
    ghost function Owing(len: nat): (z: Lz)
      reads this`state, this`reps, this`hist
      requires Distances() && (len > 0 ==> hist != [])
      ensures ValidLz(z)
    {
      CopyValid(Z(), len);
      Lz(state, ZeroBased(reps), if len == 0 then hist else Copy(hist, reps[0] - 1, len))
    }

    /** There is room for at least one byte below the limit, and the first fill is not overrun. */
    ghost predicate Room(limit: nat)
      reads this`dicPos, this`checkDicSize, this`hist
    {
      dicPos < limit <= dicBufSize && (checkDicSize == 0 ==> |hist| + (limit - dicPos) <= dicBufSize)
    }

    /** processedPos counts, in 32 bits, the n bytes just put out. */
    method Advance(n: nat, ghost before: nat)
      requires processedPos == before % WORD && |hist| == before + n
      requires checkDicSize == 0 || checkDicSize == dicBufSize
      requires if checkDicSize == 0 then |hist| <= dicBufSize else dicBufSize <= |hist|
      modifies this`processedPos
      ensures Counters()
    {
      CounterAdd(before, n);
      processedPos := (processedPos + n) % WORD;
    }

    /** The test for "nothing put out yet". */
    lemma Started()
      requires Counters() && dicBufSize < WORD
      ensures checkDicSize != 0 || processedPos != 0 <==> hist != []
      ensures if checkDicSize == 0 then processedPos == |hist| <= dicBufSize else checkDicSize == dicBufSize <= |hist|
    {
    }

    /** The literal coder that LiteralBase describes. */
    method LiteralCoder() returns (base: nat)
      requires Valid()
      ensures base == LiteralBase(props, hist) && base + 768 <= rc.probs.Length
    {
      hide RangeDecoder.Valid, NumProbs, Counters, Distances;
      LiteralFits(props, hist);
      Started();
      CounterMask(props.lp);
      base := LITERAL;
      if checkDicSize != 0 || processedPos != 0 {
        var prev := dic[(if dicPos == 0 then dicBufSize else dicPos) - 1];
        assert prev == dic[Index(1)];
        base := LITERAL + 768 * (processedPos % Pow2(props.lp) * Pow2(props.lc) + Shr(prev, 8 - props.lc));
      }
    }

    lemma CounterMask(n: nat)
      requires Counters() && n <= 4
      ensures processedPos % Pow2(n) == |hist| % Pow2(n)
    {
      MaskWord(|hist|, n);
    }

    method DecodeLiteral() returns (byte: Byte)
      requires Valid() && Room(dicPos + 1)
      modifies this`dicPos, this`processedPos, this`state, this`hist, dic
      modifies rc`buf, rc`range, rc`code, rc`trace, rc.probs
      ensures Valid() && dicPos == old(dicPos) + 1
      ensures Z() == Apply(old(Z()), Literal(byte))
      ensures rc.trace == old(rc.trace) + Path(LiteralTree(props, old(Z())), 256 + byte)
      ensures |hist| - dicPos == old(|hist| - dicPos)
      ensures old(rc.buf) <= rc.buf
    {
      hide RangeDecoder.Valid, Path, NumProbs, DicHolds, LiteralBase, LiteralTree;
      byte := ReadLiteral();
      ghost var h := |hist|;
      InBounds();
      PutByte(byte);
      Advance(1, h);
    }

    /** The tree walk for a literal, and the state behind it. */
    method ReadLiteral() returns (byte: Byte)
      requires Valid()
      modifies this`state
      modifies rc`buf, rc`range, rc`code, rc`trace, rc.probs
      ensures Valid() && state == LiteralState(old(state)) && old(rc.buf) <= rc.buf
      ensures rc.trace == old(rc.trace) + Path(LiteralTree(props, old(Z())), 256 + byte)
    {
      hide RangeDecoder.Valid, Path, NumProbs, DicHolds, LiteralBase, Counters;
      var base := LiteralCoder();
      if state < NUM_LIT_STATES {
        byte := rc.LitDecode(base);
        state := state - (if state < 4 then state else 3);
      } else {
        var matchByte := Back(reps[0]);
        byte := rc.LitDecodeMatched(base, matchByte);
        state := state - (if state < 10 then 3 else 6);
      }
    }

    lemma InBounds()
      requires DicHolds()
      ensures dicPos <= dicBufSize < WORD
    {
    }

    lemma RepsLength()
      requires Distances()
      ensures |reps| == 4
    {
    }

    /** Which repeated distance; `short` when it stands for a single byte. */
    method ReadRep(posState: nat) returns (short: bool, ghost index: nat)
      requires Valid() && posState < 16 && hist != []
      modifies this`reps, rc`buf, rc`range, rc`code, rc`trace, rc.probs
      ensures Valid() && index < 4 && (short ==> index == 0) && reps == ToFront(old(reps), index)
      ensures rc.trace == old(rc.trace) + if short then ShortOps(state, posState) else RepOps(state, posState, index)
      ensures old(rc.buf) <= rc.buf
    {
      hide RangeDecoder.Valid, NumProbs, DicHolds, Counters, RepsWithin;
      RepsLength();
      short, index := false, 0;
      ghost var reps0 := reps;
      var bit := rc.GetBit(IS_REP_G0 + state);
      if bit == 0 {
        var long := rc.GetBit(IS_REP0_LONG + state * 16 + posState);
        short := long == 0;
      } else {
        var distance;
        var bit1 := rc.GetBit(IS_REP_G1 + state);
        if bit1 == 0 {
          index := 1;
          distance := reps[1];
        } else {
          var bit2 := rc.GetBit(IS_REP_G2 + state);
          if bit2 == 0 {
            index := 2;
            distance := reps[2];
          } else {
            index := 3;
            distance := reps[3];
            reps := reps[3 := reps[2]];
          }
          reps := reps[2 := reps[1]];
        }
        reps := reps[1 := reps[0]];
        reps := reps[0 := distance];
      }
      assert reps == ToFront(reps0, index);
      RepsToFront(reps0, |hist|, dicBufSize, index);
    }

    /** Copies as much of a match as fits below the limit; the rest stays owing. */
    method CopyTail(limit: nat, total: nat) returns (len: nat)
      requires Valid() && Room(limit) && 1 <= total <= MATCH_MAX_LEN && hist != []
      modifies this`dicPos, this`processedPos, this`hist, dic
      ensures Valid() && old(dicPos) < dicPos <= limit && (len > 0 ==> dicPos == limit) && hist != []
      ensures len < total && Owing(len) == old(Owing(total))
      ensures |hist| - dicPos == old(|hist| - dicPos)
    {
      hide RangeDecoder.Valid, DicHolds, Copy, NumProbs;
      InBounds();
      ghost var h := |hist|;
      var rem := limit - dicPos;
      var curLen := if rem < total then rem else total;
      len := total - curLen;
      CopyAdd(hist, reps[0] - 1, curLen, len);
      CopyMatch(reps[0], curLen);
      assert Distances();
      Advance(curLen, h);
    }

    method DecodeRep(limit: nat, posState: nat) returns (len: nat, ghost s: Symbol)
      requires Valid() && Room(limit) && hist != [] && posState == PosState(props, Z()) < 16
      modifies this`dicPos, this`processedPos, this`state, this`reps, this`hist, dic
      modifies rc`buf, rc`range, rc`code, rc`trace, rc.probs
      ensures Valid() && old(dicPos) < dicPos <= limit && (len > 0 ==> dicPos == limit && hist != [])
      ensures ValidSymbol(s) && (s.Rep? || s.ShortRep?) && len < MATCH_SPEC_LEN_START
      ensures Owing(len) == Apply(old(Z()), s)
      ensures rc.trace == old(rc.trace) + Body(props, old(Z()), s)
      ensures |hist| - dicPos == old(|hist| - dicPos)
      ensures old(rc.buf) <= rc.buf
    {
      hide RangeDecoder.Valid, NumProbs, DicHolds, Counters, LenOps, RepOps, ShortOps, Copy, ZeroBased, ToFront;
      InBounds();
      var short;
      ghost var index;
      short, index := ReadRep(posState);
      ZeroBasedFront(old(reps), index);
      if short {
        s := ShortRep;
        CopyByte();
        state := if state < NUM_LIT_STATES then 9 else 11;
        len := 0;
      } else {
        var l;
        len, l := DecodeRepLong(limit, posState);
        s := Rep(index, l + MATCH_MIN_LEN);
      }
    }

    method DecodeRepLong(limit: nat, posState: nat) returns (len: nat, l: nat)
      requires Valid() && Room(limit) && hist != [] && posState < 16
      modifies this`dicPos, this`processedPos, this`state, this`hist, dic
      modifies rc`buf, rc`range, rc`code, rc`trace, rc.probs
      ensures Valid() && old(dicPos) < dicPos <= limit && (len > 0 ==> dicPos == limit && hist != [])
      ensures l < 272 && len < MATCH_SPEC_LEN_START && state == RepState(old(state))
      ensures Owing(len).hist == Copy(old(hist), reps[0] - 1, l + MATCH_MIN_LEN)
      ensures rc.trace == old(rc.trace) + LenOps(REP_LEN_CODER, posState, l)
      ensures |hist| - dicPos == old(|hist| - dicPos)
      ensures old(rc.buf) <= rc.buf
    {
      hide RangeDecoder.Valid, NumProbs, DicHolds, Counters, LenOps, Copy;
      state := if state < NUM_LIT_STATES then 8 else 11;
      l := rc.LenDecode(REP_LEN_CODER, posState);
      len := CopyTail(limit, l + MATCH_MIN_LEN);
    }

    /** The single byte of the shortest form. */
    method CopyByte()
      requires Valid() && Room(dicPos + 1) && hist != []
      modifies this`dicPos, this`processedPos, this`hist, dic
      ensures Valid() && dicPos == old(dicPos) + 1 && hist == Copy(old(hist), reps[0] - 1, 1)
      ensures |hist| - dicPos == old(|hist| - dicPos)
    {
      hide RangeDecoder.Valid, DicHolds, Copy, NumProbs;
      ghost var h := |hist|;
      CopyOne(hist, reps[0] - 1);
      InBounds();
      var b := Back(reps[0]);
      PutByte(b);
      assert Distances();
      Advance(1, h);
    }

    method DecodeMatch(limit: nat, posState: nat) returns (outcome: Outcome, len: nat, ghost s: Symbol)
      requires Valid() && Room(limit) && posState == PosState(props, Z()) < 16
      modifies this`dicPos, this`processedPos, this`state, this`reps, this`hist, dic
      modifies rc`buf, rc`range, rc`code, rc`trace, rc.probs
      ensures ValidSymbol(s) && s.Match? && rc.Valid()
      ensures rc.trace == old(rc.trace) + Body(props, old(Z()), s)
      ensures outcome == Marker <==> s.distance == END_MARKER
      ensures outcome == Marker ==> Valid() && Z() == old(Z()) && dicPos == old(dicPos) && len == MATCH_SPEC_LEN_START + s.len - 2
      ensures outcome == Corrupt ==> !Reaches(dicBufSize, old(Z()), s)
      ensures outcome == Decoded ==> Valid() && old(dicPos) < dicPos <= limit && (len > 0 ==> dicPos == limit && hist != [])
      ensures outcome == Decoded ==> len < MATCH_SPEC_LEN_START && Reaches(dicBufSize, old(Z()), s) && Owing(len) == Apply(old(Z()), s)
      ensures outcome == Decoded ==> |hist| - dicPos == old(|hist| - dicPos)
      ensures old(rc.buf) <= rc.buf
    {
      hide RangeDecoder.Valid, NumProbs, DicHolds, LenOps, DistanceOps, Copy, Counters, ZeroBased;
      InBounds();
      var l := rc.LenDecode(LEN_CODER, posState);
      var distance := rc.DistanceDecode(l);
      s := Match(distance, l + MATCH_MIN_LEN);
      if distance == END_MARKER {
        outcome, len := Marker, l + MATCH_SPEC_LEN_START;
      } else {
        outcome, len := AcceptMatch(limit, distance, l + MATCH_MIN_LEN);
      }
    }

    /** A match whose distance is known: refused, or copied as far as the limit allows. */
    method AcceptMatch(limit: nat, distance: nat, total: nat) returns (outcome: Outcome, len: nat)
      requires Valid() && Room(limit) && distance < END_MARKER && MATCH_MIN_LEN <= total <= MATCH_MAX_LEN
      modifies this`dicPos, this`processedPos, this`state, this`reps, this`hist, dic
      ensures outcome == Decoded || outcome == Corrupt
      ensures outcome == Corrupt ==> !Reaches(dicBufSize, old(Z()), Match(distance, total))
      ensures outcome == Decoded ==> Valid() && old(dicPos) < dicPos <= limit && (len > 0 ==> dicPos == limit && hist != [])
      ensures outcome == Decoded ==> len < MATCH_SPEC_LEN_START && Reaches(dicBufSize, old(Z()), Match(distance, total))
      ensures outcome == Decoded ==> Owing(len) == Apply(old(Z()), Match(distance, total))
      ensures outcome == Decoded ==> |hist| - dicPos == old(|hist| - dicPos)
    {
      hide RangeDecoder.Valid, NumProbs, DicHolds, Copy, Counters, ZeroBased;
      InBounds();
      Started();
      if (if checkDicSize == 0 then distance >= processedPos else distance >= checkDicSize) {
        outcome, len := Corrupt, 0;
      } else {
        ZeroBasedShift(reps, distance);
        reps := reps[3 := reps[2]];
        reps := reps[2 := reps[1]];
        reps := reps[1 := reps[0]];
        reps := reps[0 := distance + 1];
        state := if state < NUM_LIT_STATES then 7 else 10;
        len := CopyTail(limit, total);
        outcome := Decoded;
      }
    }

    /** One turn of the loop in LzmaDec_DecodeReal. */
    method DecodeSymbol(limit: nat) returns (outcome: Outcome, len: nat, ghost s: Symbol)
      requires Valid() && Room(limit) && rc.trace == []
      modifies this`dicPos, this`processedPos, this`state, this`reps, this`hist, dic
      modifies rc`buf, rc`range, rc`code, rc`trace, rc.probs
      ensures ValidSymbol(s) && rc.Valid() && (s.Match? && s.distance == END_MARKER <==> outcome == Marker)
      ensures outcome == Corrupt ==> Refused(props, dicBufSize, old(Z()), s, rc.trace)
      ensures outcome != Corrupt ==> Valid() && rc.trace == SymbolOps(props, old(Z()), s)
      ensures outcome == Marker ==> Z() == old(Z()) && dicPos == old(dicPos) && len == MATCH_SPEC_LEN_START + s.len - 2
      ensures outcome == Decoded ==> old(dicPos) < dicPos <= limit && (len > 0 ==> dicPos == limit && hist != [])
      ensures outcome == Decoded ==> len < MATCH_SPEC_LEN_START && Refers(old(Z()), s) && Reaches(dicBufSize, old(Z()), s)
      ensures outcome == Decoded ==> Owing(len) == Apply(old(Z()), s)
      ensures outcome == Decoded ==> |hist| - dicPos == old(|hist| - dicPos)
      ensures old(rc.buf) <= rc.buf
    {
      hide RangeDecoder.Valid, NumProbs, DicHolds, Counters, Path, Body, Apply, Distances;
      var posState := PositionState();
      InBounds();
      StateBound();
      var bit := rc.GetBit(IS_MATCH + state * 16 + posState);
      if bit == 0 {
        var byte := DecodeLiteral();
        outcome, len, s := Decoded, 0, Literal(byte);
      } else {
        outcome, len, s := DecodeReference(limit, posState);
      }
    }

    /** What follows the first decision of a match or repeat. */
    method DecodeReference(limit: nat, posState: nat) returns (outcome: Outcome, len: nat, ghost s: Symbol)
      requires Valid() && Room(limit) && posState == PosState(props, Z()) < 16
      requires rc.trace == [Model(IS_MATCH + state * 16 + posState, 1)]
      modifies this`dicPos, this`processedPos, this`state, this`reps, this`hist, dic
      modifies rc`buf, rc`range, rc`code, rc`trace, rc.probs
      ensures ValidSymbol(s) && rc.Valid() && (s.Match? && s.distance == END_MARKER <==> outcome == Marker)
      ensures outcome == Corrupt ==> Refused(props, dicBufSize, old(Z()), s, rc.trace)
      ensures outcome != Corrupt ==> Valid() && rc.trace == SymbolOps(props, old(Z()), s)
      ensures outcome == Marker ==> Z() == old(Z()) && dicPos == old(dicPos) && len == MATCH_SPEC_LEN_START + s.len - 2
      ensures outcome == Decoded ==> old(dicPos) < dicPos <= limit && (len > 0 ==> dicPos == limit && hist != [])
      ensures outcome == Decoded ==> len < MATCH_SPEC_LEN_START && Refers(old(Z()), s) && Reaches(dicBufSize, old(Z()), s)
      ensures outcome == Decoded ==> Owing(len) == Apply(old(Z()), s)
      ensures outcome == Decoded ==> |hist| - dicPos == old(|hist| - dicPos)
      ensures old(rc.buf) <= rc.buf
    {
      hide RangeDecoder.Valid, NumProbs, DicHolds, Counters, Path, Body, Apply, Distances;
      InBounds();
      StateBound();
      var bit := rc.GetBit(IS_REP + state);
      Started();
      if bit == 0 {
        outcome, len, s := DecodeMatch(limit, posState);
      } else if checkDicSize == 0 && processedPos == 0 {
        outcome, len, s := Corrupt, 0, ShortRep;
      } else {
        len, s := DecodeRep(limit, posState);
        outcome := Decoded;
      }
    }

    /** The registers after some symbols read from d0 in state z0, with `len` bytes owing. */
    ghost predicate After(d0: Reader, z0: Lz, syms: seq<Symbol>, len: nat)
      reads this`dicPos, this`processedPos, this`checkDicSize, this`state, this`reps, this`hist, dic, rc, rc.probs
    {
      && Valid() && ValidReader(d0) && ValidLz(z0) && Playable(z0, syms)
      && Reads(rc.src, d0, AllOps(props, z0, syms)) && rc.View() == TakeAll(rc.src, d0, AllOps(props, z0, syms))
      && (len > 0 ==> hist != []) && Owing(len) == Run(z0, syms)
    }

    /** A symbol read after others: the reading composes, and it takes at most 20 bytes. */
    lemma OneMore(d0: Reader, z0: Lz, syms: seq<Symbol>, s: Symbol, trace: seq<Op>)
      requires ValidProps(props) && ValidReader(d0) && ValidLz(z0) && Playable(z0, syms) && ValidSymbol(s)
      requires Reads(rc.src, d0, AllOps(props, z0, syms))
      requires Reads(rc.src, TakeAll(rc.src, d0, AllOps(props, z0, syms)), trace)
      ensures Reads(rc.src, d0, AllOps(props, z0, syms) + trace)
      ensures TakeAll(rc.src, d0, AllOps(props, z0, syms) + trace)
           == TakeAll(rc.src, TakeAll(rc.src, d0, AllOps(props, z0, syms)), trace)
      ensures Refers(Run(z0, syms), s) ==>
                && Playable(z0, syms + [s]) && Run(z0, syms + [s]) == Apply(Run(z0, syms), s)
                && AllOps(props, z0, syms + [s]) == AllOps(props, z0, syms) + SymbolOps(props, Run(z0, syms), s)
      ensures trace <= SymbolOps(props, Run(z0, syms), s) ==>
                TakeAll(rc.src, d0, AllOps(props, z0, syms) + trace).pos
                <= TakeAll(rc.src, d0, AllOps(props, z0, syms)).pos + REQUIRED_INPUT_MAX
    {
      hide Reads, TakeAll, AllOps, SymbolOps, Apply, Playable, Run;
      ReadsConcat(rc.src, d0, AllOps(props, z0, syms), trace);
      TakeConcat(rc.src, d0, AllOps(props, z0, syms), trace);
      if Refers(Run(z0, syms), s) {
        RunSnoc(props, z0, syms, s);
      }
      var ops := SymbolOps(props, Run(z0, syms), s);
      SymbolInputBound(props, Run(z0, syms), s, rc.src, TakeAll(rc.src, d0, AllOps(props, z0, syms)));
      if trace <= ops {
        TakeMonotone(rc.src, TakeAll(rc.src, d0, AllOps(props, z0, syms)), ops, |trace|);
        assert ops[..|trace|] == trace;
      }
    }

    lemma RefusedPrefix(z: Lz, s: Symbol, trace: seq<Op>)
      requires ValidProps(props) && ValidLz(z) && ValidSymbol(s) && Refused(props, dicBufSize, z, s, trace)
      ensures trace <= SymbolOps(props, z, s)
    {
    }

    /** One more symbol after `syms`. */
    method DecodeNext(limit: nat, ghost d0: Reader, ghost z0: Lz, ghost syms: seq<Symbol>)
      returns (outcome: Outcome, len: nat, ghost s: Symbol)
      requires After(d0, z0, syms, 0) && Room(limit)
      modifies this`dicPos, this`processedPos, this`state, this`reps, this`hist, dic
      modifies rc`buf, rc`range, rc`code, rc`trace, rc`start, rc.probs
      ensures ValidSymbol(s) && rc.Valid() && (s.Match? && s.distance == END_MARKER <==> outcome == Marker)
      ensures outcome == Corrupt ==> Refused(props, dicBufSize, Run(z0, syms), s, rc.trace)
                                     && Reads(rc.src, d0, AllOps(props, z0, syms) + rc.trace)
                                     && rc.View() == TakeAll(rc.src, d0, AllOps(props, z0, syms) + rc.trace)
      ensures outcome == Marker ==> Valid() && ReadTo(d0, z0, syms, [s]) && Z() == Run(z0, syms)
                                    && dicPos == old(dicPos) && len == MATCH_SPEC_LEN_START + s.len - 2
      ensures outcome == Decoded ==> After(d0, z0, syms + [s], len) && old(dicPos) < dicPos <= limit
      ensures outcome == Decoded ==> (len > 0 ==> dicPos == limit) && len < MATCH_SPEC_LEN_START
      ensures outcome == Decoded ==> |hist| - dicPos == old(|hist| - dicPos) && Reaches(dicBufSize, Run(z0, syms), s)
      ensures old(rc.buf) <= rc.buf
      ensures rc.View().pos <= old(rc.View().pos) + REQUIRED_INPUT_MAX
    {
      hide RangeDecoder.Valid, DicHolds, Counters, Distances, NumProbs, SymbolOps, Apply, Playable, Run, AllOps,
           Reads, TakeAll, Copy, Refused;
      rc.Mark();
      outcome, len, s := DecodeSymbol(limit);
      MarkedReads();
      if outcome == Corrupt {
        RefusedPrefix(Run(z0, syms), s, rc.trace);
      }
      OneMore(d0, z0, syms, s, rc.trace);
    }

    lemma MarkedReads()
      requires rc.Valid()
      ensures ValidReader(rc.start) && Reads(rc.src, rc.start, rc.trace) && rc.View() == TakeAll(rc.src, rc.start, rc.trace)
    {
    }

    /** The reader has read, from d0, the decisions of `syms` and `last`. */
    ghost predicate ReadTo(d0: Reader, z0: Lz, syms: seq<Symbol>, last: seq<Symbol>)
      reads rc, rc.probs
    {
      && ValidProps(props) && ValidReader(d0) && ValidLz(z0) && Playable(z0, syms) && (last != [] ==> ValidSymbol(last[0]))
      && Reads(rc.src, d0, RunOps(props, z0, syms, last))
      && rc.View() == TakeAll(rc.src, d0, RunOps(props, z0, syms, last))
    }

    /** The bytes still owed by the last match; none once the marker was read. */
    function Owed(): nat
      reads this`remainLen
    {
      if remainLen < MATCH_SPEC_LEN_START then remainLen else 0
    }

    /** What a decoding call reports: the symbols read, the marker if it was read, or a refusal. */
    ghost predicate Decodes(ok: bool, d0: Reader, z0: Lz, syms: seq<Symbol>, last: seq<Symbol>)
      reads this, dic, rc, rc.probs
    {
      if ok then
        && Valid() && ReadTo(d0, z0, syms, last) && |last| <= 1
        && (last != [] <==> remainLen >= MATCH_SPEC_LEN_START)
        && (last != [] ==> last[0].Match? && last[0].distance == END_MARKER)
        && (Owed() > 0 ==> hist != []) && Owing(Owed()) == Run(z0, syms)
      else
        && ValidProps(props) && ValidReader(d0) && ValidLz(z0) && Playable(z0, syms) && |last| == 1
        && Refused(props, dicBufSize, Run(z0, syms), last[0], rc.trace)
        && Reads(rc.src, d0, AllOps(props, z0, syms) + rc.trace)
        && rc.View() == TakeAll(rc.src, d0, AllOps(props, z0, syms) + rc.trace)
    }

    /**
     * LzmaDec_DecodeReal: symbols until the limit or the end of the input in hand, or the
     * marker.  No read goes more than 20 bytes past bufLimit.
     */
    method DecodeReal(limit: nat, bufLimit: nat, ghost d0: Reader, ghost z0: Lz, ghost syms0: seq<Symbol>)
      returns (ok: bool, ghost syms: seq<Symbol>, ghost last: seq<Symbol>)
      requires After(d0, z0, syms0, 0) && Room(limit) && remainLen == 0 && rc.range >= TOP
      modifies this`dicPos, this`processedPos, this`state, this`reps, this`hist, this`remainLen, dic
      modifies rc`buf, rc`range, rc`code, rc`trace, rc`start, rc.probs
      ensures Decodes(ok, d0, z0, syms, last) && |syms0| <= |syms|
      ensures ok ==> dicPos <= limit && (Owed() > 0 ==> dicPos == limit) && rc.range >= TOP
      ensures ok ==> |hist| - dicPos == old(|hist| - dicPos) && |syms0| + 1 <= |syms| + |last|
      ensures ok ==> if |syms| > |syms0| then dicPos > old(dicPos) else dicPos == old(dicPos)
      ensures ok ==> rc.buf <= (if old(rc.buf) < bufLimit then bufLimit else old(rc.buf)) + REQUIRED_INPUT_MAX
      ensures bufLimit <= old(rc.buf) ==> |syms| + |last| == |syms0| + 1
      ensures rc.View().pos <= (if old(rc.buf) < bufLimit then bufLimit else old(rc.buf)) + REQUIRED_INPUT_MAX
      ensures ok ==> old(rc.buf) <= rc.buf
      ensures ok && last == [] ==> dicPos >= limit || rc.buf >= bufLimit
    {
      hide RangeDecoder.Valid, RangeDecoder.View, DicHolds, Counters, Distances, NumProbs, SymbolOps, Playable, Run,
           AllOps, Reads, TakeAll, Copy, Refused;
      var len;
      ok, len, syms, last := DecodeSymbols(limit, bufLimit, d0, z0, syms0);
      if ok {
        if last == [] {
          NoMarker(d0, z0, syms, len);
        }
        rc.Finish();
        remainLen := len;
      }
    }

    /** The loop of LzmaDec_DecodeReal. */
    method DecodeSymbols(limit: nat, bufLimit: nat, ghost d0: Reader, ghost z0: Lz, ghost syms0: seq<Symbol>)
      returns (ok: bool, len: nat, ghost syms: seq<Symbol>, ghost last: seq<Symbol>)
      requires After(d0, z0, syms0, 0) && Room(limit) && rc.range >= TOP
      modifies this`dicPos, this`processedPos, this`state, this`reps, this`hist, dic
      modifies rc`buf, rc`range, rc`code, rc`trace, rc`start, rc.probs
      ensures rc.Valid() && |syms0| <= |syms| && |last| <= 1
      ensures !ok ==> Decodes(false, d0, z0, syms, last)
      ensures ok && last == [] ==> After(d0, z0, syms, len) && len < MATCH_SPEC_LEN_START
      ensures ok && last != [] ==> Valid() && ReadTo(d0, z0, syms, last) && Z() == Run(z0, syms) && len >= MATCH_SPEC_LEN_START
                                   && last[0].Match? && last[0].distance == END_MARKER
      ensures ok ==> dicPos <= limit && (last == [] && len > 0 ==> dicPos == limit)
      ensures ok ==> |hist| - dicPos == old(|hist| - dicPos) && |syms0| + 1 <= |syms| + |last|
      ensures ok ==> if |syms| > |syms0| then dicPos > old(dicPos) else dicPos == old(dicPos)
      ensures bufLimit <= old(rc.buf) ==> |syms| + |last| == |syms0| + 1
      ensures rc.View().pos <= (if old(rc.buf) < bufLimit then bufLimit else old(rc.buf)) + REQUIRED_INPUT_MAX
      ensures ok ==> old(rc.buf) <= rc.buf
      ensures ok && last == [] ==> dicPos >= limit || rc.buf >= bufLimit
    {
      hide RangeDecoder.Valid, RangeDecoder.View, DicHolds, Counters, Distances, NumProbs, SymbolOps, Playable, Run,
           AllOps, Reads, TakeAll, Copy, Refused;
      syms, last, len, ok := syms0, [], 0, true;
      ViewAt();
      ghost var farthest := if rc.buf < bufLimit then bufLimit else rc.buf;
      var more := true;
      while more
        invariant After(d0, z0, syms, len)
        invariant dicPos <= limit && (len > 0 ==> dicPos == limit) && len < MATCH_SPEC_LEN_START
        invariant |hist| - dicPos == old(|hist| - dicPos) && old(rc.buf) <= rc.buf
        invariant more ==> dicPos < limit && rc.View().pos <= farthest
        invariant rc.View().pos <= farthest + REQUIRED_INPUT_MAX
        invariant |syms| >= |syms0| && if |syms| > |syms0| then dicPos > old(dicPos) else dicPos == old(dicPos)
        invariant !more ==> |syms| > |syms0| && (dicPos >= limit || rc.buf >= bufLimit)
        invariant |syms| > |syms0| && bufLimit <= old(rc.buf) ==> |syms| == |syms0| + 1 && !more
        decreases limit - dicPos, more
      {
        var outcome;
        ghost var s;
        outcome, len, s := DecodeNext(limit, d0, z0, syms);
        if outcome == Corrupt {
          ok, last := false, [s];
          return;
        }
        if outcome == Marker {
          last := [s];
          return;
        }
        syms := syms + [s];
        ViewAt();
        more := dicPos < limit && rc.buf < bufLimit;
      }
    }

    lemma NoMarker(d0: Reader, z0: Lz, syms: seq<Symbol>, len: nat)
      requires After(d0, z0, syms, len)
      ensures ReadTo(d0, z0, syms, [])
    {
      assert AllOps(props, z0, syms) + [] == AllOps(props, z0, syms);
    }

    lemma ViewAt()
      ensures rc.buf <= rc.View().pos <= rc.buf + 1 && (rc.range >= TOP ==> rc.View().pos == rc.buf)
    {
    }

    /** Once the first fill is over, checkDicSize says so. */
    ghost predicate Settled()
      reads this`checkDicSize, this`hist
    {
      checkDicSize == 0 ==> |hist| < dicBufSize
    }

    /** The first fill ends with the `len` bytes about to be paid out. */
    method NoteFill(len: nat)
      requires Valid() && Settled()
      modifies this`checkDicSize
      ensures checkDicSize == 0 || checkDicSize == dicBufSize
      ensures if checkDicSize == 0 then |hist| + len < dicBufSize else dicBufSize <= |hist| + len
    {
      Started();
      if checkDicSize == 0 && dicBufSize - processedPos <= len {
        checkDicSize := dicBufSize;
      }
    }

    /** LzmaDec_WriteRem: pays out what the last match still owes, as far as the limit. */
    method WriteRem(limit: nat)
      requires Valid() && Settled() && dicPos <= limit <= dicBufSize && (Owed() > 0 ==> hist != [])
      modifies this`dicPos, this`processedPos, this`checkDicSize, this`hist, this`remainLen, dic
      ensures Valid() && Settled() && old(dicPos) <= dicPos <= limit && |hist| - dicPos == old(|hist| - dicPos)
      ensures (Owed() > 0 ==> hist != [] && dicPos == limit) && Owing(Owed()) == old(Owing(Owed()))
      ensures old(Owed()) == 0 ==> dicPos == old(dicPos) && remainLen == old(remainLen) && Z() == old(Z())
      ensures remainLen >= MATCH_SPEC_LEN_START <==> old(remainLen) >= MATCH_SPEC_LEN_START
      ensures old(hist) <= hist
    {
      hide RangeDecoder.Valid, DicHolds, Copy, NumProbs;
      if remainLen != 0 && remainLen < MATCH_SPEC_LEN_START {
        var len := remainLen;
        if limit - dicPos < len {
          len := limit - dicPos;
        }
        CopyAdd(hist, reps[0] - 1, len, remainLen - len);
        remainLen := remainLen - len;
        PayOut(len);
      }
    }

    /** Puts out `len` bytes of the last match. */
    method PayOut(len: nat)
      requires Valid() && Settled() && hist != [] && dicPos + len <= dicBufSize
      modifies this`dicPos, this`processedPos, this`checkDicSize, this`hist, dic
      ensures Valid() && Settled() && dicPos == old(dicPos) + len && |hist| == |old(hist)| + len
      ensures hist == Copy(old(hist), reps[0] - 1, len) && old(hist) <= hist
    {
      hide RangeDecoder.Valid, DicHolds, Copy, NumProbs;
      InBounds();
      ghost var h := |hist|;
      CopyExtends(hist, reps[0] - 1, len);
      NoteFill(len);
      CopyBytes(reps[0], len);
      assert Distances();
      Advance(len, h);
    }

    /** One turn of the loop in LzmaDec_DecodeReal2. */
    method DecodeTurn(limit: nat, bufLimit: nat, ghost d0: Reader, ghost z0: Lz, ghost syms0: seq<Symbol>)
      returns (ok: bool, ghost syms: seq<Symbol>, ghost last: seq<Symbol>)
      requires After(d0, z0, syms0, 0) && Settled() && dicPos < limit <= dicBufSize && remainLen == 0 && rc.range >= TOP
      modifies this`dicPos, this`processedPos, this`checkDicSize, this`state, this`reps, this`hist, this`remainLen, dic
      modifies rc`buf, rc`range, rc`code, rc`trace, rc`start, rc.probs
      ensures Decodes(ok, d0, z0, syms, last)
      ensures ok ==> Settled() && rc.range >= TOP && dicPos <= limit && (Owed() > 0 ==> dicPos == limit)
      ensures ok ==> |hist| - dicPos == old(|hist| - dicPos) && |syms0| + 1 <= |syms| + |last|
      ensures ok ==> old(rc.buf) <= rc.buf <= (if old(rc.buf) < bufLimit then bufLimit else old(rc.buf)) + REQUIRED_INPUT_MAX
      ensures bufLimit <= old(rc.buf) ==> |syms| + |last| == |syms0| + 1
      ensures rc.View().pos <= (if old(rc.buf) < bufLimit then bufLimit else old(rc.buf)) + REQUIRED_INPUT_MAX
      ensures ok ==> old(dicPos) <= dicPos && (last == [] ==> After(d0, z0, syms, Owed()) && old(dicPos) < dicPos)
    {
      hide RangeDecoder.Valid, DicHolds, Counters, Distances, NumProbs, After, ReadTo, Refused, Copy;
      AfterValid(d0, z0, syms0);
      var limit2 := FillLimit(limit);
      ok, syms, last := DecodeReal(limit2, bufLimit, d0, z0, syms0);
      if ok {
        FillDone();
        WriteRem(limit);
        if last == [] {
          StillAfter(d0, z0, syms);
        }
      }
    }

    lemma AfterValid(d0: Reader, z0: Lz, syms: seq<Symbol>)
      requires After(d0, z0, syms, 0)
      ensures Valid() && (remainLen == 0 ==> Decodes(true, d0, z0, syms, []))
    {
      NoMarker(d0, z0, syms, 0);
    }

    /** LzmaDec_DecodeReal2: stops once at the edge of the first fill, pays out owed bytes, and goes on. */
    method DecodeReal2(limit: nat, bufLimit: nat, ghost d0: Reader, ghost z0: Lz)
      returns (ok: bool, ghost syms: seq<Symbol>, ghost last: seq<Symbol>)
      requires After(d0, z0, [], 0) && Settled() && dicPos < limit <= dicBufSize && remainLen == 0 && rc.range >= TOP
      modifies this`dicPos, this`processedPos, this`checkDicSize, this`state, this`reps, this`hist, this`remainLen, dic
      modifies rc`buf, rc`range, rc`code, rc`trace, rc`start, rc.probs
      ensures Decodes(ok, d0, z0, syms, last)
      ensures ok ==> Settled() && rc.range >= TOP && dicPos <= limit && (Owed() > 0 ==> dicPos == limit)
      ensures ok ==> |hist| - dicPos == old(|hist| - dicPos) && 1 <= |syms| + |last|
      ensures ok ==> old(rc.buf) <= rc.buf <= (if old(rc.buf) < bufLimit then bufLimit else old(rc.buf)) + REQUIRED_INPUT_MAX
      ensures bufLimit <= old(rc.buf) ==> |syms| + |last| == 1
      ensures rc.View().pos <= (if old(rc.buf) < bufLimit then bufLimit else old(rc.buf)) + REQUIRED_INPUT_MAX
      ensures ok ==> old(dicPos) <= dicPos && (last == [] ==> old(dicPos) < dicPos)
      ensures ok && last == [] ==> dicPos >= limit || rc.buf >= bufLimit
      ensures ok && last != [] ==> remainLen == MATCH_SPEC_LEN_START
    {
      hide Valid, After, ReadTo, Refused, Owing, Z, Distances;
      syms, last, ok := [], [], true;
      AfterValid(d0, z0, syms);
      ghost var farthest := if rc.buf < bufLimit then bufLimit else rc.buf;
      var more := true;
      while more
        invariant ok && Decodes(true, d0, z0, syms, last) && Settled() && rc.range >= TOP
        invariant dicPos <= limit && (Owed() > 0 ==> dicPos == limit) && |hist| - dicPos == old(|hist| - dicPos)
        invariant more ==> dicPos < limit && remainLen == 0 && last == [] && After(d0, z0, syms, 0)
        invariant more ==> (syms == [] && rc.buf == old(rc.buf)) || rc.buf < bufLimit
        invariant !more ==> 1 <= |syms| + |last|
        invariant old(dicPos) <= dicPos && (!more && last == [] ==> old(dicPos) < dicPos)
        invariant !more && last == [] ==> dicPos >= limit || rc.buf >= bufLimit
        invariant old(rc.buf) <= rc.buf <= farthest + REQUIRED_INPUT_MAX
        invariant bufLimit <= old(rc.buf) ==> |syms| + |last| == if more then 0 else 1
        decreases limit - dicPos, more
      {
        ok, syms, last := DecodeTurn(limit, bufLimit, d0, z0, syms);
        if !ok {
          return;
        }
        more := dicPos < limit && rc.buf < bufLimit && remainLen < MATCH_SPEC_LEN_START;
      }
      if remainLen > MATCH_SPEC_LEN_START {
        remainLen := MATCH_SPEC_LEN_START;
      }
    }

    /** While the dictionary fills for the first time, one run ends where it is full. */
    method FillLimit(limit: nat) returns (limit2: nat)
      requires Valid() && Settled() && dicPos < limit <= dicBufSize
      ensures Room(limit2) && limit2 <= limit && (limit2 < limit ==> |hist| + (limit2 - dicPos) == dicBufSize)
    {
      Started();
      limit2 := limit;
      if checkDicSize == 0 {
        var rem := dicBufSize - processedPos;
        if limit - dicPos > rem {
          limit2 := dicPos + rem;
        }
      }
    }

    method FillDone()
      requires Valid()
      modifies this`checkDicSize
      ensures Valid() && Settled()
    {
      Started();
      if processedPos >= dicBufSize {
        checkDicSize := dicBufSize;
      }
    }

    lemma StillAfter(d0: Reader, z0: Lz, syms: seq<Symbol>)
      requires Decodes(true, d0, z0, syms, [])
      ensures After(d0, z0, syms, Owed())
    {
      assert AllOps(props, z0, syms) + [] == AllOps(props, z0, syms);
    }

    method PositionState() returns (posState: nat)
      requires Valid()
      ensures posState == PosState(props, Z()) < 16
    {
      hide RangeDecoder.Valid, NumProbs, DicHolds;
      CounterMask(props.pb);
      PosStateSmall(props, Z());
      posState := processedPos % Pow2(props.pb);
    }

    lemma StateBound()
      requires Valid()
      ensures state < NUM_STATES && rc.probs.Length >= LITERAL
    {
    }
  }

  lemma CopyValid(z: Lz, n: nat)
    requires ValidLz(z) && (n > 0 ==> z.hist != [])
    ensures n > 0 ==> z.reps[0] < |z.hist|
  {
  }

  lemma CounterAdd(h: nat, n: nat)
    ensures (h % WORD + n) % WORD == (h + n) % WORD
  {
  }

  /** A mask of at most four low bits does not see 32-bit wrap-around. */
  lemma MaskWord(h: nat, n: nat)
    requires n <= 4
    ensures h % WORD % Pow2(n) == h % Pow2(n)
  {
    hide Pow2;
    var w, r := h / WORD, h % WORD;
    SmallPowers();
    if n == 1 {
      DropMultiple(w * 0x8000_0000, r, 2);
    } else if n == 2 {
      DropMultiple(w * 0x4000_0000, r, 4);
    } else if n == 3 {
      DropMultiple(w * 0x2000_0000, r, 8);
    } else if n == 4 {
      DropMultiple(w * 0x1000_0000, r, 16);
    }
  }

  lemma SmallPowers()
    ensures Pow2(0) == 1 && Pow2(1) == 2 && Pow2(2) == 4 && Pow2(3) == 8 && Pow2(4) == 16
  {
    assert Pow2(4) == 2 * Pow2(3);
  }

  lemma DropMultiple(k: nat, r: nat, m: nat)
    requires m in {2, 4, 8, 16}
    ensures (m * k + r) % m == r % m
  {
    match m
    case 2 => Drop2(k, r);
    case 4 => Drop4(k, r);
    case 8 => Drop8(k, r);
    case 16 => Drop16(k, r);
  }

  lemma Drop2(k: nat, r: nat)
    ensures (2 * k + r) % 2 == r % 2
  {
  }

  lemma Drop4(k: nat, r: nat)
    ensures (4 * k + r) % 4 == r % 4
  {
  }

  lemma Drop8(k: nat, r: nat)
    ensures (8 * k + r) % 8 == r % 8
  {
  }

  lemma Drop16(k: nat, r: nat)
    ensures (16 * k + r) % 16 == r % 16
  {
  }
}
