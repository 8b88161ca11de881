// The resumable shell of LzmaDec.c: input and output arrive in pieces of any size, and
// bytes that do not yet make a whole symbol wait in tempBuf.

module LzmaShells {
  import opened Bytes
  import opened RangeCoding
  import opened BitTrees
  import opened LzmaModel
  import opened LzmaPrefixCode
  import opened SymbolCost
  import opened RangeDecoders
  import opened LzmaStreams
  import opened LzmaProgress
  import opened LzmaDecoders
  import opened LzmaDummies

  const RC_INIT_SIZE := 5

  datatype Status = FinishedWithMark | NotFinished | NeedsMoreInput | MaybeFinishedWithoutMark

  class LzmaShell {
    const dec: LzmaDecoder
    const tempBuf: array<Byte>
    var tempBufSize: nat
    var needFlush: bool

    /** The input taken in so far, and the symbols it stood for. */
    ghost var taken: seq<Byte>
    ghost var syms: seq<Symbol>
    ghost var last: seq<Symbol>

    /** All the input accepted from the caller. */
    ghost function Bytes(): seq<Byte>
      reads this`tempBufSize, this`taken, tempBuf
    {
      if tempBufSize <= tempBuf.Length then taken + tempBuf[..tempBufSize] else taken
    }

    ghost function End(): Reader
      reads this`taken, dec.rc, dec.rc.probs
    {
      Registers(dec.rc).(pos := |taken|)
    }

    ghost predicate Apart()
      reads this`tempBufSize
    {
      && tempBuf.Length == REQUIRED_INPUT_MAX && tempBufSize <= REQUIRED_INPUT_MAX
      && tempBuf != dec.dic && tempBuf as object != dec.rc.probs
    }

    /** The decoder can go on, and remainLen has its final form. */
    ghost predicate Sound()
      reads dec, dec.dic, dec.rc, dec.rc.probs
      ensures Sound() ==> ValidProps(dec.props)
    {
      && dec.Valid() && dec.Settled() && dec.rc.range >= TOP && dec.remainLen <= MATCH_SPEC_LEN_START
      && (dec.Owed() > 0 ==> dec.hist != [])
    }

    ghost predicate Untouched()
      reads this`taken, this`syms, this`last, dec, dec.rc, dec.rc.probs
    {
      && taken == [] && syms == [] && last == [] && dec.remainLen == 0 && dec.Distances() && dec.Z() == START
      && ValidProps(dec.props) && dec.rc.probs[..] == seq(NumProbs(dec.props), i => 1024)
    }

    /** The coder's state once all owed bytes are put out. */
    ghost function Due(): (z: Lz)
      reads dec, dec.dic, dec.rc, dec.rc.probs
      requires Sound()
      ensures ValidLz(z)
    {
      dec.Owing(dec.Owed())
    }

    /** What was taken in and what was put out belong together. */
    ghost predicate Matched()
      reads this`taken, this`syms, this`last, dec, dec.dic, dec.rc, dec.rc.probs
      requires Sound()
    {
      assert ValidLz(START);
      hide *;
      && Traced(dec.props, taken, syms, last, End()) && Playable(START, syms)
      && (last != [] <==> dec.remainLen == MATCH_SPEC_LEN_START)
      && Due() == Run(START, syms)
    }

    /** The bytes held back are too few for the next symbol. */
    ghost predicate Held()
      reads this`tempBufSize, dec, dec.dic, dec.rc, dec.rc.probs, tempBuf
    {
      && Sound() && tempBufSize <= tempBuf.Length && dec.remainLen == 0
      && ValidReader(Registers(dec.rc))
      && Short(dec.props, dec.Z(), Registers(dec.rc), tempBuf[..tempBufSize])
    }

    ghost predicate Valid()
      reads this, dec, dec.dic, dec.rc, dec.rc.probs, tempBuf
    {
      && Apart() && Sound()
      && if needFlush then Untouched() && tempBufSize < RC_INIT_SIZE else Matched() && (tempBufSize > 0 ==> Held())
    }

    /** LzmaDec_Init, for properties already decoded from their bytes. */
    constructor (props: Props, dicBufSize: nat)
      requires ValidProps(props) && MIN_DICTIONARY <= dicBufSize <= LARGEST_DICTIONARY
      ensures Valid() && Bytes() == [] && dec.hist == [] && dec.props == props && dec.dicBufSize == dicBufSize
      ensures fresh(dec) && fresh(dec.rc) && fresh(dec.dic) && fresh(dec.rc.probs) && fresh(tempBuf)
    {
      var probs := new int[NumProbs(props)](i => 1024);
      var rc := new RangeDecoder(probs, true, INIT_RANGE, 0, [], 0);
      dec := new LzmaDecoder(props, dicBufSize, rc);
      tempBuf := new Byte[REQUIRED_INPUT_MAX];
      tempBufSize, needFlush := 0, true;
      taken, syms, last := [], [], [];
    }

    /** The decoder is ready to read its next symbol from other input. */
    lemma Ready(d0: Reader, z0: Lz)
      requires Sound() && dec.remainLen == 0 && z0 == dec.Z() && dec.rc.View() == d0
      ensures ValidReader(d0) && dec.After(d0, z0, [], 0)
    {
      hide LzmaDecoder.DicHolds, LzmaDecoder.Counters, NumProbs;
      PlayEmpty(dec.props, z0);
    }

    /**
     * Decodes from `bytes`, which hold at least 20 bytes beyond bufLimit or a whole symbol t.
     * With bufLimit 0 exactly one symbol x is read.
     */
    method Resume(limit: nat, bytes: seq<Byte>, bufLimit: nat, ghost t: Symbol) returns (ok: bool, n: nat, ghost x: Symbol)
      requires Apart() && Sound() && Matched() && dec.remainLen == 0 && dec.dicPos < limit <= dec.dicBufSize
      requires bufLimit + REQUIRED_INPUT_MAX <= |bytes| || (bufLimit == 0 && Whole(bytes, t))
      modifies this`taken, this`syms, this`last, dec, dec.dic, dec.rc, dec.rc.probs
      ensures ok ==> Apart() && Sound() && Matched() && n <= |bytes| && taken == old(taken) + bytes[..n]
      ensures ok ==> old(dec.dicPos) <= dec.dicPos <= limit && (dec.Owed() > 0 ==> dec.dicPos == limit)
      ensures ok ==> |dec.hist| - dec.dicPos == old(|dec.hist| - dec.dicPos)
      ensures ok ==> old(dec.hist) <= dec.hist
      ensures ok ==> dec.dicPos > old(dec.dicPos) || dec.remainLen == MATCH_SPEC_LEN_START
      ensures !ok ==> Fault(dec.props, dec.dicBufSize, old(taken) + bytes)
      ensures ok && bufLimit == 0 ==> old(Whole(bytes, x)) && old(TakenBy(bytes, x)) == n
    {
      hide LzmaDecoder.DicHolds, LzmaDecoder.Counters, NumProbs, Reads, TakeAll, SymbolOps, AllOps, Run, Playable,
           Refused, RangeDecoder.Valid;
      ghost var d0, z0, end0, whole := Registers(dec.rc), dec.Z(), End(), bufLimit == 0 && Whole(bytes, t);
      dec.rc.SetInput(bytes);
      Ready(d0, z0);
      ghost var s, l;
      ok, s, l := dec.DecodeReal2(limit, bufLimit, d0, z0);
      n, x := dec.rc.buf, t;
      if ok {
        if bufLimit == 0 {
          OneOps(dec.props, z0, s, l);
          x := (s + l)[0];
          if whole {
            SymbolUnique(dec.props, z0, bytes, d0, x, t);
          }
        }
        Took(end0, bytes, z0, s, l);
      } else {
        if whole {
          RefusesWhole(d0, z0, l, t);
        }
        Refuses(end0, bytes, z0, s, l);
      }
    }

    /** Notes what a call has read. */
    ghost method Took(end0: Reader, bytes: seq<Byte>, z0: Lz, s: seq<Symbol>, l: seq<Symbol>)
      requires ValidReader(end0) && dec.rc.src == bytes && dec.Settled() && dec.rc.range >= TOP && dec.rc.buf <= |bytes|
      requires dec.Decodes(true, end0.(pos := 0), z0, s, l) && (l != [] <==> dec.remainLen == MATCH_SPEC_LEN_START)
      requires Traced(dec.props, taken, syms, [], end0) && Run(START, syms) == z0 && |z0.hist| <= |dec.hist|
      modifies this`taken, this`syms, this`last
      ensures Sound() && Matched() && taken == old(taken) + bytes[..dec.rc.buf] && z0.hist <= dec.hist
    {
      hide Reads, TakeAll, RunOps, AllOps, Run, NumProbs, Playable, RangeDecoder.Valid, LzmaDecoder.DicHolds,
           LzmaDecoder.Counters;
      TracedMore(dec.props, taken, syms, end0, bytes, s, l);
      taken, syms, last := taken + bytes[..dec.rc.buf], syms + s, l;
      HistGrows(z0, s);
    }

    lemma HistGrows(z0: Lz, s: seq<Symbol>)
      requires Sound() && ValidLz(z0) && Playable(z0, s) && Due() == Run(z0, s) && |z0.hist| <= |dec.hist|
      ensures z0.hist <= dec.hist
    {
      hide Run, NumProbs, Playable, RangeDecoder.Valid, LzmaDecoder.DicHolds, LzmaDecoder.Counters, Copy;
      PlayPrefix(dec.props, z0, s, 0);
      PlayEmpty(dec.props, z0);
      if dec.Owed() > 0 {
        CopyExtends(dec.hist, dec.reps[0] - 1, dec.Owed());
      }
    }

    lemma Refuses(end0: Reader, bytes: seq<Byte>, z0: Lz, s: seq<Symbol>, l: seq<Symbol>)
      requires ValidProps(dec.props) && Playable(START, syms) && z0 == Run(START, syms)
      requires ValidReader(end0) && Traced(dec.props, taken, syms, [], end0)
      requires dec.Decodes(false, end0.(pos := 0), z0, s, l) && dec.rc.src == bytes && dec.rc.View().pos <= |bytes|
      ensures Fault(dec.props, dec.dicBufSize, taken + bytes)
    {
      hide Reads, TakeAll, AllOps, RunOps, Run, NumProbs, Playable, Refused, SymbolOps, Traced;
      FaultMore(dec.props, dec.dicBufSize, taken, syms, end0, bytes, s, l[0], dec.rc.trace);
    }

    lemma RefusesWhole(d0: Reader, z0: Lz, l: seq<Symbol>, t: Symbol)
      requires dec.Decodes(false, d0, z0, [], l) && ValidSymbol(t)
      requires ReadsSymbol(dec.props, z0, d0, dec.rc.src, t) && !NeedsMore(dec.props, z0, d0, dec.rc.src, t)
      ensures dec.rc.View().pos <= |dec.rc.src|
    {
      hide Reads, TakeAll, NumProbs, Refused, SymbolOps;
      PlayEmpty(dec.props, z0);
      assert [] + dec.rc.trace == dec.rc.trace;
      WholeRefusal(dec.props, dec.dicBufSize, z0, dec.rc.src, d0, t, l[0], dec.rc.trace);
    }

    /** `bytes` hold a whole symbol x, read from where the decoder is. */
    ghost predicate Whole(bytes: seq<Byte>, x: Symbol)
      reads dec, dec.dic, dec.rc, dec.rc.probs
    {
      && Sound() && ValidReader(Registers(dec.rc)) && ValidSymbol(x)
      && ReadsSymbol(dec.props, dec.Z(), Registers(dec.rc), bytes, x) && TakenBy(bytes, x) <= |bytes|
    }

    ghost function TakenBy(bytes: seq<Byte>, x: Symbol): nat
      reads dec, dec.dic, dec.rc, dec.rc.probs
      requires Sound() && ValidReader(Registers(dec.rc)) && ValidSymbol(x)
    {
      TakeAll(bytes, Registers(dec.rc), SymbolOps(dec.props, dec.Z(), x)).pos
    }

    /** Appends input to tempBuf until it holds `size` bytes or the input is used up. */
    method TopUp(src: seq<Byte>, size: nat) returns (n: nat)
      requires Apart() && tempBufSize <= size <= REQUIRED_INPUT_MAX
      modifies this`tempBufSize, tempBuf
      ensures Apart() && n <= |src| && tempBufSize == old(tempBufSize) + n <= size
      ensures tempBuf[..tempBufSize] == old(tempBuf[..tempBufSize]) + src[..n]
      ensures n == |src| || tempBufSize == size
    {
      n := 0;
      ghost var held := tempBuf[..tempBufSize];
      while tempBufSize < size && n < |src|
        invariant Apart() && n <= |src| && tempBufSize == old(tempBufSize) + n <= size
        invariant tempBuf[..tempBufSize] == held + src[..n]
      {
        tempBuf[tempBufSize] := src[n];
        tempBufSize := tempBufSize + 1;
        n := n + 1;
      }
    }

    /** Input straight from the caller, while nothing is held back. */
    method DirectTurn(limit: nat, src: seq<Byte>) returns (ok: bool, starved: bool, n: nat)
      requires Apart() && Sound() && Matched() && tempBufSize == 0
      requires dec.remainLen == 0 && dec.dicPos < limit <= dec.dicBufSize
      modifies this`tempBufSize, this`taken, this`syms, this`last, tempBuf, dec, dec.dic, dec.rc, dec.rc.probs
      ensures ok ==> Apart() && Sound() && Matched() && n <= |src| && Bytes() == old(Bytes()) + src[..n]
      ensures ok ==> old(dec.dicPos) <= dec.dicPos <= limit && (dec.Owed() > 0 ==> dec.dicPos == limit)
      ensures ok ==> |dec.hist| - dec.dicPos == old(|dec.hist| - dec.dicPos)
      ensures ok ==> old(dec.hist) <= dec.hist
      ensures ok && starved ==> n == |src| && Held() && dec.dicPos == old(dec.dicPos)
      ensures ok && !starved ==> tempBufSize == 0 && (dec.dicPos > old(dec.dicPos) || dec.remainLen == MATCH_SPEC_LEN_START)
      ensures !ok ==> Fault(dec.props, dec.dicBufSize, old(Bytes()) + src)
    {
      hide LzmaDecoder.DicHolds, LzmaDecoder.Counters, NumProbs, Reads, TakeAll, SymbolOps, RangeDecoder.Valid,
           Traced, Run, Playable, Fault;
      ok, starved := true, false;
      var bufLimit := 0;
      ghost var t, x := MARKER, MARKER;
      if |src| < REQUIRED_INPUT_MAX {
        var dummyRes;
        dummyRes, t := TryDummy(dec, src);
        if dummyRes == DummyError {
          n := TopUp(src, |src|);
          assert tempBuf[..tempBufSize] == src;
          starved := true;
          return;
        }
      } else {
        bufLimit := |src| - REQUIRED_INPUT_MAX;
      }
      ok, n, x := Resume(limit, src, bufLimit, t);
      assert old(Bytes()) == old(taken);
    }

    /** Input by way of tempBuf, which is filled up first. */
    method TempTurn(limit: nat, src: seq<Byte>) returns (ok: bool, starved: bool, n: nat)
      requires Apart() && Sound() && Matched() && Held() && dec.dicPos < limit <= dec.dicBufSize
      modifies this`tempBufSize, this`taken, this`syms, this`last, tempBuf, dec, dec.dic, dec.rc, dec.rc.probs
      ensures ok ==> Apart() && Sound() && Matched() && n <= |src| && Bytes() == old(Bytes()) + src[..n]
      ensures ok ==> old(dec.dicPos) <= dec.dicPos <= limit && (dec.Owed() > 0 ==> dec.dicPos == limit)
      ensures ok ==> |dec.hist| - dec.dicPos == old(|dec.hist| - dec.dicPos)
      ensures ok ==> old(dec.hist) <= dec.hist
      ensures ok && starved ==> n == |src| && Held() && dec.dicPos == old(dec.dicPos)
      ensures ok && !starved ==> tempBufSize == 0 && (dec.dicPos > old(dec.dicPos) || dec.remainLen == MATCH_SPEC_LEN_START)
      ensures !ok ==> Fault(dec.props, dec.dicBufSize, old(Bytes()) + src)
    {
      hide LzmaDecoder.DicHolds, LzmaDecoder.Counters, NumProbs, Reads, TakeAll, SymbolOps, RangeDecoder.Valid,
           Traced, Run, Playable, Fault;
      ok, starved := true, false;
      ghost var t, held := MARKER, tempBuf[..tempBufSize];
      var lookAhead := TopUp(src, REQUIRED_INPUT_MAX);
      if tempBufSize < REQUIRED_INPUT_MAX {
        var dummyRes;
        dummyRes, t := TryDummy(dec, tempBuf[..tempBufSize]);
        if dummyRes == DummyError {
          n, starved := lookAhead, true;
          return;
        }
      }
      ok, n := TempSymbol(limit, src, lookAhead, held, t);
    }

    /** One symbol from tempBuf: `held` was too short for it, and lookAhead bytes more have come in. */
    method TempSymbol(limit: nat, src: seq<Byte>, lookAhead: nat, ghost held: seq<Byte>, ghost t: Symbol) returns (ok: bool, n: nat)
      requires Apart() && Sound() && Matched() && dec.remainLen == 0 && dec.dicPos < limit <= dec.dicBufSize
      requires Short(dec.props, dec.Z(), Registers(dec.rc), held)
      requires lookAhead <= |src| && tempBufSize <= REQUIRED_INPUT_MAX && tempBuf[..tempBufSize] == held + src[..lookAhead]
      requires tempBufSize == REQUIRED_INPUT_MAX || Whole(tempBuf[..tempBufSize], t)
      modifies this`tempBufSize, this`taken, this`syms, this`last, tempBuf, dec, dec.dic, dec.rc, dec.rc.probs
      ensures ok ==> Apart() && Sound() && Matched() && n <= |src| && Bytes() == old(taken) + held + src[..n]
      ensures ok ==> old(dec.dicPos) <= dec.dicPos <= limit && (dec.Owed() > 0 ==> dec.dicPos == limit)
      ensures ok ==> |dec.hist| - dec.dicPos == old(|dec.hist| - dec.dicPos)
      ensures ok ==> old(dec.hist) <= dec.hist
      ensures ok ==> tempBufSize == 0 && (dec.dicPos > old(dec.dicPos) || dec.remainLen == MATCH_SPEC_LEN_START)
      ensures !ok ==> Fault(dec.props, dec.dicBufSize, old(taken) + held + src)
    {
      hide LzmaDecoder.DicHolds, LzmaDecoder.Counters, NumProbs, Reads, TakeAll, SymbolOps, RangeDecoder.Valid,
           Traced, Run, Playable, Fault, Short;
      ghost var x, taken0 := MARKER, taken;
      ghost var z0, d0 := dec.Z(), Registers(dec.rc);
      var bytes := tempBuf[..tempBufSize];
      var used;
      ok, used, x := Resume(limit, bytes, 0, t);
      if ok {
        ShortMeansShort(dec.props, z0, d0, held, bytes, x);
        n := lookAhead - (tempBufSize - used);
        Spliced(taken0, held, src, lookAhead, used);
        tempBufSize := 0;
      } else {
        n := 0;
        Spliced(taken0, held, src, lookAhead, |bytes|);
        FaultGrows(dec.props, dec.dicBufSize, taken0 + bytes, (taken0 + held) + src);
      }
    }

    /** One turn of the loop in LzmaDec_DecodeToDic. */
    method Turn(limit: nat, src: seq<Byte>) returns (ok: bool, starved: bool, n: nat)
      requires Valid() && !needFlush && dec.remainLen == 0 && dec.dicPos < limit <= dec.dicBufSize
      modifies this`tempBufSize, this`taken, this`syms, this`last, tempBuf, dec, dec.dic, dec.rc, dec.rc.probs
      ensures ok ==> Valid() && n <= |src| && Bytes() == old(Bytes()) + src[..n]
      ensures ok ==> old(dec.dicPos) <= dec.dicPos <= limit && (dec.Owed() > 0 ==> dec.dicPos == limit)
      ensures ok ==> |dec.hist| - dec.dicPos == old(|dec.hist| - dec.dicPos) && old(dec.hist) <= dec.hist
      ensures ok && starved ==> n == |src| && Held() && dec.dicPos == old(dec.dicPos)
      ensures ok && !starved ==> dec.dicPos > old(dec.dicPos) || dec.remainLen == MATCH_SPEC_LEN_START
      ensures !ok ==> Fault(dec.props, dec.dicBufSize, old(Bytes()) + src)
    {
      hide Sound, Matched, Held, Bytes, Fault, NumProbs;
      if tempBufSize == 0 {
        ok, starved, n := DirectTurn(limit, src);
      } else {
        ok, starved, n := TempTurn(limit, src);
      }
    }

    /** The registers start from the five bytes that tempBuf holds. */
    method Start()
      requires Apart() && Sound() && Untouched() && tempBufSize == RC_INIT_SIZE && tempBuf[0] == 0
      modifies this`tempBufSize, this`needFlush, this`taken, dec.rc
      ensures Valid() && !needFlush && Bytes() == old(tempBuf[..tempBufSize])
    {
      hide LzmaDecoder.DicHolds, LzmaDecoder.Counters, NumProbs, Reads, TakeAll, RangeDecoder.Valid;
      ghost var given := tempBuf[..tempBufSize];
      dec.rc.InitRc(tempBuf[..tempBufSize]);
      tempBufSize, needFlush, taken := 0, false, given;
      CodeBelowWord(taken[1..5]);
      TracedStart(dec.props, taken);
      PlayEmpty(dec.props, START);
      assert Bytes() == given;
    }

    /** The five bytes before the first symbol, the first of which must be 0. */
    method Begin(src: seq<Byte>) returns (ok: bool, starved: bool, n: nat)
      requires Valid() && needFlush
      modifies this`tempBufSize, this`needFlush, this`taken, tempBuf, dec.rc
      ensures ok ==> Valid() && n <= |src| && Bytes() == old(Bytes()) + src[..n]
      ensures ok ==> (starved <==> needFlush) && (starved ==> n == |src|)
      ensures !ok ==> Fault(dec.props, dec.dicBufSize, old(Bytes()) + src)
    {
      hide LzmaDecoder.Valid, NumProbs, RangeDecoder.Valid, Matched, Held, Traced, Playable, FaultAt;
      ok, starved := true, false;
      n := TopUp(src, RC_INIT_SIZE);
      ghost var given := tempBuf[..tempBufSize];
      assert old(Bytes()) + src[..n] == given;
      if tempBufSize < RC_INIT_SIZE {
        starved := true;
        assert Bytes() == given;
      } else if tempBuf[0] != 0 {
        ok := false;
        assert (old(Bytes()) + src)[0] == given[0];
      } else {
        Start();
      }
    }

    /** LzmaDec_WriteRem, seen from the shell. */
    method PayFirst(limit: nat)
      requires Valid() && dec.dicPos <= limit <= dec.dicBufSize
      modifies dec, dec.dic
      ensures Valid() && old(dec.dicPos) <= dec.dicPos <= limit && (dec.Owed() > 0 ==> dec.dicPos == limit)
      ensures |dec.hist| - dec.dicPos == old(|dec.hist| - dec.dicPos) && old(dec.hist) <= dec.hist
      ensures Bytes() == old(Bytes())
    {
      hide LzmaDecoder.DicHolds, LzmaDecoder.Counters, NumProbs, RangeDecoder.Valid, Traced, SymbolOps, Run, Playable, Short;
      dec.WriteRem(limit);
    }

    lemma Marks()
      requires Valid()
      ensures dec.remainLen <= MATCH_SPEC_LEN_START && (last != [] <==> dec.remainLen == MATCH_SPEC_LEN_START)
      ensures last != [] ==> !needFlush && tempBufSize == 0 && !Held()
    {
      hide Short, Traced, LzmaDecoder.Valid;
    }

    /** At the marker a code other than 0 is a fault. */
    lemma MarkFault(src: seq<Byte>)
      requires Valid() && last != [] && dec.rc.code != 0
      ensures Fault(dec.props, dec.dicBufSize, Bytes() + src)
    {
      hide Short, Traced, LzmaDecoder.Valid, Fault;
      FaultMark(dec.props, dec.dicBufSize, taken, syms, last, End());
      FaultGrows(dec.props, dec.dicBufSize, taken, Bytes() + src);
    }

    /** What a status says about the decoder. */
    ghost predicate Reported(status: Status, limit: nat)
      reads this, dec, dec.dic, dec.rc, dec.rc.probs, tempBuf
    {
      match status
      case FinishedWithMark => !needFlush && last != [] && dec.rc.code == 0 && tempBufSize == 0
      case NeedsMoreInput => last == [] && (needFlush || Held())
      case NotFinished => !needFlush && last == [] && dec.dicPos >= limit && (dec.remainLen > 0 || dec.rc.code != 0)
      case MaybeFinishedWithoutMark => !needFlush && last == [] && dec.dicPos >= limit && dec.remainLen == 0 && dec.rc.code == 0
    }

    /** LzmaDec_DecodeToDic with LZMA_FINISH_ANY. */
    method DecodeToDic(dicLimit: nat, src: seq<Byte>) returns (ok: bool, srcLen: nat, status: Status)
      requires Valid() && dec.dicPos <= dicLimit <= dec.dicBufSize
      modifies this`tempBufSize, this`needFlush, this`taken, this`syms, this`last, tempBuf
      modifies dec, dec.dic, dec.rc, dec.rc.probs
      ensures ok ==> Valid() && srcLen <= |src| && Bytes() == old(Bytes()) + src[..srcLen]
      ensures ok ==> old(dec.dicPos) <= dec.dicPos <= dicLimit && |dec.hist| - dec.dicPos == old(|dec.hist| - dec.dicPos)
      ensures ok ==> old(dec.hist) <= dec.hist
      ensures ok ==> Reported(status, dicLimit) && (status == NeedsMoreInput ==> srcLen == |src|)
      ensures !ok ==> Fault(dec.props, dec.dicBufSize, old(Bytes()) + src)
    {
      hide Valid, Held, Bytes, Fault, NumProbs, Sound, Matched, Untouched;
      ok, srcLen, status := true, 0, FinishedWithMark;
      PayFirst(dicLimit);
      while dec.remainLen != MATCH_SPEC_LEN_START
        invariant ok && Valid() && srcLen <= |src| && Bytes() == old(Bytes()) + src[..srcLen]
        invariant old(dec.dicPos) <= dec.dicPos <= dicLimit && |dec.hist| - dec.dicPos == old(|dec.hist| - dec.dicPos)
        invariant old(dec.hist) <= dec.hist && (dec.Owed() > 0 ==> dec.dicPos == dicLimit)
        decreases dicLimit - dec.dicPos, dec.remainLen != MATCH_SPEC_LEN_START
      {
        var starved, n;
        if needFlush {
          ok, starved, n := Begin(src[srcLen..]);
          Resliced(old(Bytes()), src, srcLen, n);
          srcLen := srcLen + n;
          if !ok {
            return;
          }
          if starved {
            Marks();
            status := NeedsMoreInput;
            return;
          }
        }
        Marks();
        if dec.dicPos >= dicLimit {
          status := if dec.remainLen == 0 && dec.rc.code == 0 then MaybeFinishedWithoutMark else NotFinished;
          return;
        }
        ok, starved, n := Turn(dicLimit, src[srcLen..]);
        Resliced(old(Bytes()), src, srcLen, n);
        srcLen := srcLen + n;
        if !ok {
          return;
        }
        if starved {
          Marks();
          status := NeedsMoreInput;
          return;
        }
      }
      Marks();
      ok := dec.rc.code == 0;
      if !ok {
        MarkFault(src[srcLen..]);
        Resliced(old(Bytes()), src, srcLen, 0);
      }
    }

    /** What a status says to a caller of LzmaDec_DecodeToBuf with input `rest` left over. */
    ghost predicate Told(status: Status, rest: seq<Byte>)
      reads this, dec, dec.dic, dec.rc, dec.rc.probs, tempBuf
    {
      match status
      case FinishedWithMark => !needFlush && last != []
      case NeedsMoreInput => last == [] && (needFlush || Held()) && rest == []
      case _ => !needFlush && last == []
    }

    /** At its end the dictionary starts over. */
    method Rewind()
      requires Valid()
      modifies dec`dicPos
      ensures Valid() && Bytes() == old(Bytes()) && dec.dicPos < dec.dicBufSize
    {
      hide LzmaDecoder.Valid, LzmaDecoder.DicHolds, LzmaDecoder.Counters, NumProbs, RangeDecoder.Valid, Traced,
           SymbolOps, Run, Playable, Short;
      dec.WrapAround();
    }

    lemma Holds()
      requires Valid()
      ensures dec.DicHolds() && tempBuf != dec.dic && dec.dicPos <= dec.dicBufSize
    {
      hide Matched, Untouched, Held;
    }

    ghost predicate Separate(dest: array<Byte>)
    {
      dest != dec.dic && dest != tempBuf && dest as object != dec.rc.probs
    }

    /** Copies the n bytes just put out to dest[at..]. */
    method CopyOut(dest: array<Byte>, at: nat, n: nat)
      requires dec.DicHolds() && dest != dec.dic && at + n <= dest.Length && n <= dec.dicPos && n <= |dec.hist|
      modifies dest
      ensures dest[..at + n] == old(dest[..at]) + dec.hist[|dec.hist| - n..]
    {
      ghost var from := |dec.hist| - n;
      for i := 0 to n
        invariant dest[..at + i] == old(dest[..at]) + dec.hist[from..from + i]
      {
        assert dec.dic[dec.Index(n - i)] == dec.hist[|dec.hist| - (n - i)];
        dest[at + i] := dec.dic[dec.dicPos - n + i];
      }
    }

    /** One turn of the loop in LzmaDec_DecodeToBuf. */
    method BufTurn(dest: array<Byte>, at: nat, src: seq<Byte>) returns (ok: bool, n: nat, srcLen: nat, status: Status)
      requires Valid() && Separate(dest) && at <= dest.Length
      modifies this`tempBufSize, this`needFlush, this`taken, this`syms, this`last, tempBuf
      modifies dec, dec.dic, dec.rc, dec.rc.probs, dest
      ensures ok ==> Valid() && srcLen <= |src| && Bytes() == old(Bytes()) + src[..srcLen]
      ensures ok ==> at + n <= dest.Length && old(dec.hist) <= dec.hist && |dec.hist| == |old(dec.hist)| + n
      ensures ok ==> dest[..at + n] == old(dest[..at]) + dec.hist[|old(dec.hist)|..]
      ensures ok ==> Told(status, src[srcLen..]) && (n > 0 || at == dest.Length || status == FinishedWithMark || status == NeedsMoreInput)
      ensures !ok ==> Fault(dec.props, dec.dicBufSize, old(Bytes()) + src)
    {
      hide Valid, Bytes, Fault, Held, LzmaDecoder.Valid, LzmaDecoder.DicHolds;
      Rewind();
      var dicPos := dec.dicPos;
      var outSize := dest.Length - at;
      var limit := if outSize > dec.dicBufSize - dicPos then dec.dicBufSize else dicPos + outSize;
      ok, srcLen, status := DecodeToDic(limit, src);
      n := 0;
      if ok {
        n := dec.dicPos - dicPos;
        Holds();
        CopyOut(dest, at, n);
      }
    }

    /**
     * LzmaDec_DecodeToBuf with LZMA_FINISH_ANY: fills dest unless the marker was read or
     * all input is used up and more is needed.
     */
    method DecodeToBuf(dest: array<Byte>, src: seq<Byte>) returns (ok: bool, destLen: nat, srcLen: nat, status: Status)
      requires Valid() && Separate(dest)
      modifies this`tempBufSize, this`needFlush, this`taken, this`syms, this`last, tempBuf
      modifies dec, dec.dic, dec.rc, dec.rc.probs, dest
      ensures ok ==> Valid() && srcLen <= |src| && Bytes() == old(Bytes()) + src[..srcLen]
      ensures ok ==> destLen <= dest.Length && dec.hist == old(dec.hist) + dest[..destLen]
      ensures ok ==> Told(status, src[srcLen..])
      ensures ok ==> destLen == dest.Length || status == FinishedWithMark || status == NeedsMoreInput
      ensures !ok ==> Fault(dec.props, dec.dicBufSize, old(Bytes()) + src)
    {
      hide Valid, Bytes, Fault, Held, LzmaDecoder.Valid;
      destLen, srcLen := 0, 0;
      while true
        invariant Valid() && srcLen <= |src| && Bytes() == old(Bytes()) + src[..srcLen]
        invariant destLen <= dest.Length && dec.hist == old(dec.hist) + dest[..destLen]
        decreases dest.Length - destLen
      {
        var n, used;
        ghost var h := dec.hist;
        ok, n, used, status := BufTurn(dest, destLen, src[srcLen..]);
        Resliced(old(Bytes()), src, srcLen, used);
        if !ok {
          return;
        }
        destLen, srcLen := destLen + n, srcLen + used;
        Regrown(old(dec.hist), h, dec.hist, dest[..destLen - n], dest[..destLen]);
        if n == 0 || destLen == dest.Length {
          return;
        }
      }
    }

    /** Where a decoder that is fed a genuine stream stands. */
    ghost predicate Follows(enc: seq<Symbol>, stream: seq<Byte>)
      reads this, dec, dec.dic, dec.rc, dec.rc.probs, tempBuf
      requires Playable(START, enc)
    {
      && |Bytes()| <= |stream| && dec.hist <= Run(START, enc).hist
      && (last != [] ==> Bytes() == stream && dec.hist == Run(START, enc).hist)
      && (needFlush || Held() ==> |Bytes()| < |stream|)
    }

    /**
     * Fed a genuine stream, with whatever comes behind it, a decoder never takes more than
     * the stream, puts out only the coder's bytes, has all of both at the marker, and asks
     * for more only before the stream's end.
     */
    lemma Genuine(enc: seq<Symbol>, stream: seq<Byte>)
      requires ValidProps(dec.props) && Playable(START, enc) && IsStream(dec.props, enc, stream)
      requires Agrees(stream, Bytes()) && Valid()
      ensures Follows(enc, stream)
    {
      hide NumProbs, Run, Playable, IsStream, LzmaDecoder.Valid, Traced, Short;
      if needFlush {
        StreamReads(dec.props, enc, stream);
        assert dec.hist == [];
      } else {
        GenuineMatched(enc, stream);
      }
    }

    lemma GenuineMatched(enc: seq<Symbol>, stream: seq<Byte>)
      requires ValidProps(dec.props) && Playable(START, enc) && IsStream(dec.props, enc, stream)
      requires Agrees(stream, Bytes()) && Apart() && Sound() && Matched() && !needFlush && (tempBufSize > 0 ==> Held())
      ensures Follows(enc, stream)
    {
      hide NumProbs, Run, Playable, IsStream, LzmaDecoder.DicHolds, LzmaDecoder.Counters, RangeDecoder.Valid, Traced, Short;
      TracedPlays(dec.props, taken, syms, last, End());
      PutOut(Due());
      GenuineTraced(dec.props, enc, stream, taken, syms, last, End());
      PlayPrefix(dec.props, START, enc, |syms|);
      assert enc[..|syms|] == syms;
      if Held() {
        GenuineShort(dec.props, enc, stream, taken, syms, End(), tempBuf[..tempBufSize]);
      }
    }

    /** What was put out lacks only what the last match still owes. */
    lemma PutOut(z: Lz)
      requires Sound() && Due() == z
      ensures dec.hist <= z.hist && (dec.Owed() == 0 ==> dec.hist == z.hist)
    {
      hide NumProbs, LzmaDecoder.DicHolds, LzmaDecoder.Counters, RangeDecoder.Valid, Copy;
      if dec.Owed() > 0 {
        CopyExtends(dec.hist, dec.reps[0] - 1, dec.Owed());
      }
    }
  }

  /** Bytes taken from tempBuf are the ones held before and the first of the new ones. */
  lemma Spliced(taken: seq<Byte>, held: seq<Byte>, src: seq<Byte>, n: nat, used: nat)
    requires n <= |src| && |held| <= used <= |held| + n
    ensures taken + (held + src[..n])[..used] == (taken + held) + src[..used - |held|]
    ensures taken + (held + src[..n]) <= (taken + held) + src
  {
    assert taken + (held + src[..n]) == (taken + held) + src[..n];
  }

  lemma Resliced(before: seq<Byte>, src: seq<Byte>, i: nat, n: nat)
    requires i <= |src|
    ensures (before + src[..i]) + src[i..] == before + src
    ensures i + n <= |src| ==> (before + src[..i]) + src[i..][..n] == before + src[..i + n]
  {
    if i + n <= |src| {
      assert src[..i] + src[i..][..n] == src[..i + n];
    }
  }

  lemma Regrown(h0: seq<Byte>, h1: seq<Byte>, h2: seq<Byte>, d1: seq<Byte>, d2: seq<Byte>)
    requires h1 == h0 + d1 && h1 <= h2 && d2 == d1 + h2[|h1|..]
    ensures h2 == h0 + d2
  {
    assert h2 == h1 + h2[|h1|..];
  }
}
