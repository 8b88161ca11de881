// LzFind.c: searching the tree while it is rebuilt around the new position, and the match
// finder with four hash bytes on top of it.

module MatchFinders {
  import opened Bytes
  import opened Bits
  import opened MatchTrees
  import opened CyclicTrees
  import opened MatchWalks
  import opened MatchForests
  import opened MatchHashes
  import opened MatchIndexes

  /** The comparison in GetMatchesSpec1, for texts that agree in their first `len` bytes. */
  method CompareSearching(text: seq<Byte>, pb: nat, cur: nat, start: nat, lenLimit: nat) returns (len: nat)
    requires start < lenLimit && pb + lenLimit <= |text| && cur + lenLimit <= |text|
    ensures len == CommonFrom(text, pb, cur, lenLimit, start)
  {
    hide CommonFrom;
    len := start;
    if text[pb + len] == text[cur + len] {
      len := len + 1;
      if len != lenLimit && text[pb + len] == text[cur + len] {
        len := len + 1;
        while len != lenLimit
          invariant start < len <= lenLimit && AgreeFrom(text, pb, cur, start, len)
        {
          if text[pb + len] != text[cur + len] {
            break;
          }
          len := len + 1;
        }
      }
    }
    FromIs(text, pb, cur, lenLimit, start, len);
  }

  /** The comparison in SkipMatchesSpec. */
  method CompareSkipping(text: seq<Byte>, pb: nat, cur: nat, start: nat, lenLimit: nat) returns (len: nat)
    requires start < lenLimit && pb + lenLimit <= |text| && cur + lenLimit <= |text|
    ensures len == CommonFrom(text, pb, cur, lenLimit, start)
  {
    hide CommonFrom;
    len := start;
    if text[pb + len] == text[cur + len] {
      len := len + 1;
      while len != lenLimit
        invariant start < len <= lenLimit && AgreeFrom(text, pb, cur, start, len)
      {
        if text[pb + len] != text[cur + len] {
          break;
        }
        len := len + 1;
      }
    }
    FromIs(text, pb, cur, lenLimit, start, len);
  }

  /** The end of a turn in both loops: the entry goes into the waiting cell of its side, and its other side is next. */
  method NextCell(son: array<nat>, ptr0: nat, ptr1: nat, match_: nat, len0: nat, len1: nat, pair: nat, smaller: bool, len: nat,
                  ghost w: Window, ghost s: Spot)
    returns (nextPtr0: nat, nextPtr1: nat, nextMatch: nat, nextLen0: nat, nextLen1: nat)
    requires Shaped(w, s) && Near(w, s) && Delta(w, s) < w.cyc && len == Reach(w, s) < w.limit && pair == Pair(w, s)
    requires s == Spot(son[..], match_, ptr1, ptr0, len1, len0)
    requires smaller == (w.text[w.cur - Delta(w, s) + len] < w.text[w.cur + len])
    modifies son
    ensures Spot(son[..], nextMatch, nextPtr1, nextPtr0, nextLen1, nextLen0) == Next(w, s)
  {
    hide CommonFrom, PairIndex, Reach;
    nextPtr0, nextPtr1, nextLen0, nextLen1 := ptr0, ptr1, len0, len1;
    if smaller {
      son[ptr1] := match_;
      assert son[..] == s.son[s.one := s.v];
      nextPtr1 := pair + 1;
      nextMatch := son[nextPtr1];
      nextLen1 := len;
    } else {
      son[ptr0] := match_;
      assert son[..] == s.son[s.zero := s.v];
      nextPtr0 := pair;
      nextMatch := son[nextPtr0];
      nextLen0 := len;
    }
  }

  /** The end of the walk: nothing more hangs in the two waiting cells. */
  method HangEmpty(son: array<nat>, ptr0: nat, ptr1: nat)
    requires ptr0 < son.Length && ptr1 < son.Length
    modifies son
    ensures son[..] == old(son[..])[ptr0 := EMPTY_HASH][ptr1 := EMPTY_HASH]
  {
    son[ptr0] := EMPTY_HASH;
    son[ptr1] := EMPTY_HASH;
  }

  /** A match as long as it may be: the new node takes over both children. */
  method TakeOver(son: array<nat>, ptr0: nat, ptr1: nat, pair: nat)
    requires ptr0 < son.Length && ptr1 < son.Length && pair + 1 < son.Length
    modifies son
    ensures var was := old(son[..])[ptr1 := old(son[pair])]; son[..] == was[ptr0 := was[pair + 1]]
  {
    son[ptr1] := son[pair];
    son[ptr0] := son[pair + 1];
  }

  /**
   * GetMatchesSpec1: the walk through the array, and the matches on the way.  Bytes that the
   * two bounds imply are not compared.
   */
  method GetMatchesSpec1(lenLimit: nat, curMatch: nat, pos: int, text: seq<Byte>, cur: nat, son: array<nat>,
                         cyclicBufferPos: nat, cyclicBufferSize: nat, cutValue: nat, maxLen: nat, ghost w: Window)
    returns (distances: seq<Found>)
    requires w == Window(text, cur, pos - cur, cyclicBufferSize, lenLimit) && ValidWindow(w) && maxLen < lenLimit
    requires son.Length == 2 * cyclicBufferSize && cyclicBufferPos == Turn(cur, cyclicBufferSize)
    requires Stays(w, Spot(son[..], curMatch, 2 * cyclicBufferPos, 2 * cyclicBufferPos + 1, 0, 0), cutValue)
    modifies son
    ensures var s := Spot(old(son[..]), curMatch, 2 * cyclicBufferPos, 2 * cyclicBufferPos + 1, 0, 0);
            son[..] == Walk(w, s, cutValue) && distances == Finds(w, s, cutValue, maxLen)
  {
    hide Stays, Walk, Finds, Turn, CommonFrom, Next;
    var match_: nat, cut: nat, best: nat := curMatch, cutValue, maxLen;
    var ptr0: nat, ptr1: nat := 2 * cyclicBufferPos + 1, 2 * cyclicBufferPos;
    var len0: nat, len1: nat := 0, 0;
    distances := [];
    ghost var s := Spot(son[..], match_, ptr1, ptr0, len1, len0);
    ghost var end, all := Walk(w, s, cut), Finds(w, s, cut, best);
    assert [] + all == all;
    while true
      invariant s == Spot(son[..], match_, ptr1, ptr0, len1, len0) && Shaped(w, s) && Stays(w, s, cut)
      invariant best < lenLimit && Walk(w, s, cut) == end && distances + Finds(w, s, cut, best) == all
      decreases cut
    {
      var delta := pos - match_;
      if cut == 0 || delta >= cyclicBufferSize {
        WalkEnds(w, s, cut, best, distances);
        HangEmpty(son, ptr0, ptr1);
        return;
      }
      WalkNear(w, s, cut);
      cut := cut - 1;
      var pair := PairIndex(cyclicBufferPos, cyclicBufferSize, delta);
      var pb := cur - delta;
      var len := CompareSearching(text, pb, cur, if len0 < len1 then len0 else len1, lenLimit);
      ghost var best0, before := best, distances;
      if best < len {
        best := len;
        distances := distances + [Found(len, delta - 1)];
        if len == lenLimit {
          WalkFull(w, s, cut + 1, best0, before);
          TakeOver(son, ptr0, ptr1, pair);
          return;
        }
      }
      WalkGoesOn(w, s, cut + 1, best0, before);
      ptr0, ptr1, match_, len0, len1 := NextCell(son, ptr0, ptr1, match_, len0, len1, pair, text[pb + len] < text[cur + len], len, w, s);
      s := Next(w, s);
    }
  }

  /** SkipMatchesSpec: the same walk without the matches. */
  method SkipMatchesSpec(lenLimit: nat, curMatch: nat, pos: int, text: seq<Byte>, cur: nat, son: array<nat>,
                         cyclicBufferPos: nat, cyclicBufferSize: nat, cutValue: nat, ghost w: Window)
    requires w == Window(text, cur, pos - cur, cyclicBufferSize, lenLimit) && ValidWindow(w)
    requires son.Length == 2 * cyclicBufferSize && cyclicBufferPos == Turn(cur, cyclicBufferSize)
    requires Stays(w, Spot(son[..], curMatch, 2 * cyclicBufferPos, 2 * cyclicBufferPos + 1, 0, 0), cutValue)
    modifies son
    ensures son[..] == Walk(w, Spot(old(son[..]), curMatch, 2 * cyclicBufferPos, 2 * cyclicBufferPos + 1, 0, 0), cutValue)
  {
    hide Stays, Walk, Finds, Turn, CommonFrom, Next;
    var match_: nat, cut: nat := curMatch, cutValue;
    var ptr0: nat, ptr1: nat := 2 * cyclicBufferPos + 1, 2 * cyclicBufferPos;
    var len0: nat, len1: nat := 0, 0;
    ghost var s := Spot(son[..], match_, ptr1, ptr0, len1, len0);
    ghost var end := Walk(w, s, cut);
    while true
      invariant s == Spot(son[..], match_, ptr1, ptr0, len1, len0) && Shaped(w, s) && Stays(w, s, cut) && Walk(w, s, cut) == end
      decreases cut
    {
      var delta := pos - match_;
      if cut == 0 || delta >= cyclicBufferSize {
        WalkEnds(w, s, cut, 0, []);
        HangEmpty(son, ptr0, ptr1);
        return;
      }
      WalkNear(w, s, cut);
      cut := cut - 1;
      var pair := PairIndex(cyclicBufferPos, cyclicBufferSize, delta);
      var pb := cur - delta;
      var len := CompareSkipping(text, pb, cur, if len0 < len1 then len0 else len1, lenLimit);
      if len == lenLimit {
        WalkFull(w, s, cut + 1, 0, []);
        TakeOver(son, ptr0, ptr1, pair);
        return;
      }
      WalkGoesOn(w, s, cut + 1, 0, []);
      ptr0, ptr1, match_, len0, len1 := NextCell(son, ptr0, ptr1, match_, len0, len1, pair, text[pb + len] < text[cur + len], len, w, s);
      s := Next(w, s);
    }
  }

  /**
   * Searching, from whatever length on, and skipping leave the same array, whatever the
   * entries are as long as they are earlier positions.
   */
  method SearchAndSkipAgree(lenLimit: nat, curMatch: nat, pos: int, text: seq<Byte>, cur: nat,
                            searched: array<nat>, skipped: array<nat>, cyclicBufferPos: nat, cyclicBufferSize: nat,
                            cutValue: nat, maxLen: nat, ghost w: Window)
    returns (distances: seq<Found>)
    requires w == Window(text, cur, pos - cur, cyclicBufferSize, lenLimit) && ValidWindow(w) && maxLen < lenLimit
    requires searched.Length == 2 * cyclicBufferSize && cyclicBufferPos == Turn(cur, cyclicBufferSize)
    requires searched != skipped && searched[..] == skipped[..]
    requires Earlier(w, curMatch) && forall q :: 0 <= q < searched.Length ==> Earlier(w, searched[q])
    modifies searched, skipped
    ensures searched[..] == skipped[..]
  {
    hide Turn, Walk, Finds, Stays;
    assert |searched[..]| == |skipped[..]|;
    EarlierStays(w, Spot(searched[..], curMatch, 2 * cyclicBufferPos, 2 * cyclicBufferPos + 1, 0, 0), cutValue);
    distances := GetMatchesSpec1(lenLimit, curMatch, pos, text, cur, searched, cyclicBufferPos, cyclicBufferSize,
                                 cutValue, maxLen, w);
    SkipMatchesSpec(lenLimit, curMatch, pos, text, cur, skipped, cyclicBufferPos, cyclicBufferSize, cutValue, w);
  }

  // ----- the match finder with four hash bytes

  const MAX_POS := 0xFFFF_FFFF
  const NORMALIZE_STEP := 0x400

  /** A table entry that is within reach is an earlier position whose bytes hash to the entry's index. */
  ghost predicate Hit2(w: Window, crc: seq<nat>, h: nat, v: int, bound: nat)
    requires |crc| == 256
  {
    w.cur + w.base - v < w.cyc ==>
      && w.base <= v < bound + w.base && Hash2At(w.text, crc, v - w.base) == h
  }

  ghost predicate Hit3(w: Window, crc: seq<nat>, h: nat, v: int, bound: nat)
    requires |crc| == 256
  {
    w.cur + w.base - v < w.cyc ==>
      && w.base <= v < bound + w.base && Hash3At(w.text, crc, v - w.base) == h
  }

  /** What an entry says of the tables stays true one position on. */
  lemma HitsStay(w: Window, next: Window, crc: seq<nat>)
    requires |crc| == 256 && next.text == w.text && next.cyc == w.cyc && next.base == w.base && next.cur == w.cur + 1
    ensures forall h: nat, v: int, bound: nat :: Hit2(w, crc, h, v, bound) ==> Hit2(next, crc, h, v, bound)
    ensures forall h: nat, v: int, bound: nat :: Hit3(w, crc, h, v, bound) ==> Hit3(next, crc, h, v, bound)
  {
  }

  class MatchFinder {
    const text: seq<Byte>
    const crc: seq<nat>
    const hashBits: nat
    const historySize: nat
    const cyclicBufferSize: nat
    const matchMaxLen: nat
    const keepSizeAfter: nat
    const cutValue: nat
    const hash: array<nat>
    const son: array<nat>
    /** Index in `text` of the byte that C's `buffer` points to. */
    var buffer: nat
    var pos: int
    var posLimit: int
    var streamPos: int
    var lenLimit: nat
    var cyclicBufferPos: nat
    var streamEndWasReached: bool

    /** The search tree of each bucket of the main hash. */
    ghost var forest: seq<Tree>

    ghost function Here(): Window
      reads this`buffer, this`pos, this`lenLimit
    {
      Window(text, buffer, pos - buffer, cyclicBufferSize, lenLimit)
    }

    ghost predicate Shape() {
      && |crc| == 256 && cyclicBufferSize == historySize + 1 && historySize >= 1
      && son.Length == 2 * cyclicBufferSize && hash.Length == FIX4_HASH_SIZE + Pow2(hashBits) && hash != son
      && 1 <= matchMaxLen <= keepSizeAfter && cyclicBufferSize + NORMALIZE_STEP <= MAX_POS
    }

    /** How many bytes are known from the current one on. */
    function Avail(): int
      reads this`pos, this`streamPos
    {
      streamPos - pos
    }

    /** What Mf_SetLimits and Mf_ReadBlock leave behind. */
    ghost predicate Limits()
      reads this`buffer, this`pos, this`posLimit, this`streamPos, this`lenLimit, this`cyclicBufferPos, this`streamEndWasReached
    {
      && cyclicBufferSize <= pos <= posLimit <= MAX_POS && 0 <= Avail() <= |text| - buffer
      && cyclicBufferPos < cyclicBufferSize && cyclicBufferPos == Turn(buffer, cyclicBufferSize)
      && posLimit - pos <= cyclicBufferSize - cyclicBufferPos && (streamEndWasReached ==> Avail() == |text| - buffer)
      && (if Avail() > keepSizeAfter then pos < posLimit <= streamPos - keepSizeAfter && lenLimit == matchMaxLen
          else streamEndWasReached && posLimit == pos + (if Avail() > 0 then 1 else 0)
               && lenLimit == if Avail() > matchMaxLen then matchMaxLen else Avail())
    }

    ghost predicate Heads2(bound: nat)
      requires Shape()
      reads this`buffer, this`pos, this`lenLimit, hash
    {
      forall h :: 0 <= h < FIX3_HASH_SIZE ==> Hit2(Here(), crc, h, hash[h], bound)
    }

    ghost predicate Heads3(bound: nat)
      requires Shape()
      reads this`buffer, this`pos, this`lenLimit, hash
    {
      forall h :: FIX3_HASH_SIZE <= h < FIX4_HASH_SIZE ==> Hit3(Here(), crc, h - FIX3_HASH_SIZE, hash[h], bound)
    }

    ghost predicate Trees(bound: nat)
      requires Shape()
      reads this`buffer, this`pos, this`lenLimit, this`forest, hash, son
    {
      Forest(Here(), son[..], hash[FIX4_HASH_SIZE..], forest, bound)
    }

    /** The tables know every position of the window before `bound`. */
    ghost predicate Known(bound: nat)
      requires Shape()
      reads this`buffer, this`pos, this`lenLimit, this`forest, hash
    {
      Sized(crc, hashBits, hash[..], forest) && Indexed(Here(), crc, hashBits, hash[..], forest, cutValue, bound)
    }

    /** All that the tables say is true of the positions before `bound`, and none of these is missing. */
    ghost predicate Held(bound: nat)
      requires Shape()
      reads this`buffer, this`pos, this`lenLimit, this`forest, hash, son
    {
      Heads2(bound) && Heads3(bound) && Trees(bound) && Known(bound)
    }

    ghost predicate Valid()
      reads this, hash, son
    {
      Shape() && Limits() && Held(buffer)
    }

    /** Mf_Init, for tables already allocated in the source's sizes. */
    constructor (text: seq<Byte>, crc: seq<nat>, hashBits: nat, historySize: nat, matchMaxLen: nat, keepSizeAfter: nat,
                 cutValue: nat)
      requires |crc| == 256 && historySize >= 1 && historySize + 1 + NORMALIZE_STEP <= MAX_POS
      requires 1 <= matchMaxLen <= keepSizeAfter
      ensures Valid() && buffer == 0 && this.text == text && fresh(hash) && fresh(son)
      ensures this.cyclicBufferSize == historySize + 1 && this.matchMaxLen == matchMaxLen
    {
      this.text, this.crc, this.hashBits, this.historySize := text, crc, hashBits, historySize;
      this.matchMaxLen, this.keepSizeAfter, this.cutValue := matchMaxLen, keepSizeAfter, cutValue;
      cyclicBufferSize := historySize + 1;
      hash := new nat[FIX4_HASH_SIZE + Pow2(hashBits)](i => EMPTY_HASH);
      son := new nat[2 * (historySize + 1)];
      buffer, cyclicBufferPos, pos, streamPos := 0, 0, historySize + 1, historySize + 1;
      streamEndWasReached := false;
      forest := seq(Pow2(hashBits), i => Empty);
      new;
      ReadBlock();
      SetLimits();
      ForestStart(Here(), son[..], hash[FIX4_HASH_SIZE..], forest);
      IndexedStart(Here(), crc, hashBits, hash[..], forest, cutValue);
    }

    // ----- positions

    /** Mf_SetLimits */
    method SetLimits()
      requires Shape() && cyclicBufferSize <= pos < MAX_POS && 0 <= Avail() <= |text| - buffer
      requires cyclicBufferPos < cyclicBufferSize && cyclicBufferPos == Turn(buffer, cyclicBufferSize)
      requires streamEndWasReached || Avail() > keepSizeAfter
      requires streamEndWasReached ==> Avail() == |text| - buffer
      modifies this`posLimit, this`lenLimit
      ensures Limits()
    {
      var limit := MAX_POS - pos;
      var limit2: int := cyclicBufferSize - cyclicBufferPos;
      if limit2 < limit {
        limit := limit2;
      }
      limit2 := streamPos - pos;
      if limit2 <= keepSizeAfter {
        if limit2 > 0 {
          limit2 := 1;
        }
      } else {
        limit2 := limit2 - keepSizeAfter;
      }
      if limit2 < limit {
        limit := limit2;
      }
      lenLimit := streamPos - pos;
      if lenLimit > matchMaxLen {
        lenLimit := matchMaxLen;
      }
      posLimit := pos + limit;
    }

    /** Mf_ReadBlock: more than keepSizeAfter bytes ahead, or all there are. */
    method ReadBlock()
      requires Shape() && 0 <= Avail() <= |text| - buffer
      requires streamEndWasReached ==> Avail() == |text| - buffer
      modifies this`streamPos, this`streamEndWasReached
      ensures old(streamPos) <= streamPos && Avail() <= |text| - buffer
      ensures streamEndWasReached || Avail() > keepSizeAfter
      ensures streamEndWasReached ==> Avail() == |text| - buffer
    {
      if streamEndWasReached {
        return;
      }
      var size :| 0 <= size <= |text| - buffer - Avail();
      if Avail() + size > keepSizeAfter {
        streamPos := streamPos + size;
      } else {
        streamPos := pos + (|text| - buffer);
        streamEndWasReached := true;
      }
    }

    /** Mf_Normalize3 on one of the two tables. */
    method Normalize3(subValue: nat, items: array<nat>)
      modifies items
      ensures forall q :: 0 <= q < items.Length ==> items[q] == Renumber(old(items[q]), subValue)
    {
      for i := 0 to items.Length
        invariant forall q :: 0 <= q < i ==> items[q] == Renumber(old(items[q]), subValue)
        invariant forall q :: i <= q < items.Length ==> items[q] == old(items[q])
      {
        var value := items[i];
        if value <= subValue {
          value := EMPTY_HASH;
        } else {
          value := value - subValue;
        }
        items[i] := value;
      }
    }

    /** Mf_Normalize: all positions get smaller numbers before they outgrow 32 bits. */
    method Normalize()
      requires Shape() && Held(buffer) && pos >= cyclicBufferSize
      modifies this`pos, this`posLimit, this`streamPos, hash, son
      ensures Held(buffer) && Avail() == old(Avail()) && posLimit - pos == old(posLimit - pos)
      ensures cyclicBufferSize <= pos < cyclicBufferSize + NORMALIZE_STEP
    {
      hide Forest, Renumber, Indexed;
      ghost var w, son0, hash0 := Here(), son[..], hash[..];
      var subValue := (pos - historySize - 1) / NORMALIZE_STEP * NORMALIZE_STEP;
      Normalize3(subValue, hash);
      Normalize3(subValue, son);
      posLimit := posLimit - subValue;
      pos := pos - subValue;
      streamPos := streamPos - subValue;
      RenumberHeads(w, hash0, subValue);
      IndexedRenumbered(w, crc, hashBits, hash0, forest, cutValue, buffer, hash[..], subValue);
      ForestRenumber(w, son0, hash0[FIX4_HASH_SIZE..], forest, buffer, son[..], hash[FIX4_HASH_SIZE..], subValue);
    }

    lemma RenumberHeads(w: Window, hash0: seq<nat>, subValue: nat)
      requires Shape() && |hash0| == hash.Length && Here() == w.(base := w.base - subValue) && w.cyc == cyclicBufferSize
      requires w.cur + w.base - subValue >= w.cyc
      requires forall q :: 0 <= q < |hash0| ==> hash[q] == Renumber(hash0[q], subValue)
      requires forall h :: 0 <= h < FIX3_HASH_SIZE ==> Hit2(w, crc, h, hash0[h], w.cur)
      requires forall h :: FIX3_HASH_SIZE <= h < FIX4_HASH_SIZE ==> Hit3(w, crc, h - FIX3_HASH_SIZE, hash0[h], w.cur)
      ensures Heads2(w.cur) && Heads3(w.cur)
    {
    }

    /** Mf_CheckLimits: at posLimit, renumbering, reading ahead and the wrap of the cyclic array. */
    method CheckLimits()
      requires Shape() && Held(buffer) && cyclicBufferSize < pos <= MAX_POS && 0 <= Avail() <= |text| - buffer
      requires cyclicBufferPos <= cyclicBufferSize
      requires Turn(buffer, cyclicBufferSize) == if cyclicBufferPos == cyclicBufferSize then 0 else cyclicBufferPos
      requires streamEndWasReached || Avail() >= keepSizeAfter
      requires streamEndWasReached ==> Avail() == |text| - buffer
      requires lenLimit >= if Avail() > matchMaxLen then matchMaxLen else Avail()
      modifies this`pos, this`posLimit, this`streamPos, this`lenLimit, this`cyclicBufferPos, this`streamEndWasReached, hash, son
      ensures Valid() && old(Avail()) <= Avail()
    {
      hide Held, Turn;
      if pos == MAX_POS {
        Normalize();
      }
      if !streamEndWasReached && keepSizeAfter == streamPos - pos {
        ReadBlock();
      }
      if cyclicBufferPos == cyclicBufferSize {
        cyclicBufferPos := 0;
      }
      Relimit();
    }

    /** New limits are no longer than the old ones, and what the tables say stays true. */
    method Relimit()
      requires Shape() && Held(buffer) && cyclicBufferSize <= pos < MAX_POS && 0 <= Avail() <= |text| - buffer
      requires cyclicBufferPos < cyclicBufferSize && cyclicBufferPos == Turn(buffer, cyclicBufferSize)
      requires streamEndWasReached || Avail() > keepSizeAfter
      requires streamEndWasReached ==> Avail() == |text| - buffer
      requires lenLimit >= if Avail() > matchMaxLen then matchMaxLen else Avail()
      modifies this`posLimit, this`lenLimit
      ensures Valid()
    {
      hide Forest, Turn, Hash2At, Hash3At, Indexed;
      ghost var w := Here();
      SetLimits();
      IndexedShorter(w, Here(), crc, hashBits, hash[..], forest, cutValue, buffer);
      ForestShorter(w, Here(), son[..], hash[FIX4_HASH_SIZE..], forest, buffer);
    }

    lemma HeapsOf(w: Window, son: seq<int>, heads: seq<int>, trees: seq<Tree>, bound: nat)
      requires Forest(w, son, heads, trees, bound)
      ensures forall h :: 0 <= h < |trees| ==> Heap(trees[h])
    {
      forall h | 0 <= h < |trees|
        ensures Heap(trees[h])
      {
        assert Planted(w, son, heads[h], trees[h], bound);
      }
    }

    /** MOVE_POS */
    method MovePos()
      requires Shape() && Limits() && Held(buffer + 1) && Avail() > 0
      modifies this, hash, son
      ensures Valid() && buffer == old(buffer) + 1 && old(Avail()) - 1 <= Avail()
    {
      hide Forest, Turn, Hit2, Hit3, Indexed;
      TurnNext(buffer, cyclicBufferSize);
      ghost var w := Here();
      cyclicBufferPos := cyclicBufferPos + 1;
      buffer := buffer + 1;
      pos := pos + 1;
      HitsStay(w, Here(), crc);
      HeapsOf(w, son[..], hash[FIX4_HASH_SIZE..], forest, buffer);
      IndexedAged(w, Here(), crc, hashBits, hash[..], forest, cutValue, buffer);
      ForestAge(w, Here(), son[..], hash[FIX4_HASH_SIZE..], forest, buffer);
      forest := PruneAll(Here(), forest);
      if pos == posLimit {
        CheckLimits();
      }
    }

    // ----- searching and skipping

    /** HASH4_CALC */
    method Hashes() returns (h2: nat, h3: nat, h4: nat)
      requires Shape() && buffer + MIN_HASH_LEN <= |text|
      ensures h2 == Hash2At(text, crc, buffer) && h3 == Hash3At(text, crc, buffer)
      ensures h4 == Hash4At(text, crc, hashBits, buffer)
    {
      h2 := Hash2(crc, text[buffer], text[buffer + 1]);
      h3 := Hash3(crc, text[buffer], text[buffer + 1], text[buffer + 2]);
      h4 := Hash4(crc, hashBits, text[buffer], text[buffer + 1], text[buffer + 2], text[buffer + 3]);
    }

    /** An entry `delta` back that is within reach has the two-byte (three-byte) hash of the current text. */
    ghost predicate Candidates(delta2: int, delta3: int)
      requires Shape()
      reads this`buffer
    {
      && (delta2 < cyclicBufferSize ==> 1 <= delta2 <= buffer && Hash2At(text, crc, buffer - delta2) == Hash2At(text, crc, buffer))
      && (delta3 < cyclicBufferSize ==> 1 <= delta3 <= buffer && Hash3At(text, crc, buffer - delta3) == Hash3At(text, crc, buffer))
    }

    lemma Buckets(bound: nat)
      requires Shape() && Trees(bound)
      ensures |forest| == hash.Length - FIX4_HASH_SIZE
    {
    }

    /** Reads the three table entries for the current text and makes them point to it. */
    method TakeHeads() returns (delta2: int, delta3: int, curMatch: nat, h4: nat)
      requires Shape() && Held(buffer) && buffer + MIN_HASH_LEN <= |text| && 0 <= pos
      modifies hash
      ensures Heads2(buffer + 1) && Heads3(buffer + 1) && Candidates(delta2, delta3) && h4 < |forest|
      ensures FIX4_HASH_SIZE + h4 < hash.Length && curMatch == old(hash[FIX4_HASH_SIZE + h4])
      ensures hash[FIX4_HASH_SIZE..] == old(hash[FIX4_HASH_SIZE..])[h4 := pos] && h4 == Hash4At(text, crc, hashBits, buffer)
      ensures delta2 == pos - old(hash[Hash2At(text, crc, buffer)])
      ensures delta3 == pos - old(hash[FIX3_HASH_SIZE + Hash3At(text, crc, buffer)])
      ensures hash[..] == old(hash[..])[Hash2At(text, crc, buffer) := pos]
                          [FIX3_HASH_SIZE + Hash3At(text, crc, buffer) := pos][FIX4_HASH_SIZE + h4 := pos]
    {
      hide Hash2At, Hash3At, Hash4At, Pow2, Trees, Known;
      Buckets(buffer);
      var h2, h3;
      h2, h3, h4 := Hashes();
      assert Hit2(Here(), crc, h2, hash[h2], buffer) && Hit3(Here(), crc, h3, hash[FIX3_HASH_SIZE + h3], buffer);
      delta2 := pos - hash[h2];
      delta3 := pos - hash[FIX3_HASH_SIZE + h3];
      curMatch := hash[FIX4_HASH_SIZE + h4];
      hash[h2] := pos;
      hash[FIX3_HASH_SIZE + h3] := pos;
      hash[FIX4_HASH_SIZE + h4] := pos;
    }

    /** Puts the current position into its tree, by a search or by a skip. */
    method Insert(search: bool, maxLen: nat, curMatch: nat, h4: nat, ghost heads: seq<int>) returns (distances: seq<Found>)
      requires Shape() && ValidWindow(Here()) && cyclicBufferPos == Turn(buffer, cyclicBufferSize) && maxLen < lenLimit
      requires Forest(Here(), son[..], heads, forest, buffer) && h4 < |heads| && heads[h4] == curMatch
      requires hash[FIX4_HASH_SIZE..] == heads[h4 := pos]
      modifies this`forest, son
      ensures Trees(buffer + 1) && Rising(distances, maxLen)
      ensures distances == if search then Matches(Here(), old(forest[h4]), cutValue, maxLen) else []
      ensures forest == old(forest)[h4 := Inserted(Here(), old(forest[h4]), cutValue)]
      ensures forall i :: 0 <= i < |distances| ==> Genuine(Here(), distances[i])
    {
      hide Turn, Heap, NoDup, Ordered, Rewire, Rep, Genuine, Inserted, Below, Matches, Walk, Stays, Finds;
      ghost var w, t := Here(), forest[h4];
      assert Planted(w, son[..], curMatch, t, buffer);
      WalkStarts(w, son[..], curMatch, t, cutValue, maxLen);
      ForestInsert(w, son[..], heads, forest, h4, cutValue);
      RepLive(w, son[..], curMatch, t);
      distances := [];
      if search {
        MatchesGenuine(w, t, cutValue, maxLen);
        MatchesRise(w, t, cutValue, maxLen);
        distances := GetMatchesSpec1(lenLimit, curMatch, pos, text, buffer, son, cyclicBufferPos, cyclicBufferSize, cutValue, maxLen, w);
      } else {
        SkipMatchesSpec(lenLimit, curMatch, pos, text, buffer, son, cyclicBufferPos, cyclicBufferSize, cutValue, w);
      }
      forest := forest[h4 := Inserted(w, t, cutValue)];
    }

    /** Real matches, each longer than those before it. */
    ghost predicate Real(distances: seq<Found>)
      reads this`buffer, this`pos, this`lenLimit
    {
      Rising(distances, 1) && forall i :: 0 <= i < |distances| ==> Genuine(Here(), distances[i])
    }

    /** The text `delta` back does not go on agreeing after n bytes, or the limit is reached. */
    predicate EndsAt(delta: int, n: nat)
      reads this`buffer, this`lenLimit
    {
      n < lenLimit && delta <= buffer ==> At(text, buffer - delta, n) != At(text, buffer, n)
    }

    /** The last match so far is the longest, is `maxLen` long and cannot be longer; without one maxLen is 1. */
    ghost predicate Longest(distances: seq<Found>, maxLen: nat)
      reads this`buffer, this`pos, this`lenLimit
    {
      && Real(distances)
      && if distances == [] then maxLen == 1
         else distances[|distances| - 1].len == maxLen && EndsAt(distances[|distances| - 1].distance + 1, maxLen)
    }

    /** A match is real if its bytes agree and it is near enough. */
    lemma RealHit(distances: seq<Found>, delta: int, n: nat)
      requires Shape() && Real(distances) && n <= lenLimit && 1 <= delta <= buffer && delta < cyclicBufferSize
      requires n >= 2 && (distances == [] || distances[|distances| - 1].len < n) && Agree(text, buffer - delta, buffer, n)
      ensures Real(distances + [Found(n, delta - 1)])
    {
    }

    /** The last match, made as long as it can be. */
    lemma LongestHit(distances: seq<Found>, delta: int, n: nat)
      requires Shape() && Real(distances) && distances != [] && distances[|distances| - 1].len <= n <= lenLimit
      requires 1 <= delta <= buffer && delta < cyclicBufferSize && Agree(text, buffer - delta, buffer, n) && EndsAt(delta, n)
      ensures Longest(distances[|distances| - 1 := Found(n, delta - 1)], n)
    {
      hide Agree;
    }

    /**
     * The matches that the two- and three-byte tables give, of which only one byte is compared
     * at first; the last one is as long as it can be.
     */
    method ShortMatches(delta2: int, delta3: int) returns (distances: seq<Found>, maxLen: nat)
      requires Shape() && Candidates(delta2, delta3) && MIN_HASH_LEN <= lenLimit && buffer + lenLimit <= |text|
      ensures Longest(distances, maxLen) && 1 <= maxLen <= lenLimit
      ensures (Hits(Here(), delta2) ==> maxLen >= 2) && (Hits(Here(), delta3) ==> maxLen >= 3)
    {
      hide Hash2At, Hash3At, Real, Longest, Agree, EndsAt;
      NoHit();
      distances, maxLen := [], 1;
      var delta := delta2;
      if delta2 < cyclicBufferSize && text[buffer - delta2] == text[buffer] {
        TwoAgree(delta2);
        RealHit(distances, delta2, 2);
        maxLen := 2;
        distances := distances + [Found(2, delta2 - 1)];
      }
      if delta2 != delta3 && delta3 < cyclicBufferSize && text[buffer - delta3] == text[buffer] {
        ThreeAgree(delta3);
        RealHit(distances, delta3, 3);
        maxLen := 3;
        distances := distances + [Found(3, delta3 - 1)];
        delta := delta3;
      }
      if distances != [] {
        maxLen := Lengthen(delta, maxLen);
        if delta == delta3 && delta3 < cyclicBufferSize {
          ThirdAgrees(delta, maxLen);
        }
        LongestHit(distances, delta, maxLen);
        distances := distances[|distances| - 1 := Found(maxLen, delta - 1)];
      }
    }

    lemma NoHit()
      ensures Real([]) && Longest([], 1)
    {
    }

    /** How far the text `delta` back goes on agreeing. */
    method Lengthen(delta: int, from: nat) returns (maxLen: nat)
      requires 1 <= delta <= buffer && from <= lenLimit && buffer + lenLimit <= |text| && Agree(text, buffer - delta, buffer, from)
      ensures from <= maxLen <= lenLimit && Agree(text, buffer - delta, buffer, maxLen) && EndsAt(delta, maxLen)
    {
      maxLen := from;
      while maxLen != lenLimit
        invariant from <= maxLen <= lenLimit && Agree(text, buffer - delta, buffer, maxLen)
      {
        if text[buffer + maxLen - delta] != text[buffer + maxLen] {
          return;
        }
        assert At(text, buffer - delta, maxLen) == At(text, buffer, maxLen);
        maxLen := maxLen + 1;
      }
    }

    lemma TwoAgree(delta: int)
      requires Shape() && 1 <= delta <= buffer && buffer + 2 <= |text| && text[buffer - delta] == text[buffer]
      requires Hash2At(text, crc, buffer - delta) == Hash2At(text, crc, buffer)
      ensures Agree(text, buffer - delta, buffer, 2)
    {
      Hash2Tells(crc, text[buffer], text[buffer - delta + 1], text[buffer + 1]);
    }

    /** A three-byte hit is not cut off after two bytes. */
    lemma ThirdAgrees(delta: int, n: nat)
      requires Shape() && 1 <= delta <= buffer && buffer + 3 <= |text| && text[buffer - delta] == text[buffer]
      requires Hash3At(text, crc, buffer - delta) == Hash3At(text, crc, buffer)
      requires n >= 2 && EndsAt(delta, n) && MIN_HASH_LEN <= lenLimit
      ensures n >= 3
    {
      hide Hash2At, Hash3At;
      ThreeAgree(delta);
      assert At(text, buffer - delta, 2) == At(text, buffer, 2);
    }

    lemma ThreeAgree(delta: int)
      requires Shape() && 1 <= delta <= buffer && buffer + 3 <= |text| && text[buffer - delta] == text[buffer]
      requires Hash3At(text, crc, buffer - delta) == Hash3At(text, crc, buffer)
      ensures Agree(text, buffer - delta, buffer, 3)
    {
      var x := buffer - delta;
      Hash3Tells(crc, text[buffer], text[x + 1], text[x + 2], text[buffer + 1], text[buffer + 2]);
    }

    /**
     * Bt4_MatchFinder_GetMatches: every match is really there, within reach and the limit,
     * and longer than those before it; none longer is missed, as far as the tables are
     * searched; and the tables again tell the truth, and all of it, one position on.
     */
    method GetMatches() returns (distances: seq<Found>)
      requires Valid() && Avail() > 0
      modifies this, hash, son
      ensures Valid() && buffer == old(buffer) + 1
      ensures forall i :: 0 <= i < |distances| ==> Genuine(old(Here()), distances[i])
      ensures Rising(distances, 1) && MissesNothing(old(Here()), crc, cutValue, distances)
      ensures old(lenLimit) >= MIN_HASH_LEN ==>
                SearchesAll(old(Here()), old(forest[Hash4At(text, crc, hashBits, buffer)]), cutValue, distances)
    {
      hide Forest, Turn, Genuine, Hit2, Hit3, Candidates, Longest, Rising, Heads2, Heads3, Indexed, MissesNothing, SearchesAll, Hash2At,
           Hash3At, Hash4At, Hits, Matches, Inserted;
      distances := [];
      NoneRises();
      if lenLimit < MIN_HASH_LEN {
        TooShort();
        Later();
        MovePos();
        return;
      }
      ghost var w, hash0, forest0 := Here(), hash[..], forest;
      ghost var heads := hash[FIX4_HASH_SIZE..];
      Before();
      var delta2, delta3, curMatch, h4 := TakeHeads();
      var maxLen;
      distances, maxLen := ShortMatches(delta2, delta3);
      ghost var m, first, more := maxLen, distances, [];
      if maxLen == lenLimit {
        Joined(distances, maxLen, [], maxLen);
        assert distances + [] == distances;
        var none := Insert(false, 1, curMatch, h4, heads);
      } else {
        if maxLen < 3 {
          maxLen := 3;
        }
        var longer := Insert(true, maxLen, curMatch, h4, heads);
        Joined(distances, m, longer, maxLen);
        distances := distances + longer;
        more := longer;
      }
      Lasts(first, m, more, maxLen);
      TreeSearched(w, forest0[h4], cutValue, first, m, more);
      NothingMissed(w, crc, hashBits, hash0, forest0, cutValue, distances);
      IndexedInserted(w, crc, hashBits, hash0, forest0, cutValue, pos);
      MovePos();
    }

    /** What the tables say when a search begins: two sound entries, and the tree to be searched. */
    lemma Before()
      requires Shape() && Held(buffer)
      ensures Sized(crc, hashBits, hash[..], forest)
      ensures Sound2(Here(), crc, hash[Hash2At(text, crc, buffer)])
      ensures Sound3(Here(), crc, hash[FIX3_HASH_SIZE + Hash3At(text, crc, buffer)])
      ensures var t := forest[Hash4At(text, crc, hashBits, buffer)];
              Heap(t) && Below(t, buffer) && AllLive(Here(), t) && Ordered(text, lenLimit, t)
    {
      hide Hash2At, Hash3At, Hash4At, Heap, Below, Ordered, NoDup, Rep, Indexed;
      var h2, h3, h4 := Hash2At(text, crc, buffer), Hash3At(text, crc, buffer), Hash4At(text, crc, hashBits, buffer);
      assert Hit2(Here(), crc, h2, hash[h2], buffer);
      assert Hit3(Here(), crc, h3, hash[FIX3_HASH_SIZE + h3], buffer);
      assert Planted(Here(), son[..], hash[FIX4_HASH_SIZE..][h4], forest[h4], buffer);
      RepLive(Here(), son[..], hash[FIX4_HASH_SIZE..][h4], forest[h4]);
    }

    lemma TooShort()
      requires |crc| == 256 && lenLimit < MIN_HASH_LEN
      ensures MissesNothing(Here(), crc, cutValue, [])
    {
    }

    /** The last length, and that longer matches come behind it. */
    lemma Lasts(first: seq<Found>, m: nat, more: seq<Found>, maxLen: nat)
      requires Longest(first, m) && m <= maxLen && (more == [] || Rising(more, maxLen))
      ensures if first == [] then m == 1 else LastLen(first, 0) == m
      ensures m >= 2 ==> LastLen(first + more, 0) >= m
    {
    }

    lemma NoneRises()
      ensures Rising([], 1)
    {
    }

    /** Short matches, followed by longer ones. */
    lemma Joined(first: seq<Found>, m: nat, more: seq<Found>, maxLen: nat)
      requires more == [] || Rising(more, maxLen)
      requires Longest(first, m) && 1 <= m <= maxLen
      requires forall i :: 0 <= i < |more| ==> Genuine(Here(), more[i])
      ensures Rising(first + more, 1)
      ensures forall i :: 0 <= i < |first + more| ==> Genuine(Here(), (first + more)[i])
    {
      hide Genuine;
    }

    /** Where no match can be looked for any more, nothing need be known. */
    lemma Later()
      requires Shape() && Held(buffer) && lenLimit < MIN_HASH_LEN
      ensures Held(buffer + 1)
    {
      IndexedShort(Here(), crc, hashBits, hash[..], forest, cutValue, buffer + 1);
      ForestLater(Here(), son[..], hash[FIX4_HASH_SIZE..], forest, buffer);
    }

    /** Bt4_MatchFinder_Skip */
    method Skip(num: nat)
      requires Valid() && 1 <= num <= Avail()
      modifies this, hash, son
      ensures Valid() && buffer == old(buffer) + num
    {
      hide Valid;
      var left := num;
      while left != 0
        invariant Valid() && 0 <= left <= Avail() && buffer == old(buffer) + num - left
      {
        SkipOne();
        left := left - 1;
      }
    }

    method SkipOne()
      requires Valid() && Avail() > 0
      modifies this, hash, son
      ensures Valid() && buffer == old(buffer) + 1 && old(Avail()) - 1 <= Avail()
    {
      hide Forest, Turn, Hit2, Hit3, Candidates, Heads2, Heads3, Indexed, Inserted, Hash2At, Hash3At, Hash4At;
      if lenLimit < MIN_HASH_LEN {
        Later();
      } else {
        ghost var heads, w, hash0, forest0 := hash[FIX4_HASH_SIZE..], Here(), hash[..], forest;
        Before();
        var delta2, delta3, curMatch, h4 := TakeHeads();
        var none := Insert(false, 1, curMatch, h4, heads);
        IndexedInserted(w, crc, hashBits, hash0, forest0, cutValue, pos);
      }
      MovePos();
    }
  }
}
