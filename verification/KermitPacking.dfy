// getpkt and encode in gkermit.c: a file cut into data fields of bounded size, with runs
// counted ahead and what does not fit kept for the next field.

module KermitPacking {
  import opened Bytes
  import opened KermitQuoting

  /** The smallest field that spar lets through: packets of ten bytes with a block check of three. */
  const SMALLEST_FIELD := 4

  /** The most bytes that can be kept for the next field: a pair, or one group. */
  function MostLeft(q: Quoting): nat {
    if q.rptflg then 2 * MaxChar(q) else MaxChar(q)
  }

  class Packer {
    const q: Quoting
    const maxsiz: nat
    const file: seq<Byte>

    /** How much of the file zgetc has read. */
    var pos: nat
    /** 1 before the first character, 0 in the middle, -1 at the end. */
    var first: int
    /** The character read ahead. */
    var c: int
    var rpt: nat
    /** The data field under construction; its length is `size`. */
    var xdata: seq<Byte>
    var osize: nat
    var remain: seq<Byte>

    /** The groups held back in `remain`, and how much of the file the fields so far hold. */
    ghost var held: seq<Group>
    ghost var delivered: nat

    /** Groups and their bytes stand for a stretch of the file. */
    ghost predicate Stands(gs: seq<Group>, bytes: seq<Byte>, from: nat, to: nat) {
      && from <= to <= |file| && AllValid(q, gs) && bytes == Encoded(q, gs) && Plain(gs) == file[from..to]
    }

    /** The state between fields. */
    ghost predicate Valid()
      reads this
    {
      && ValidQuoting(q) && maxsiz >= SMALLEST_FIELD && pos <= |file| && |remain| <= MostLeft(q)
      && match first
         case 1 => pos == 0 && delivered == 0
         case 0 => pos >= 1 && c == file[pos - 1] && Stands(held, remain, delivered, pos - 1)
         case -1 => Stands(held, remain, delivered, |file|)
         case _ => false
    }

    constructor (q: Quoting, maxsiz: nat, file: seq<Byte>)
      requires ValidQuoting(q) && maxsiz >= SMALLEST_FIELD
      ensures Valid() && delivered == 0 && remain == [] && this.file == file && this.q == q && this.maxsiz == maxsiz
    {
      this.q, this.maxsiz, this.file := q, maxsiz, file;
      pos, first, c, rpt, osize := 0, 1, 0, 0, 0;
      xdata, remain, held, delivered := [], [], [], 0;
    }

    /** zgetc in binary mode: the next byte of the file, or -1. */
    method GetChar() returns (x: int)
      requires pos <= |file|
      modifies this`pos
      ensures if old(pos) < |file| then x == file[old(pos)] && pos == old(pos) + 1 else x == -1 && pos == old(pos)
    {
      if pos < |file| {
        x := file[pos];
        pos := pos + 1;
      } else {
        x := -1;
      }
    }

    /** The tail of encode: one character with its prefixes. */
    method PutChar(a: Byte)
      modifies this`xdata
      ensures xdata == old(xdata) + CharBytes(q, a)
    {
      var a7: Byte := a % 128;
      var out: Byte := a;
      if q.ebqflg && a >= 128 {
        xdata := xdata + [q.ebq];
        out := a7;
      }
      if a7 < 32 || a7 == 127 {
        xdata := xdata + [q.ctlq];
        out := Ctl(out);
      } else if a7 == q.ctlq {
        xdata := xdata + [q.ctlq];
      } else if q.ebqflg && a7 == q.ebq {
        xdata := xdata + [q.ctlq];
      } else if q.rptflg && a7 == q.rptq {
        xdata := xdata + [q.ctlq];
      }
      xdata := xdata + [out];
    }

    /**
     * encode: counts a run, or puts out what was counted.  After a run of two, osize marks
     * the place between the two characters if the first still fits.
     */
    method Encode(a: Byte, next: int) returns (ghost gs: seq<Group>)
      requires rpt < MAX_RUN && (!q.rptflg ==> rpt == 0) && -1 <= next < 256
      modifies this`xdata, this`osize, this`rpt
      ensures rpt < MAX_RUN && (!q.rptflg ==> rpt == 0) && AllValid(q, gs)
      ensures xdata == old(xdata) + Encoded(q, gs)
      ensures gs == [] <==> q.rptflg && a == next && old(rpt) + 1 < MAX_RUN
      ensures gs == [] ==> rpt == old(rpt) + 1 && osize == old(osize)
      ensures gs != [] ==> rpt == 0 && Plain(gs) == Repeat(old(rpt) + 1, a)
      ensures |gs| == 1 ==> osize == old(osize)
      ensures |gs| <= 2 && (|gs| == 2 <==> q.rptflg && a != next && old(rpt) == 1)
      ensures |gs| == 2 ==> gs == [Group(1, a), Group(1, a)] && |xdata| == |old(xdata)| + 2 * |CharBytes(q, a)|
                            && osize == if |old(xdata)| + |CharBytes(q, a)| <= maxsiz then |old(xdata)| + |CharBytes(q, a)|
                                        else old(osize)
    {
      hide CharBytes, Repeat;
      PairOf(q, a);
      gs := [];
      if q.rptflg {
        if a == next {
          rpt := rpt + 1;
          if rpt < MAX_RUN {
            return;
          } else if rpt == MAX_RUN {
            xdata := xdata + [q.rptq];
            xdata := xdata + [rpt + 32];
            rpt := 0;
          }
        } else if rpt == 1 {
          rpt := 0;
          PutChar(a);
          if |xdata| <= maxsiz {
            osize := |xdata|;
          }
          rpt := 0;
          PutChar(a);
          gs := [Group(1, a), Group(1, a)];
          assert xdata == old(xdata) + (CharBytes(q, a) + CharBytes(q, a));
          return;
        } else if rpt > 1 {
          xdata := xdata + [q.rptq];
          rpt := rpt + 1;
          xdata := xdata + [rpt + 32];
          rpt := 0;
        }
      }
      PutChar(a);
      ghost var g := Group(old(rpt) + 1, a);
      EncodedOne(q, g);
      gs := [g];
      assert xdata == old(xdata) + ((if g.count > 1 then [q.rptq, g.count + 32] else []) + CharBytes(q, a));
    }

    /** A character that came exactly twice. */
    ghost predicate Pair(hs: seq<Group>) {
      q.rptflg && |hs| == 2 && hs[0] == hs[1] && hs[0].count == 1
    }

    /** Where a field of `size` bytes is cut in a pair: behind the first of the two if that still fits. */
    function PairCut(size: nat, b: Byte): nat {
      if size + |CharBytes(q, b)| <= maxsiz then size + |CharBytes(q, b)| else size
    }

    /** With run lengths on, characters are coded as far as they are equal, up to the longest run. */
    ghost predicate RunEnds(start: nat, end: nat) {
      q.rptflg && 0 < end < |file| && end - start < MAX_RUN ==> file[end] != file[end - 1]
    }

    /**
     * A field of `size` bytes ends before a character that comes exactly twice and has not
     * enough room even for the first.
     */
    ghost predicate PairLeft(size: nat)
      reads this`delivered
    {
      && q.rptflg && delivered + 2 <= |file| && size < maxsiz < size + |CharBytes(q, file[delivered])|
      && file[delivered + 1] == file[delivered]
      && (delivered + 2 < |file| ==> file[delivered + 2] != file[delivered])
    }

    /** A field of `size` bytes is full, is the last, or has no room for the group that comes next. */
    ghost predicate Full(size: nat)
      reads this
    {
      if remain == [] then delivered == |file| || size >= maxsiz
      else held != [] && ValidGroup(q, held[0]) && maxsiz < size + |GroupBytes(q, held[0])|
    }

    /**
     * The bytes kept fill the next field and a run comes next: getpkt counts its first
     * character, returns, and starts counting anew.
     */
    predicate Loses()
      reads this
    {
      first == 0 && |remain| >= maxsiz && RunGoesOn()
    }

    /** Run lengths are on and the next character is the same again. */
    predicate RunGoesOn()
      reads this
    {
      q.rptflg && pos < |file| && file[pos] == c
    }

    /** What is kept for the next field, for each place of the cut. */
    lemma LeftOver(hs: seq<Group>, more: seq<Byte>, at: nat, to: nat, size: nat)
      requires ValidQuoting(q) && Stands(hs, more, at, to) && 1 <= |hs| <= 2 && (|hs| == 2 ==> Pair(hs)) && RunEnds(at, to)
      ensures |more| <= MostLeft(q) && (|hs| == 1 ==> |more| == |GroupBytes(q, hs[0])| <= 5 && at < to)
      ensures |hs| == 2 ==> |more| == 2 * |CharBytes(q, hs[0].byte)| && to == at + 2 && file[at] == file[at + 1] == hs[0].byte
      ensures |hs| == 1 && q.rptflg && at + 2 <= |file| && file[at + 1] == file[at] ==> at + 2 < |file| && file[at + 2] == file[at]
      ensures |hs| == 2 && to < |file| ==> file[to] != file[to - 1]
    {
      hide CharBytes;
      assert hs == [hs[0]] + hs[1..];
      EncodedConcat(q, [hs[0]], hs[1..]);
      EncodedOne(q, hs[0]);
      GroupShape(q, hs[0]);
      if |hs| == 2 {
        EncodedOne(q, hs[1]);
        assert hs[1..] == [hs[1]];
        assert file[at..to][0] == file[at] && file[at..to][1] == file[at + 1];
      } else {
        assert hs[1..] == [];
        assert forall i :: 0 <= i < to - at ==> file[at..to][i] == file[at + i];
      }
    }

    /** In the middle of a field: what is in it, and the run that is being counted. */
    ghost predicate Filling(gs: seq<Group>, from: nat)
      reads this
    {
      ValidQuoting(q) && maxsiz >= SMALLEST_FIELD && first == 0 && Counting(gs, from, xdata, pos, c, rpt)
    }

    /** The groups stand for the file up to a run of n characters c before the last one read, another c. */
    ghost predicate Counting(gs: seq<Group>, from: nat, bytes: seq<Byte>, pos: nat, c: int, n: nat) {
      && 1 <= pos <= |file| && c == file[pos - 1] && n < MAX_RUN && (!q.rptflg ==> n == 0) && n < pos
      && Stands(gs, bytes, from, pos - 1 - n) && file[pos - 1 - n..pos - 1] == Repeat(n, c)
    }

    lemma CountOneMore(gs: seq<Group>, from: nat, bytes: seq<Byte>, pos: nat, c: int, n: nat)
      requires Counting(gs, from, bytes, pos, c, n)
      ensures 1 <= pos <= |file| && c == file[pos - 1] && n < MAX_RUN && (!q.rptflg ==> n == 0) && n < pos
      ensures file[pos - 1 - n..pos] == Repeat(n + 1, c)
      ensures q.rptflg && pos < |file| && file[pos] == c && n + 1 < MAX_RUN ==> Counting(gs, from, bytes, pos + 1, c, n + 1)
    {
      hide Stands, Repeat;
      RunOf(pos - 1 - n, n, c);
    }

    /** The groups just coded are the run up to `to`. */
    lemma Coded(gs: seq<Group>, bytes: seq<Byte>, from: nat, at: nat, hs: seq<Group>, more: seq<Byte>, to: nat)
      requires Stands(gs, bytes, from, at) && Stands(hs, more, at, to)
      ensures Stands(gs + hs, bytes + more, from, to)
    {
      EncodedConcat(q, gs, hs);
      assert file[from..to] == file[from..at] + file[at..to];
    }

    /** What does not fit goes to the next field, between groups. */
    lemma Cut(gs: seq<Group>, bytes: seq<Byte>, from: nat, at: nat, hs: seq<Group>, more: seq<Byte>, to: nat, cut: nat)
      returns (kept: seq<Group>, rest: seq<Group>, mid: nat)
      requires ValidQuoting(q) && Stands(gs, bytes, from, at) && Stands(hs, more, at, to) && hs != []
      requires cut == |bytes| || (|hs| == 2 && hs[0] == hs[1] && hs[0].count == 1 && cut == |bytes| + |CharBytes(q, hs[0].byte)|)
      requires |hs| <= 2 && (|hs| == 2 ==> hs[0].count == 1 && hs[1].count == 1)
      ensures cut <= |bytes + more|
      ensures Stands(kept, (bytes + more)[..cut], from, mid) && Stands(rest, (bytes + more)[cut..], mid, to)
      ensures mid == (if cut == |bytes| then at else at + 1) && (cut == |bytes| ==> kept == gs)
      ensures rest == if cut == |bytes| then hs else hs[1..]
    {
      hide CharBytes, Repeat;
      assert hs == [hs[0]] + hs[1..];
      EncodedConcat(q, [hs[0]], hs[1..]);
      EncodedOne(q, hs[0]);
      GroupShape(q, hs[0]);
      if |hs| == 2 {
        EncodedOne(q, hs[1]);
        GroupShape(q, hs[1]);
        assert hs[1..] == [hs[1]];
      } else {
        assert hs[1..] == [];
      }
      if cut == |bytes| {
        kept, rest, mid := gs, hs, at;
        assert (bytes + more)[..cut] == bytes && (bytes + more)[cut..] == more;
      } else {
        var one := [hs[0]];
        mid := at + 1;
        assert |Plain(hs)| == |Plain(one)| + |Plain(hs[1..])|;
        assert file[at..to][..1] == file[at..mid] && file[at..to][1..] == file[mid..to];
        assert Plain(one) == Plain(hs)[..1] && Plain(hs[1..]) == Plain(hs)[1..];
        kept, rest := gs + one, hs[1..];
        Coded(gs, bytes, from, at, one, Encoded(q, one), mid);
        assert (bytes + more)[..cut] == bytes + Encoded(q, one);
        assert (bytes + more)[cut..] == Encoded(q, rest);
      }
    }

    /** One more character: the run grows, or it is coded. */
    method Step(ghost gs: seq<Group>, ghost from: nat) returns (ghost hs: seq<Group>, ghost to: nat)
      requires Filling(gs, from)
      modifies this`pos, this`first, this`c, this`rpt, this`xdata, this`osize
      ensures 1 <= pos <= |file| && (first == 0 || first == -1) && (first == 0 ==> c == file[pos - 1])
      ensures xdata == old(xdata) + Encoded'(hs) && Stands(hs, Encoded'(hs), old(pos - 1 - rpt), to)
      ensures hs == [] <==> old(RunGoesOn()) && old(rpt) + 1 < MAX_RUN
      ensures hs == [] ==> Filling(gs, from) && rpt == old(rpt) + 1
      ensures pos == if first == 0 then old(pos) + 1 else old(pos)
      ensures hs != [] ==> rpt == 0 && to == old(pos) && if first == 0 then pos == to + 1 else to == |file|
      ensures |hs| <= 2 && osize <= |xdata| && (|hs| < 2 ==> osize == |old(xdata)|)
      ensures |hs| == 2 ==> Pair(hs) && osize == PairCut(|old(xdata)|, hs[0].byte)
      ensures hs != [] ==> RunEnds(old(pos - 1 - rpt), to)
    {
      hide CharBytes, Repeat, Encoded, Plain, AllValid, RunEnds, Stands, Encoded', Counting;
      CountOneMore(gs, from, xdata, pos, c, rpt);
      ghost var start, at := pos - 1 - rpt, pos;
      var next := GetChar();
      if next < 0 {
        first := -1;
      }
      osize := |xdata|;
      hs := Encode(c, next);
      c := next;
      if hs == [] {
        to := start;
        Counted(hs, start, 0, file[start]);
        assert xdata == old(xdata);
      } else {
        to := at;
        Counted(hs, start, at - start, file[at - 1]);
        RunBroken(start, at, next);
      }
    }

    /** The groups of a run stand for it. */
    lemma Counted(hs: seq<Group>, start: nat, n: nat, x: Byte)
      requires start + n <= |file| && AllValid(q, hs)
      requires if hs == [] then n == 0 else Plain(hs) == Repeat(n, x) == file[start..start + n]
      ensures Encoded'(hs) == Encoded(q, hs) && Stands(hs, Encoded'(hs), start, start + n)
      ensures hs == [] ==> Encoded(q, hs) == []
    {
    }

    lemma RunBroken(start: nat, end: nat, next: int)
      requires 0 < end <= |file| && next == if end < |file| then file[end] else -1
      requires q.rptflg && file[end - 1] == next ==> end - start >= MAX_RUN
      ensures RunEnds(start, end)
    {
    }

    ghost function Encoded'(gs: seq<Group>): seq<Byte> {
      if AllValid(q, gs) then Encoded(q, gs) else []
    }

    lemma Nothing(hs: seq<Group>, bytes: seq<Byte>, at: nat)
      requires hs == [] && bytes == [] && at <= |file|
      ensures Stands(hs, bytes, at, at)
    {
    }

    lemma NoGroups()
      ensures AllValid(q, []) && Encoded(q, []) == [] && Plain([]) == []
    {
    }

    /** The pending run and the character at its end are one longer run. */
    lemma RunOf(start: nat, n: nat, x: int)
      requires start + n < |file| && x == file[start + n] && file[start..start + n] == Repeat(n, x)
      ensures file[start..start + n + 1] == Repeat(n + 1, x)
    {
      assert file[start..start + n + 1] == file[start..start + n] + [x];
      RepeatEnd(n, x);
    }

    /** getpkt up to the loop: what is left over, and the first character of the file. */
    method StartField() returns (more: bool, ghost gs: seq<Group>)
      requires Valid()
      modifies this`pos, this`first, this`c, this`xdata, this`remain, this`held, this`rpt
      ensures remain == [] && held == [] && pos <= |file| && first != 1
      ensures if old(first) == 1 then xdata == [] else xdata == old(remain) && gs == old(held) && first == old(first)
      ensures more ==> Filling(gs, delivered) && rpt == 0
      ensures more && old(first) == 0 ==> pos == old(pos) && c == old(c)
      ensures !more ==> first == -1 && Stands(gs, xdata, delivered, |file|)
    {
      hide Encoded, Repeat, Plain, AllValid, CharBytes, ValidGroup, MostLeft, MaxChar;
      NoGroups();
      assert Repeat(0, 0) == [];
      gs := [];
      if first == 1 {
        first := 0;
        remain := [];
        held := [];
        c := GetChar();
        if c < 0 {
          first := -1;
          xdata := [];
          assert file[0..|file|] == [];
          return false, [];
        }
      }
      xdata, remain := remain, [];
      gs, held := held, [];
      if first == -1 {
        return false, gs;
      }
      rpt := 0;
      more := true;
    }

    lemma EmptyOrNot(gs: seq<Group>, bytes: seq<Byte>, from: nat, to: nat)
      requires ValidQuoting(q) && Stands(gs, bytes, from, to)
      ensures AllPrintable(q, bytes)
      ensures gs == [] <==> bytes == []
      ensures gs == [] <==> from == to
    {
      FieldPrintable(q, gs);
      if gs != [] {
        assert ValidGroup(q, gs[0]);
      }
    }

    /** The end of a field: exactly full, or cut at osize with the rest kept for the next one. */
    ghost method EndField(gs: seq<Group>, bytes: seq<Byte>, from: nat, at: nat, hs: seq<Group>, more: seq<Byte>, to: nat)
      returns (kept: seq<Group>)
      requires ValidQuoting(q) && SMALLEST_FIELD <= maxsiz <= |bytes + more| && osize <= |bytes + more|
      requires if |bytes + more| == maxsiz then xdata == bytes + more && remain == []
               else xdata == (bytes + more)[..osize] && remain == (bytes + more)[osize..]
      requires Stands(gs, bytes, from, at) && Stands(hs, more, at, to) && 1 <= |hs| <= 2
      requires |hs| < 2 ==> osize == |bytes|
      requires |hs| == 2 ==> Pair(hs) && osize == PairCut(|bytes|, hs[0].byte)
      requires RunEnds(at, to)
      requires pos <= |file| && ((first == 0 && pos == to + 1 && c == file[pos - 1]) || (first == -1 && to == |file|))
      modifies this`held, this`delivered
      ensures Valid() && (|xdata| <= maxsiz || |xdata| == |bytes|) && Stands(kept, xdata, from, delivered)
      ensures Full(|xdata|) && |held| <= 2
      ensures |bytes| < maxsiz ==> (Pair(held) <==> PairLeft(|xdata|))
      ensures |remain| == 6 <==> Pair(held) && |CharBytes(q, held[0].byte)| == 3
    {
      hide Encoded, Repeat, Plain, CharBytes, RunEnds;
      LeftOver(hs, more, at, to, |bytes|);
      if |bytes + more| == maxsiz {
        Coded(gs, bytes, from, at, hs, more, to);
        kept, delivered, held := gs + hs, to, [];
        Nothing(held, remain, to);
      } else {
        kept, held, delivered := Cut(gs, bytes, from, at, hs, more, to, osize);
      }
    }

    lemma NearlyFull(size: nat)
      requires Valid() && Full(size)
      ensures delivered < |file| ==> maxsiz < size + 5
    {
      if remain != [] {
        GroupShape(q, held[0]);
      }
    }

    /** With more room than can be kept, no character is lost, and only the last field is empty. */
    lemma NothingLost(size: nat)
      requires Valid() && Full(size) && maxsiz > MostLeft(q)
      ensures !Loses() && |remain| < maxsiz && (size == 0 ==> delivered == |file|)
    {
      if remain != [] {
        GroupShape(q, held[0]);
      }
    }

    lemma NothingKept(size: nat)
      requires remain == [] && held == [] && (delivered == |file| || size >= maxsiz)
      ensures Full(size) && !Pair(held) && !PairLeft(size)
    {
    }

    /** One turn of getpkt's loop: one more character, and the end of the field if it is full. */
    method Turn(ghost gs: seq<Group>) returns (done: bool, ghost all: seq<Group>)
      requires Filling(gs, delivered) && remain == [] && held == [] && (|xdata| >= maxsiz ==> rpt == 0)
      modifies this
      ensures first != 1
      ensures !done ==> |xdata| < maxsiz && |old(xdata)| < maxsiz && remain == [] && held == [] && delivered == old(delivered)
      ensures !done ==> pos <= |file| && if first > -1 then Filling(all, delivered) && pos == old(pos) + 1
                                         else first == -1 && pos == old(pos) && Stands(all, xdata, delivered, |file|)
      ensures done && |old(xdata)| >= maxsiz && old(RunGoesOn()) ==>
                Valid() && all == gs && xdata == old(xdata) && remain == [] && held == [] && delivered == old(pos)
                && Stands(gs, xdata, old(delivered), delivered - 1) && Full(|xdata|) && !Pair(held)
      ensures done && !(|old(xdata)| >= maxsiz && old(RunGoesOn())) ==> Ended(all, |old(xdata)|, old(delivered))
    {
      hide Encoded, Repeat, Plain, CharBytes, AllValid, ValidGroup, RunEnds, PairCut, Full, PairLeft, Pair;
      ghost var bytes, from, at := xdata, delivered, pos - 1 - rpt;
      ghost var hs, to := Step(gs, from);
      all := gs;
      if hs != [] {
        Coded(gs, bytes, from, at, hs, Encoded'(hs), to);
        all := gs + hs;
      }
      done := |xdata| >= maxsiz;
      if |xdata| > maxsiz {
        remain, xdata := xdata[osize..], xdata[..osize];
      }
      if done {
        if hs == [] {
          delivered := pos - 1;
          Nothing(held, remain, delivered);
          NothingKept(|xdata|);
        } else {
          all := EndField(gs, bytes, from, at, hs, Encoded'(hs), to);
        }
      } else if first > -1 {
        NoRun(pos - 1);
      }
    }

    /** A field that began with `size` bytes has been ended, and none of the file is missing. */
    ghost predicate Ended(gs: seq<Group>, size: nat, from: nat)
      reads this
    {
      && Valid() && (|xdata| <= maxsiz || |xdata| == size) && Full(|xdata|) && Stands(gs, xdata, from, delivered)
      && (size < maxsiz ==> (Pair(held) <==> PairLeft(|xdata|)))
      && (|remain| == 6 <==> Pair(held) && |CharBytes(q, held[0].byte)| == 3)
    }

    /**
     * getpkt: the next data field holds whole groups and is at most maxsiz bytes long, unless
     * what was kept is longer, and it is filled as far as groups fit.  One character is lost
     * exactly if the kept bytes already fill the field and a run comes next.
     */
    method GetPkt() returns (size: nat, ghost gs: seq<Group>)
      requires Valid()
      modifies this
      ensures AllPrintable(q, xdata)
      ensures Valid() && size == |xdata| && (size <= maxsiz || size == old(|remain|)) && Full(size)
      ensures delivered >= if old(Loses()) then 1 else 0
      ensures Stands(gs, xdata, old(delivered), if old(Loses()) then delivered - 1 else delivered)
      ensures old(Loses()) ==> gs == old(held) && remain == [] && delivered == old(pos)
      ensures if size == 0 then gs == [] && old(delivered) == delivered else old(delivered) < delivered
      ensures first != 1 && (delivered < |file| ==> maxsiz < size + 5)
      ensures old(|remain|) < maxsiz ==> (Pair(held) <==> PairLeft(size))
      ensures |remain| == 6 <==> Pair(held) && |CharBytes(q, held[0].byte)| == 3
    {
      hide Encoded, Repeat, Plain, CharBytes, AllValid, ValidGroup, RunEnds, PairCut, Full, PairLeft, Pair, AllPrintable;
      ghost var from := delivered;
      var going;
      going, gs := StartField();
      ghost var over := |xdata| >= maxsiz;
      while going && first > -1
        invariant ValidQuoting(q) && maxsiz >= SMALLEST_FIELD && remain == [] && held == [] && delivered == from
        invariant if over then xdata == old(remain) && gs == old(held) else |xdata| < maxsiz
        invariant over && going ==> rpt == 0 && first == old(first) == 0 && pos == old(pos) && c == old(c)
        invariant going && first > -1 ==> Filling(gs, from)
        invariant !(going && first > -1) ==> first == -1 && Stands(gs, xdata, from, |file|)
        invariant pos <= |file| && first != 1
        decreases |file| - pos + if first > -1 then 1 else 0
      {
        var done;
        done, gs := Turn(gs);
        if done {
          EmptyOrNot(gs, xdata, from, if old(Loses()) then delivered - 1 else delivered);
          NearlyFull(|xdata|);
          return |xdata|, gs;
        }
      }
      delivered := |file|;
      Nothing(held, remain, delivered);
      NothingKept(|xdata|);
      EmptyOrNot(gs, xdata, from, |file|);
      return |xdata|, gs;
    }

    lemma NoRun(i: nat)
      requires i < |file|
      ensures file[i..i] == Repeat(0, file[i])
    {
    }
  }

  lemma PairOf(q: Quoting, a: Byte)
    ensures var gs := [Group(1, a), Group(1, a)];
            AllValid(q, gs) && Encoded(q, gs) == CharBytes(q, a) + CharBytes(q, a) && Plain(gs) == Repeat(2, a)
  {
    var g := Group(1, a);
    EncodedOne(q, g);
    EncodedConcat(q, [g], [g]);
    assert [g] + [g] == [g, g];
    assert [] + CharBytes(q, a) == CharBytes(q, a);
    assert Repeat(1, a) + Repeat(1, a) == Repeat(2, a);
  }

  lemma {:induction false} RepeatEnd(n: nat, b: Byte)
    ensures Repeat(n + 1, b) == Repeat(n, b) + [b]
  {
  }

  // ----- whole files

  /** What a field writes to the output file. */
  function TextOf(q: Quoting, field: seq<Byte>): seq<Byte> {
    var d := Decoded(q, field, 0);
    if d.Some? then d.value else []
  }

  function Joined(q: Quoting, fields: seq<seq<Byte>>): seq<Byte> {
    if fields == [] then [] else Joined(q, fields[..|fields| - 1]) + TextOf(q, fields[|fields| - 1])
  }

  /** A field that is not empty, holds printable characters only and can be decoded by itself. */
  ghost predicate GoodField(q: Quoting, field: seq<Byte>) {
    field != [] && Decoded(q, field, 0).Some? && AllPrintable(q, field)
  }

  ghost predicate AllGood(q: Quoting, fields: seq<seq<Byte>>) {
    forall i :: 0 <= i < |fields| ==> GoodField(q, fields[i])
  }

  /** Fields of at most maxsiz bytes that hold the whole file. */
  ghost predicate Delivers(q: Quoting, maxsiz: nat, fields: seq<seq<Byte>>, file: seq<Byte>) {
    Joined(q, fields) == file && forall i :: 0 <= i < |fields| ==> |fields[i]| <= maxsiz
  }

  lemma FieldText(q: Quoting, fields: seq<seq<Byte>>, field: seq<Byte>, gs: seq<Group>)
    requires ValidQuoting(q) && AllValid(q, gs) && field == Encoded(q, gs)
    ensures Joined(q, fields + [field]) == Joined(q, fields) + Plain(gs)
    ensures fields == [] ==> Joined(q, fields + [field]) == Plain(gs)
  {
    hide Encoded, Plain, Decoded;
    DecodedEncoded(q, gs);
    JoinedOne(q, fields, field);
  }

  /** The fields hold the file as far as the one just made, which is the last if it is empty. */
  ghost predicate Sent(packer: Packer, fields: seq<seq<Byte>>, size: nat, gs: seq<Group>)
    reads packer
  {
    var done := Joined(packer.q, fields);
    && size == |packer.xdata| <= packer.maxsiz && packer.Stands(gs, packer.xdata, |done|, packer.delivered)
    && Delivers(packer.q, packer.maxsiz, fields, packer.file[..|done|])
    && (size == 0 ==> |done| == packer.delivered == |packer.file|)
  }

  /**
   * The data fields that sdata sends for a file.  They hold the whole file, and none is too
   * long, if a field is larger than what can be kept.
   */
  method PackFile(q: Quoting, maxsiz: nat, file: seq<Byte>) returns (fields: seq<seq<Byte>>)
    requires ValidQuoting(q) && maxsiz >= SMALLEST_FIELD
    ensures AllGood(q, fields) && (maxsiz > MostLeft(q) ==> Delivers(q, maxsiz, fields, file))
  {
    hide Decoded, Encoded, Plain, TextOf, Packer.Full, Packer.Pair, Packer.PairLeft;
    var packer := new Packer(q, maxsiz, file);
    fields := [];
    var size;
    ghost var gs;
    size, gs := packer.GetPkt();
    if maxsiz > MostLeft(q) {
      packer.NothingLost(size);
    }
    while size > 0
      invariant packer.Valid() && packer.q == q && packer.maxsiz == maxsiz && packer.file == file && fresh(packer)
      invariant size == |packer.xdata| && AllValid(q, gs) && packer.xdata == Encoded(q, gs) && AllGood(q, fields)
      invariant maxsiz > MostLeft(q) ==> Sent(packer, fields, size, gs)
      decreases |file| - packer.delivered, size
    {
      ghost var done := Joined(q, fields);
      FieldPrintable(q, gs);
      DecodedEncoded(q, gs);
      FieldText(q, fields, packer.xdata, gs);
      if maxsiz > MostLeft(q) {
        assert file[..packer.delivered] == done + file[|done|..packer.delivered];
      }
      fields := fields + [packer.xdata];
      size, gs := packer.GetPkt();
      if maxsiz > MostLeft(q) {
        packer.NothingLost(size);
      }
    }
    assert file[..|file|] == file;
  }

  lemma JoinedOne(q: Quoting, fields: seq<seq<Byte>>, field: seq<Byte>)
    ensures Joined(q, fields + [field]) == Joined(q, fields) + TextOf(q, field)
  {
    assert (fields + [field])[..|fields|] == fields;
  }

  /**
   * Data-field round trip: for every binary file, decoding the successive fields gives the
   * file back.
   */
  method FileRoundTrip(q: Quoting, maxsiz: nat, file: seq<Byte>) returns (output: seq<Byte>)
    requires ValidQuoting(q) && maxsiz >= SMALLEST_FIELD
    ensures maxsiz > MostLeft(q) ==> output == file
  {
    hide Decoded;
    var fields := PackFile(q, maxsiz, file);
    output := [];
    assert fields[..0] == [];
    for i := 0 to |fields|
      invariant output == Joined(q, fields[..i])
    {
      assert GoodField(q, fields[i]);
      var r, bytes := Decode(q, fields[i]);
      JoinedOne(q, fields[..i], fields[i]);
      assert fields[..i + 1] == fields[..i] + [fields[i]];
      output := output + bytes;
    }
    assert fields[..|fields|] == fields;
  }

  // ----- the six cells of `remain`

  /** Two control characters with the 8th bit set, and a third that comes twice. */
  const TIGHT_FILE: seq<Byte> := [129, 130, 131, 131]

  const ALL_PREFIXES := Quoting(35, 38, 126, true, true)

  /** A first field of eight bytes at most holds exactly the first two of these characters. */
  lemma TightField(gs: seq<Group>, data: seq<Byte>, to: nat)
    requires 1 <= to <= 4 && |data| <= 8 && (to < 4 ==> 8 < |data| + 5)
    requires AllValid(ALL_PREFIXES, gs) && data == Encoded(ALL_PREFIXES, gs) && Plain(gs) == TIGHT_FILE[..to]
    ensures to == 2 && |data| == 6
  {
    var q := ALL_PREFIXES;
    Single(q, gs, TIGHT_FILE[..to]);
    var rest := gs[1..];
    var left := TIGHT_FILE[..to][1..];
    if to > 1 {
      assert left[0] == 130 && (to > 2 ==> left[1] == 131);
      Single(q, rest, left);
      var last := rest[1..];
      if to > 2 {
        Single(q, last, left[1..]);
      }
    }
  }

  /** A first character that does not come three times is a group of its own. */
  lemma Single(q: Quoting, gs: seq<Group>, text: seq<Byte>)
    requires AllValid(q, gs) && Plain(gs) == text && text != []
    requires |text| > 2 ==> text[1] != text[0] || text[2] != text[0]
    ensures gs != [] && gs[0] == Group(1, text[0]) && AllValid(q, gs[1..]) && Plain(gs[1..]) == text[1..]
    ensures GroupBytes(q, gs[0]) == CharBytes(q, text[0])
    ensures |Encoded(q, gs)| == |CharBytes(q, text[0])| + |Encoded(q, gs[1..])|
    ensures |text| == 1 ==> gs[1..] == []
  {
    hide CharBytes;
    var run := Repeat(gs[0].count, gs[0].byte);
    assert text == run + Plain(gs[1..]);
    assert ValidGroup(q, gs[0]);
    assert |run| == gs[0].count && run[0] == text[0];
    assert text[1..] == Plain(gs[1..]);
    assert |gs| > 1 ==> ValidGroup(q, gs[1]);
  }

  /** getpkt keeps six bytes here, and with the NUL behind them fills seven cells. */
  method RemainOverfilled() returns (cells: nat)
    ensures cells == 7
  {
    hide Encoded, Plain;
    var packer := new Packer(ALL_PREFIXES, 8, TIGHT_FILE);
    var size;
    ghost var gs;
    size, gs := packer.GetPkt();
    TightField(gs, packer.xdata, packer.delivered);
    cells := |packer.remain| + 1;
  }

  // ----- fields too small for what is kept

  /** Field sizes that spar lets through although what is kept for the next field can fill it. */
  predicate TooSmall(q: Quoting, maxsiz: nat) {
    ValidQuoting(q) && q.rptflg && SMALLEST_FIELD <= maxsiz <= MostLeft(q)
  }

  function LossyHead(q: Quoting, maxsiz: nat): seq<Byte> {
    if !q.ebqflg then [1, 65] else if maxsiz < 6 then [129] else [129, 65]
  }

  /** A head that leaves no room for the first of a pair, that pair, and another. */
  function LossyFile(q: Quoting, maxsiz: nat): seq<Byte> {
    LossyHead(q, maxsiz) + if q.ebqflg then [131, 131, 132, 132] else [2, 2, 3, 3]
  }

  lemma LossyShape(q: Quoting, maxsiz: nat)
    requires TooSmall(q, maxsiz)
    ensures var file, h := LossyFile(q, maxsiz), |LossyHead(q, maxsiz)|;
            && 1 <= h <= 2 && |file| == h + 4 && file[0] != file[1] && (h == 2 ==> file[1] != file[2])
            && file[h] == file[h + 1] != file[h + 2] == file[h + 3]
            && |CharBytes(q, file[h])| == |CharBytes(q, file[h + 3])| == MaxChar(q)
            && var size := |CharBytes(q, file[0])| + if h == 2 then |CharBytes(q, file[1])| else 0;
               size < maxsiz < size + MaxChar(q)
  {
  }

  lemma NoText(q: Quoting, gs: seq<Group>)
    requires AllValid(q, gs) && Plain(gs) == []
    ensures gs == [] && Encoded(q, gs) == []
  {
  }

  /** The group of the character at k, and the bytes of what it begins. */
  lemma SingleAt(q: Quoting, file: seq<Byte>, gs: seq<Group>, k: nat, to: nat)
    requires AllValid(q, gs) && k < to <= |file| && Plain(gs) == file[k..to]
    requires to > k + 2 ==> file[k + 1] != file[k] || file[k + 2] != file[k]
    ensures gs != [] && GroupBytes(q, gs[0]) == CharBytes(q, file[k])
    ensures AllValid(q, gs[1..]) && Plain(gs[1..]) == file[k + 1..to]
    ensures |Encoded(q, gs)| == |CharBytes(q, file[k])| + |Encoded(q, gs[1..])|
    ensures to == k + 1 ==> Encoded(q, gs[1..]) == []
  {
    hide CharBytes;
    Single(q, gs, file[k..to]);
    assert file[k..to][1..] == file[k + 1..to];
  }

  /** The first field holds the head: no more fits, and everything in it does. */
  lemma HeadField(q: Quoting, maxsiz: nat, gs: seq<Group>, to: nat, hs: seq<Group>, end: nat)
    requires TooSmall(q, maxsiz) && to <= end <= |LossyFile(q, maxsiz)| && AllValid(q, gs) && AllValid(q, hs)
    requires Plain(gs) == LossyFile(q, maxsiz)[..to] && Plain(hs) == LossyFile(q, maxsiz)[to..end]
    requires |Encoded(q, gs)| <= maxsiz
    requires if hs == [] then to == |LossyFile(q, maxsiz)| || |Encoded(q, gs)| >= maxsiz
             else maxsiz < |Encoded(q, gs)| + |GroupBytes(q, hs[0])|
    ensures to == |LossyHead(q, maxsiz)| && |Encoded(q, gs)| < maxsiz < |Encoded(q, gs)| + MaxChar(q)
  {
    hide CharBytes, Plain, Encoded, GroupBytes, AllValid, ValidQuoting, LossyFile, LossyHead, MaxChar;
    LossyShape(q, maxsiz);
    var file := LossyFile(q, maxsiz);
    assert file[0..to] == file[..to];
    if to == 0 {
      NoText(q, gs);
    } else {
      SingleAt(q, file, gs, 0, to);
      if to > 1 {
        SingleAt(q, file, gs[1..], 1, to);
        if to > 2 {
          SingleAt(q, file, gs[1..][1..], 2, to);
        }
      }
    }
    if hs != [] && to < |LossyHead(q, maxsiz)| {
      if to == end {
        NoText(q, hs);
      } else {
        SingleAt(q, file, hs, to, end);
      }
    }
  }

  /** How much of the file a packer has coded, what it keeps included. */
  ghost function CodedTo(packer: Packer): (end: nat)
    requires packer.Valid()
    reads packer
    ensures packer.first != 1 ==> packer.Stands(packer.held, packer.remain, packer.delivered, end)
  {
    if packer.first == 0 then packer.pos - 1 else |packer.file|
  }

  /** After the head the pair is kept, and the second pair begins. */
  lemma AfterHead(packer: Packer, gs: seq<Group>)
    requires packer.Valid() && packer.Full(|packer.xdata|) && TooSmall(packer.q, packer.maxsiz)
    requires packer.file == LossyFile(packer.q, packer.maxsiz) && packer.Stands(gs, packer.xdata, 0, packer.delivered)
    requires |packer.xdata| <= packer.maxsiz && packer.first != 1
    requires packer.Pair(packer.held) <==> packer.PairLeft(|packer.xdata|)
    ensures packer.delivered == |LossyHead(packer.q, packer.maxsiz)| && |packer.remain| == MostLeft(packer.q)
    ensures packer.pos == packer.delivered + 3 && packer.Loses()
  {
    hide CharBytes, Plain, Encoded, GroupBytes, AllValid, ValidQuoting;
    var q, maxsiz, file := packer.q, packer.maxsiz, packer.file;
    packer.EmptyOrNot(packer.held, packer.remain, packer.delivered, CodedTo(packer));
    HeadField(q, maxsiz, gs, packer.delivered, packer.held, CodedTo(packer));
    LossyShape(q, maxsiz);
    assert packer.Pair(packer.held);
    var b := packer.held[0].byte;
    PairOf(q, b);
    assert packer.held == [Group(1, b), Group(1, b)];
    assert file[packer.delivered..CodedTo(packer)][0] == file[packer.delivered];
  }

  /** The character that is left when one of the last two has been lost goes into one field. */
  lemma AfterLoss(packer: Packer, gs: seq<Group>)
    requires packer.Valid() && packer.Full(|packer.xdata|) && TooSmall(packer.q, packer.maxsiz)
    requires packer.file == LossyFile(packer.q, packer.maxsiz) && packer.first != 1
    requires packer.Stands(gs, packer.xdata, |packer.file| - 1, packer.delivered)
    ensures packer.delivered == |packer.file|
  {
    hide CharBytes, Plain, Encoded, GroupBytes, AllValid, ValidQuoting;
    var q, file, to, hs, end := packer.q, packer.file, packer.delivered, packer.held, CodedTo(packer);
    LossyShape(q, packer.maxsiz);
    packer.EmptyOrNot(gs, packer.xdata, |file| - 1, to);
    packer.EmptyOrNot(hs, packer.remain, to, end);
    if to < end {
      SingleAt(q, file, hs, to, end);
    }
  }

  /**
   * For every field size up to what can be kept: getpkt, called until it gives an empty field
   * as sdata does, loses a character of this file, and one field is as long as what can be kept.
   */
  method LossyRun(q: Quoting, maxsiz: nat) returns (file: seq<Byte>, fields: seq<seq<Byte>>)
    requires TooSmall(q, maxsiz)
    ensures |file| >= 2 && Joined(q, fields) == file[..|file| - 2] + file[|file| - 1..]
    ensures |fields| == 3 && |fields[1]| == MostLeft(q) >= maxsiz
  {
    hide CharBytes, Plain, Encoded, GroupBytes, AllValid, ValidQuoting, Decoded, Joined, LossyHead, LossyFile,
         Packer.Full, Packer.Pair, Packer.PairLeft;
    file := LossyFile(q, maxsiz);
    LossyShape(q, maxsiz);
    var packer := new Packer(q, maxsiz, file);
    var size;
    ghost var gs;
    size, gs := packer.GetPkt();
    AfterHead(packer, gs);
    fields := [];
    FieldText(q, fields, packer.xdata, gs);
    fields := fields + [packer.xdata];
    assert Joined(q, fields) == file[..packer.delivered];
    size, gs := packer.GetPkt();
    FieldText(q, fields, packer.xdata, gs);
    fields := fields + [packer.xdata];
    assert packer.delivered == |file| - 1;
    assert Joined(q, fields) == file[..|file| - 2];
    size, gs := packer.GetPkt();
    AfterLoss(packer, gs);
    FieldText(q, fields, packer.xdata, gs);
    fields := fields + [packer.xdata];
    size, gs := packer.GetPkt();
    assert size == 0;
  }
}
