// The bit reading macros of LzmaDec.c, and the trees and codes built from them.  The same
// reader serves the real run and the dry run, which leaves the probabilities alone.

module RangeDecoders {
  import opened Bytes
  import opened RangeCoding
  import opened Bits
  import opened BitTrees
  import opened LzmaModel
  import opened LzmaPrefixCode

  class RangeDecoder {
    var src: seq<Byte>
    var buf: nat
    var range: int
    var code: int
    const probs: array<int>
    const learn: bool

    /** Where the current symbol began and the decisions read since. */
    ghost var start: Reader
    ghost var trace: seq<Op>

    /** The registers after the normalisation that may still be due. */
    ghost function View(): Reader
      reads this, probs
    {
      Pull(src, Reader(code, range, buf, probs[..], learn))
    }

    ghost predicate Registers()
      reads this
    {
      TOP / 256 <= range < WORD && 0 <= code < WORD
    }

    ghost predicate Valid()
      reads this, probs
    {
      && Registers() && ValidReader(start) && ValidReader(View())
      && Reads(src, start, trace) && View() == TakeAll(src, start, trace)
    }

    constructor (probs: array<int>, learn: bool, range: int, code: int, src: seq<Byte>, buf: nat)
      requires ValidProbs(probs[..]) && TOP <= range < WORD && 0 <= code < WORD
      ensures Valid() && trace == []
      ensures this.probs == probs && this.learn == learn && this.src == src && this.buf == buf
      ensures this.range == range && this.code == code
      ensures View() == start == Reader(code, range, buf, probs[..], learn)
    {
      this.probs, this.learn, this.src, this.buf := probs, learn, src, buf;
      this.range, this.code := range, code;
      start, trace := Reader(code, range, buf, probs[..], learn), [];
    }

    /** A new symbol begins here. */
    ghost method Mark()
      requires Valid()
      modifies this`start, this`trace
      ensures Valid() && start == old(View()) && trace == []
    {
      start, trace := View(), [];
    }

    /** LzmaDec_InitRc: the registers at the start of a stream. */
    method InitRc(data: seq<Byte>)
      requires Valid() && range >= TOP && |data| >= 5
      modifies this`range, this`code, this`start, this`trace
      ensures Valid() && trace == [] && range == INIT_RANGE
      ensures code == ((data[1] as int * 256 + data[2]) * 256 + data[3]) * 256 + data[4]
    {
      code := data[1] as int * 0x100_0000 + data[2] as int * 0x1_0000 + data[3] as int * 0x100 + data[4];
      range := INIT_RANGE;
      start, trace := Reader(code, range, buf, probs[..], learn), [];
    }

    /** Goes on with other input; the registers stay. */
    method SetInput(src: seq<Byte>)
      requires Valid() && range >= TOP
      modifies this`src, this`buf, this`start, this`trace
      ensures Valid() && trace == [] && this.src == src && buf == 0
      ensures View() == Reader(code, range, 0, probs[..], learn)
    {
      this.src, buf := src, 0;
      start, trace := View(), [];
    }

    /** A byte past the end reads as 0; callers show that no such byte was needed. */
    method Normalize()
      requires Registers()
      modifies this`buf, this`range, this`code
      ensures Registers() && range >= TOP && View() == old(View()) && old(buf) <= buf == View().pos
    {
      if range < TOP {
        range := range * 256;
        code := (code * 256 + (if buf < |src| then src[buf] else 0)) % WORD;
        buf := buf + 1;
      }
    }

    /** The last normalisation of a run, after which nothing is pending. */
    method Finish()
      requires Valid()
      modifies this`buf, this`range, this`code
      ensures Valid() && range >= TOP && View() == old(View()) && old(buf) <= buf == View().pos
    {
      Normalize();
    }

    method GetBit(slot: nat) returns (bit: Bit)
      requires Valid() && slot < probs.Length
      modifies this`buf, this`range, this`code, this`trace, probs
      ensures Valid() && trace == old(trace) + [Model(slot, bit)]
      ensures old(buf) <= buf && (!learn ==> probs[..] == old(probs[..]))
    {
      hide Reads, TakeAll;
      ghost var d := View();
      var ttt := probs[slot];
      assert ValidProbs(d.probs) && ttt == d.probs[slot];
      Normalize();
      var bound := range / 2048 * ttt;
      BoundInside(range, ttt);
      if code < bound {
        bit := 0;
        range := bound;
        ttt := ttt + (2048 - ttt) / 32;
      } else {
        bit := 1;
        range := range - bound;
        code := code - bound;
        ttt := ttt - ttt / 32;
      }
      if learn {
        probs[slot] := ttt;
      }
      assert Reader(code, range, buf, probs[..], learn) == Split(d, Model(slot, bit));
      ReadsSnoc(src, start, trace, Model(slot, bit));
      trace := trace + [Model(slot, bit)];
    }

    /** In 32 bits the top bit of a difference is 0 or 1, and adding undoes subtracting. */
    lemma SignAndBack(x: nat, y: nat)
      requires x < WORD && y < WORD
      ensures 0 <= (x - y) % WORD / 0x8000_0000 <= 1 && ((x - y) % WORD + y) % WORD == x
    {
    }

    method GetDirectBit() returns (bit: Bit)
      requires Valid()
      modifies this`buf, this`range, this`code, this`trace
      ensures Valid() && trace == old(trace) + [Direct(bit)] && old(buf) <= buf
    {
      hide Reads, TakeAll;
      ghost var d := View();
      Normalize();
      range := range / 2;
      SignAndBack(code, range);
      code := (code - range) % WORD;
      var t := code / 0x8000_0000;
      bit := 1 - t;
      if t == 1 {
        code := (code + range) % WORD;
      }
      assert Reader(code, range, buf, probs[..], learn) == Split(d, Direct(bit));
      ReadsSnoc(src, start, trace, Direct(bit));
      trace := trace + [Direct(bit)];
    }

    method TreeDecode(base: nat, ghost n: nat, limit: nat) returns (symbol: nat)
      requires Valid() && n >= 1 && limit == Pow2(n) && base + limit <= probs.Length
      modifies this`buf, this`range, this`code, this`trace, probs
      ensures Valid() && symbol < limit
      ensures trace == old(trace) + Path(Plain(base), limit + symbol)
      ensures old(buf) <= buf && (!learn ==> probs[..] == old(probs[..]))
    {
      hide Valid, Path, Depth;
      var i := 1;
      PathRoot(Plain(base));
      ghost var k: nat := 0;
      while i < limit
        invariant Valid() && k <= n && Pow2(k) <= i < 2 * Pow2(k) && (i < limit <==> k < n)
        invariant trace == old(trace) + Path(Plain(base), i)
        invariant old(buf) <= buf && (!learn ==> probs[..] == old(probs[..]))
        decreases n - k
      {
        var bit := GetBit(base + i);
        PathChild(Plain(base), i, bit);
        i := i + i + bit;
        k := k + 1;
        if k < n {
          Pow2Monotone(k + 1, n);
        }
      }
      symbol := i - limit;
    }

    /** Collects n bits, lowest first. */
    method ReverseDecode(base: nat, n: nat) returns (value: nat)
      requires Valid() && base + Pow2(n) <= probs.Length
      modifies this`buf, this`range, this`code, this`trace, probs
      ensures Valid() && value < Pow2(n)
      ensures trace == old(trace) + Path(Plain(base), ReverseNode(n, value))
      ensures old(buf) <= buf && (!learn ==> probs[..] == old(probs[..]))
    {
      hide Valid, Path, Depth, ReverseNode;
      var mask: nat := 1;
      var i: nat := 1;
      value := 0;
      PathRoot(Plain(base));
      ReverseRoot();
      for k := 0 to n
        invariant Valid() && value < Pow2(k) == mask && i == ReverseNode(k, value)
        invariant trace == old(trace) + Path(Plain(base), i)
        invariant old(buf) <= buf && (!learn ==> probs[..] == old(probs[..]))
      {
        Pow2Monotone(k + 1, n);
        var bit := GetBit(base + i);
        PathChild(Plain(base), i, bit);
        ReverseStep(k, value, bit);
        i := i + i + bit;
        value := value + (if bit == 1 then mask else 0);
        mask := mask * 2;
      }
    }

    method DirectDecode(high: nat, n: nat) returns (distance: nat)
      requires Valid() && n >= 1
      modifies this`buf, this`range, this`code, this`trace
      ensures Valid() && high * Pow2(n) <= distance < high * Pow2(n) + Pow2(n)
      ensures trace == old(trace) + DirectPath(n, distance - high * Pow2(n)) && old(buf) <= buf
    {
      hide Valid, Pow2;
      DirectRoot(high);
      distance := high;
      ghost var v: nat := 0;
      for k := 0 to n
        invariant Valid() && v < Pow2(k) && distance == high * Pow2(k) + v
        invariant trace == old(trace) + DirectPath(k, v) && old(buf) <= buf
      {
        var bit := GetDirectBit();
        DirectNext(high, k, v, bit);
        distance := distance * 2 + bit;
        v := 2 * v + bit;
      }
    }

    method LitDecode(base: nat) returns (byte: Byte)
      requires Valid() && base + 256 <= probs.Length
      modifies this`buf, this`range, this`code, this`trace, probs
      ensures Valid() && trace == old(trace) + Path(Plain(base), 256 + byte)
      ensures old(buf) <= buf && (!learn ==> probs[..] == old(probs[..]))
    {
      PowersOfTwo();
      var symbol := TreeDecode(base, 8, 0x100);
      byte := symbol;
    }

    method LitDecodeMatched(base: nat, matchByte: Byte) returns (byte: Byte)
      requires Valid() && base + 768 <= probs.Length
      modifies this`buf, this`range, this`code, this`trace, probs
      ensures Valid() && trace == old(trace) + Path(Matched(base, matchByte), 256 + byte)
      ensures old(buf) <= buf && (!learn ==> probs[..] == old(probs[..]))
    {
      hide Valid, Path, Depth, Shr, Shl;
      ghost var tree := Matched(base, matchByte);
      var mb: nat := matchByte;
      var offs := 0x100;
      var symbol: nat := 1;
      ghost var i: nat := 0;
      MatchRoot(matchByte);
      PathRoot(tree);
      while symbol < 0x100
        invariant Valid() && i <= 8 && Depth(symbol) == i && 1 <= symbol < 0x200 && (symbol < 0x100 <==> i < 8)
        invariant mb + Shl(256, i) == Shl(256 + matchByte, i)
        invariant offs == if symbol == Shr(256 + matchByte, 8 - i) then 256 else 0
        invariant trace == old(trace) + Path(tree, symbol)
        invariant old(buf) <= buf && (!learn ==> probs[..] == old(probs[..]))
        decreases 8 - i
      {
        MatchWindow(matchByte, i);
        mb := mb * 2;
        var bit := if offs == 0x100 then mb / 256 % 2 * 256 else 0;
        var b := GetBit(base + offs + bit + symbol);
        PathChild(tree, symbol, b);
        symbol := symbol + symbol + b;
        offs := if b == 0 then offs - bit else bit;
        i := i + 1;
        DepthLimit(symbol, i);
      }
      byte := symbol - 0x100;
    }

    method LenDecode(base: nat, posState: nat) returns (len: nat)
      requires Valid() && posState < 16 && base + 514 <= probs.Length
      modifies this`buf, this`range, this`code, this`trace, probs
      ensures Valid() && len < 272 && trace == old(trace) + LenOps(base, posState, len)
      ensures old(buf) <= buf && (!learn ==> probs[..] == old(probs[..]))
    {
      hide Valid, Path, Pow2, Depth;
      PowersOfTwo();
      var choice := GetBit(base);
      if choice == 0 {
        len := TreeDecode(base + LEN_LOW + posState * 8, 3, 8);
      } else {
        var choice2 := GetBit(base + LEN_CHOICE2);
        if choice2 == 0 {
          len := TreeDecode(base + LEN_MID + posState * 8, 3, 8);
          len := len + 8;
        } else {
          len := TreeDecode(base + LEN_HIGH, 8, 256);
          len := len + 16;
        }
      }
    }

    method FooterDecode(posSlot: nat) returns (distance: nat)
      requires Valid() && 4 <= posSlot < 64 && LITERAL <= probs.Length
      modifies this`buf, this`range, this`code, this`trace, probs
      ensures Valid() && SlotBase(posSlot) <= distance < SlotBase(posSlot) + Pow2(FooterBits(posSlot))
      ensures trace == old(trace) + FooterOps(posSlot, distance - SlotBase(posSlot))
      ensures old(buf) <= buf && (!learn ==> probs[..] == old(probs[..]))
    {
      hide Valid, Path, ReverseNode, DirectPath, Pow2, Depth;
      var numDirectBits := posSlot / 2 - 1;
      distance := 2 + posSlot % 2;
      if posSlot < 14 {
        ShortFooter(posSlot);
        distance := distance * Pow2(numDirectBits);
        var low := ReverseDecode(SPEC_POS + distance - posSlot - 1, numDirectBits);
        distance := distance + low;
      } else {
        distance := LongFooterDecode(posSlot, distance, numDirectBits - 4);
      }
    }

    /** A footer of direct bits and four modelled ones. */
    method LongFooterDecode(posSlot: nat, high: nat, n: nat) returns (distance: nat)
      requires Valid() && 14 <= posSlot < 64 && LITERAL <= probs.Length
      requires high == 2 + posSlot % 2 && n == FooterBits(posSlot) - 4
      modifies this`buf, this`range, this`code, this`trace, probs
      ensures Valid() && SlotBase(posSlot) <= distance < SlotBase(posSlot) + Pow2(FooterBits(posSlot))
      ensures trace == old(trace) + FooterOps(posSlot, distance - SlotBase(posSlot))
      ensures old(buf) <= buf && (!learn ==> probs[..] == old(probs[..]))
    {
      hide Valid, Path, ReverseNode, DirectPath, Pow2, Depth, SlotBase;
      PowersOfTwo();
      distance := DirectDecode(high, n);
      ghost var d := distance - high * Pow2(n);
      var low := ReverseDecode(ALIGN, 4);
      LongFooter(posSlot, high, d, low);
      distance := distance * 16 + low;
    }

    method DistanceDecode(len: nat) returns (distance: nat)
      requires Valid() && LITERAL <= probs.Length
      modifies this`buf, this`range, this`code, this`trace, probs
      ensures Valid() && distance < WORD
      ensures trace == old(trace) + DistanceOps(len, distance)
      ensures old(buf) <= buf && (!learn ==> probs[..] == old(probs[..]))
    {
      hide Valid, Path, FooterOps, DistSlot, SlotBase, Pow2, FooterBits;
      PowersOfTwo();
      var posSlot := TreeDecode(POS_SLOT + (if len < 4 then len else 3) * 64, 6, 64);
      distance := posSlot;
      if posSlot >= 4 {
        distance := FooterDecode(posSlot);
      }
      NoFooter(posSlot);
      SlotRange(posSlot);
      SlotUnique(distance, posSlot);
    }
  }

  lemma DirectRoot(high: nat)
    ensures Pow2(0) == 1 && high * Pow2(0) == high && DirectPath(0, 0) == []
  {
  }

  lemma DirectNext(high: nat, k: nat, v: nat, bit: Bit)
    requires v < Pow2(k)
    ensures 2 * v + bit < Pow2(k + 1) && (high * Pow2(k) + v) * 2 + bit == high * Pow2(k + 1) + (2 * v + bit)
    ensures DirectPath(k + 1, 2 * v + bit) == DirectPath(k, v) + [Direct(bit)]
  {
    assert (2 * v + bit) / 2 == v && (2 * v + bit) % 2 == bit;
  }

  lemma ReverseRoot()
    ensures ReverseNode(0, 0) == 1
  {
  }

  lemma NoFooter(slot: nat)
    ensures slot < 4 ==> FooterOps(slot, 0) == [] && SlotBase(slot) == slot
  {
  }

  lemma MatchRoot(mb: Byte)
    ensures Depth(1) == 0 && Shl(256, 0) == 256 && Shl(256 + mb, 0) == 256 + mb
    ensures Shr(256 + mb, 8) == 1
  {
    ShrBytes(256 + mb);
  }

  lemma DepthLimit(m: nat, i: nat)
    requires Depth(m) == i && i <= 8 && 1 <= m < 0x200
    ensures m < 0x100 <==> i < 8
  {
    PowersOfTwo();
    if m >= 0x100 {
      DepthRange(m, 8);
    } else {
      DepthBelow(m, 8);
    }
  }

  lemma {:induction false} DepthBelow(m: nat, n: nat)
    requires 1 <= m < Pow2(n)
    ensures Depth(m) < n
  {
    if m > 1 {
      DepthBelow(m / 2, n - 1);
    }
  }

  lemma LongFooter(slot: nat, high: nat, d: nat, low: nat)
    requires 14 <= slot < 64 && high == 2 + slot % 2
    requires d < Pow2(FooterBits(slot) - 4) && low < 16
    ensures (high * Pow2(FooterBits(slot) - 4) + d) * 16 + low == SlotBase(slot) + (16 * d + low)
    ensures (16 * d + low) / 16 == d && (16 * d + low) % 16 == low && 16 * d + low < Pow2(FooterBits(slot))
  {
    Pow2Split(FooterBits(slot) - 4);
    var p := Pow2(FooterBits(slot) - 4);
    assert high * p * 16 == high * (16 * p);
  }

  lemma SlotRange(slot: nat)
    requires slot < 64
    ensures SlotBase(slot) + Pow2(FooterBits(slot)) <= WORD
  {
    hide Pow2;
    Pow2High();
    Pow2Monotone(FooterBits(slot), 30);
    var p := Pow2(FooterBits(slot));
    if slot >= 4 {
      assert SlotBase(slot) == (if slot % 2 == 0 then 2 * p else 3 * p);
    }
  }
}
