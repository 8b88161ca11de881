// The range encoder of LzmaEnc.c: registers updated in place, with a delayed byte and a
// run of 0xFF bytes through which a carry may still travel.

module RangeEncoders {
  import opened Bytes
  import opened RangeCoding
  import opened BitTrees

  /** Written bytes, the delayed byte, and n delayed bytes of 0xFF. */
  function Delayed(out: seq<Byte>, cache: Byte, n: nat): (r: seq<Byte>)
    ensures |r| == |out| + 1 + n
  {
    if n == 0 then out + [cache] else Delayed(out, cache, n - 1) + [255]
  }

  /** The same bytes once they are emitted: a carry turns every 0xFF into 0. */
  function Emitted(out: seq<Byte>, cache: Byte, carry: Bit, n: nat): (r: seq<Byte>)
    ensures |r| == |out| + n
  {
    if n == 0 then out
    else Emitted(out, cache, carry, n - 1) + [((if n == 1 then cache else 255) + carry) % 256]
  }

  /** A carry sent through the delayed run adds one to the number it stands for. */
  lemma {:induction false} CarryAddsOne(out: seq<Byte>, cache: Byte, carry: Bit, n: nat)
    requires n >= 1 && cache + carry < 256
    ensures BigEndian(Emitted(out, cache, carry, n)) == BigEndian(Delayed(out, cache, n - 1)) + carry
  {
    hide BigEndian;
    if n == 1 {
      BigEndianSnoc(out, cache);
      BigEndianSnoc(out, cache + carry);
      assert Emitted(out, cache, carry, 1) == out + [cache + carry];
    } else {
      CarryAddsOne(out, cache, carry, n - 1);
      BigEndianSnoc(Emitted(out, cache, carry, n - 1), (255 + carry) % 256);
      BigEndianSnoc(Delayed(out, cache, n - 2), 255);
    }
  }

  /** The byte above `low` and the shifted `low` together are 256 times the old number. */
  lemma ShiftedOut(number: nat, low: nat)
    requires low < 2 * WORD
    ensures low % WORD * 256 % WORD == low % TOP * 256
    ensures ((number + low / WORD) * 256 + low % WORD / TOP) * WORD + low % TOP * 256 == 256 * (number * WORD + low)
  {
    var carry, top, rest := low / WORD, low % WORD / TOP, low % TOP;
    assert low == carry * WORD + top * TOP + rest && low % WORD == top * TOP + rest;
  }

  /** Emitting the run, or making it longer: either way the byte above `low` is appended. */
  lemma ByteShifted(out: seq<Byte>, cache: Byte, low: nat, n: nat)
    requires n >= 1 && low < 2 * WORD && (cache == 255 ==> low < WORD)
    ensures var number := (BigEndian(Delayed(out, cache, n - 1)) + low / WORD) * 256 + low % WORD / TOP;
            if 0xFF00_0000 <= low < WORD then BigEndian(Delayed(out, cache, n)) == number
            else BigEndian(Delayed(Emitted(out, cache, low / WORD, n), low % WORD / TOP, 0)) == number
  {
    var top: Byte := low % WORD / TOP;
    if 0xFF00_0000 <= low < WORD {
      BigEndianSnoc(Delayed(out, cache, n - 1), 255);
    } else {
      CarryAddsOne(out, cache, low / WORD, n);
      BigEndianSnoc(Emitted(out, cache, low / WORD, n), top);
    }
  }

  class RangeEncoder {
    var low: nat
    var range: int
    var cache: Byte
    var cacheSize: nat
    var out: seq<Byte>
    const probs: array<int>

    /** The decisions coded so far. */
    ghost var trace: seq<Op>
    ghost const start: Interval

    /** The register bounds that keep a carry inside the delayed run. */
    ghost predicate Registers()
      reads this
    {
      && TOP <= range < WORD && cacheSize >= 1
      && low + range <= 2 * WORD
      && (cache == 255 ==> low + range <= WORD)
    }

    /** What is written and delayed, read as one number, with `low` below it. */
    ghost function Number(): nat
      reads this
      requires cacheSize >= 1
    {
      BigEndian(Delayed(out, cache, cacheSize - 1)) * WORD + low
    }

    ghost function View(): Interval
      reads this, probs
      requires cacheSize >= 1
    {
      Interval(Number(), range, |out| + cacheSize - 1, probs[..])
    }

    /** The registers stand for the interval that the coded decisions select. */
    ghost predicate Valid()
      reads this, probs
    {
      && Registers() && WellFormed(start)
      && View() == CodeAll(start, trace)
    }

    constructor (numProbs: nat)
      ensures Valid() && out == [] && trace == [] && fresh(probs) && probs.Length == numProbs
      ensures start == Interval(0, 0xFFFF_FFFF, 0, seq(numProbs, i => 1024))
    {
      low, range, cache, cacheSize, out := 0, 0xFFFF_FFFF, 0, 1, [];
      probs := new int[numProbs](i => 1024);
      start := Interval(0, 0xFFFF_FFFF, 0, seq(numProbs, i => 1024));
      trace := [];
      new;
      BigEndianSnoc([], 0);
      assert probs[..] == seq(numProbs, i => 1024);
    }

    /** Emits the delayed run, with the carry that `low` holds, if any. */
    method EmitDelayed()
      requires cacheSize >= 1 && low < 2 * WORD
      requires cache == 255 ==> low < WORD
      modifies this`cacheSize, this`out
      ensures cacheSize == 0
      ensures out == Emitted(old(out), cache, low / WORD, old(cacheSize))
    {
      ghost var out0, size0 := out, cacheSize;
      var carry: Bit := low / WORD;
      var temp := cache;
      var more := true;
      while more
        invariant cacheSize <= size0 && more == (cacheSize != 0)
        invariant out == Emitted(out0, cache, carry, size0 - cacheSize)
        invariant temp == if cacheSize == size0 then cache else 255
        decreases cacheSize
      {
        out := out + [(temp + carry) % 256];
        temp := 255;
        cacheSize := cacheSize - 1;
        more := cacheSize != 0;
      }
    }

    /** Moves the byte above `low` into the delayed run; the number is scaled by 256. */
    method ShiftLow()
      requires cacheSize >= 1 && low < 2 * WORD
      requires cache == 255 ==> low < WORD
      modifies this`low, this`cache, this`cacheSize, this`out
      ensures cacheSize >= 1 && |out| + cacheSize == old(|out| + cacheSize) + 1
      ensures low == old(low) % TOP * 256
      ensures Number() == 256 * old(Number())
      ensures if 0xFF00_0000 <= old(low) < WORD then cache == old(cache)
              else cache == old(low) % WORD / TOP && cacheSize == 1
    {
      hide BigEndian, Delayed, Emitted;
      ghost var number := BigEndian(Delayed(out, cache, cacheSize - 1));
      ShiftedOut(number, low);
      ByteShifted(out, cache, low, cacheSize);
      if low < 0xFF00_0000 || low / WORD != 0 {
        EmitDelayed();
        cache := low % WORD / TOP;
      }
      cacheSize := cacheSize + 1;
      low := low % WORD * 256 % WORD;
    }

    /** One scaling step, after the interval was narrowed to e. */
    method Normalize(ghost e: Interval)
      requires TOP / 256 <= range < WORD && cacheSize >= 1 && low + range <= 2 * WORD
      requires cache == 255 ==> low + range <= WORD
      requires e == View()
      modifies this`low, this`range, this`cache, this`cacheSize, this`out
      ensures Registers() && View() == Scale(e)
    {
      hide BigEndian, Delayed;
      if range < TOP {
        range := range * 256;
        ShiftLow();
      }
    }

    method EncodeBit(slot: nat, bit: Bit)
      requires Valid() && slot < probs.Length
      modifies this, probs
      ensures Valid() && trace == old(trace) + [Model(slot, bit)]
    {
      hide BigEndian, Delayed, CodeAll;
      ghost var e := View();
      var ttt := probs[slot];
      assert ValidProbs(e.probs) && ttt == e.probs[slot];
      var newBound := range / 2048 * ttt;
      BoundInside(range, ttt);
      if bit == 0 {
        range := newBound;
        ttt := ttt + (2048 - ttt) / 32;
      } else {
        low := low + newBound;
        range := range - newBound;
        ttt := ttt - ttt / 32;
      }
      probs[slot] := ttt;
      assert probs[..] == Learn(e.probs, Model(slot, bit));
      Normalize(Narrow(e, Model(slot, bit)));
      CodeSnoc(start, trace, Model(slot, bit));
      trace := trace + [Model(slot, bit)];
    }

    /** What a direct bit leaves of an interval. */
    lemma Halved(e: Interval, bit: Bit)
      requires WellFormed(e)
      ensures Narrow(e, Direct(bit)) == Interval(if bit == 1 then e.low + e.range / 2 else e.low, e.range / 2, e.shifts, e.probs)
    {
    }

    method EncodeDirectBit(bit: Bit)
      requires Valid()
      modifies this
      ensures Valid() && trace == old(trace) + [Direct(bit)]
    {
      hide BigEndian, Delayed, CodeAll, ValidProbs, Learn;
      ghost var e := View();
      range := range / 2;
      if bit == 1 {
        low := low + range;
      }
      Halved(e, bit);
      Normalize(Narrow(e, Direct(bit)));
      CodeSnoc(start, trace, Direct(bit));
      trace := trace + [Direct(bit)];
    }

    method EncodeDirectBits(value: nat, numBits: nat)
      requires Valid() && numBits >= 1
      modifies this
      ensures Valid() && trace == old(trace) + DirectPath(numBits, value)
    {
      hide Valid;
      var n := numBits;
      while n != 0
        invariant 0 <= n <= numBits && Valid()
        invariant trace == old(trace) + DirectPath(numBits - n, Shr(value, n))
      {
        n := n - 1;
        EncodeDirectBit(Shr(value, n) % 2);
      }
    }

    /** Five shifts write out exactly the number that the registers stood for. */
    method FlushData()
      requires Valid()
      modifies this
      ensures BigEndian(out) == old(Number()) && |out| == 5 + old(View().shifts)
    {
      hide BigEndian, Delayed, Times256, Shifted;
      ghost var n, low0 := Number(), low;
      ShiftedAway(low0);
      Times256Step(n, 0);
      var i := 0;
      while i < 5
        invariant 0 <= i <= 5 && cacheSize >= 1 && low < 2 * WORD
        invariant cache == 255 ==> low < WORD
        invariant |out| + cacheSize == old(|out| + cacheSize) + i
        invariant Number() == Times256(n, i)
        invariant low == Shifted(low0, i)
        invariant i >= 1 && Shifted(low0, i - 1) == 0 ==> cache == 0 && cacheSize == 1
      {
        ShiftedStep(low0, i);
        Times256Step(n, i);
        ShiftLow();
        i := i + 1;
      }
      EndOfFlush(out, n);
    }
  }

  function Times256(n: nat, i: nat): nat {
    if i == 0 then n else 256 * Times256(n, i - 1)
  }

  lemma Times256Step(n: nat, i: nat)
    ensures Times256(n, 0) == n && Times256(n, i + 1) == 256 * Times256(n, i)
  {
  }

  /** `low` after i shifts. */
  function Shifted(low: nat, i: nat): nat {
    if i == 0 then low else Shifted(low, i - 1) % TOP * 256
  }

  lemma ShiftedStep(low: nat, i: nat)
    requires low < 2 * WORD
    ensures Shifted(low, i + 1) == Shifted(low, i) % TOP * 256 < WORD
  {
  }

  /** Four shifts empty `low`. */
  lemma ShiftedAway(low: nat)
    ensures Shifted(low, 0) == low && Shifted(low, 4) == 0 && Shifted(low, 5) == 0
  {
    assert Shifted(low, 1) % 256 == 0;
    assert Shifted(low, 2) % 0x1_0000 == 0;
    assert Shifted(low, 3) % TOP == 0;
  }

  lemma EndOfFlush(out: seq<Byte>, n: nat)
    requires BigEndian(Delayed(out, 0, 0)) * WORD == Times256(n, 5)
    ensures BigEndian(out) == n
  {
    BigEndianSnoc(out, 0);
    assert Times256(n, 1) == 256 * n;
    assert Times256(n, 3) == 256 * (256 * Times256(n, 1));
    assert Times256(n, 5) == 256 * (256 * Times256(n, 3));
  }
}
