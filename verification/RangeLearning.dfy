// What the adaptive probabilities are for: a bit that has just been coded gets more of the
// range the next time, so that decisions that repeat cost next to nothing.

module RangeLearning {
  import opened RangeCoding

  /** The part of the range, in 2048ths, that a bit gets. */
  function Share(p: int, bit: Bit): int {
    if bit == 0 then p else 2048 - p
  }

  /** What a bit leaves of the range. */
  function Given(range: int, p: int, bit: Bit): int {
    if bit == 0 then Bound(range, p) else range - Bound(range, p)
  }

  /**
   * The bit coded last gets no less of any range the next time its slot is asked, and more,
   * except where its share is 2017/2048 already.
   */
  lemma LearnsWhatItSees(range: int, p: int, bit: Bit)
    requires TOP <= range < WORD && PROB_MIN <= p <= PROB_MAX
    ensures Share(Adapt(p, bit), bit) >= Share(p, bit) && Given(range, Adapt(p, bit), bit) >= Given(range, p, bit)
    ensures Share(p, bit) < 2017 <==> Share(Adapt(p, bit), bit) > Share(p, bit)
    ensures Share(p, bit) < 2017 <==> Given(range, Adapt(p, bit), bit) > Given(range, p, bit)
  {
    var r := Adapt(p, bit);
    MoreOf(range / 2048, p, r);
    MoreOf(range / 2048, r, p);
  }

  lemma MoreOf(q: int, a: int, b: int)
    requires q >= 1
    ensures a < b <==> q * a < q * b
  {
    if a < b {
      assert q * (b - a) >= 1;
    } else {
      assert q * (a - b) >= 0;
    }
  }

  // ----- the cost of a decision that repeats

  function Same(op: Op, n: nat): (ops: seq<Op>)
    ensures |ops| == n
  {
    if n == 0 then [] else Same(op, n - 1) + [op]
  }

  /** How far the share is from 1, which is never less than 31/2048. */
  function Missing(e: Interval, slot: nat, bit: Bit): int {
    2048 - Share(Prob(e.probs, slot), bit)
  }

  /** In so many equal decisions a share reaches 2017/2048. */
  function Left(missing: int): int {
    if missing < 32 then 0
    else if missing < 64 then missing - 31
    else if missing < 128 then 32 + (missing - 62) / 2
    else if missing < 256 then 64 + (missing - 124) / 4
    else if missing < 512 then 96 + (missing - 248) / 8
    else if missing < 1024 then 128 + (missing - 496) / 16
    else 160 + (missing - 992) / 32
  }

  lemma LeftFalls(missing: int)
    requires 31 <= missing <= 2017
    ensures 0 <= Left(missing) <= 192 && 0 <= Left(missing - missing / 32) <= if missing < 32 then 0 else Left(missing) - 1
  {
  }

  /** The most that a decision takes away, and the least that a shift gives back, at the best share. */
  const TAKEN := 31 * 0x20_0000 + 2047
  const REGAINED := 255 * 16521217

  lemma StepCost(e: Interval, slot: nat, bit: Bit)
    requires WellFormed(e) && slot < |e.probs|
    ensures var x, r := Missing(e, slot, bit), Code(e, Model(slot, bit));
            && 31 <= x <= 2017 && Missing(r, slot, bit) == x - x / 32
            && e.shifts <= r.shifts <= e.shifts + 1
            && (x == 31 ==> REGAINED * (r.shifts - e.shifts) <= r.range - e.range + TAKEN)
  {
    var p, n := e.probs[slot], Narrow(e, Model(slot, bit));
    var q := e.range / 2048;
    assert Missing(e, slot, bit) == 31 ==> e.range - n.range <= 31 * q + 2047;
  }

  lemma NoDecision(e: Interval)
    requires WellFormed(e)
    ensures CodeAll(e, []) == e
  {
  }

  /** What the shifts but the first `most` have given back is no more than what n decisions took away, and the range. */
  predicate Balanced(before: int, after: int, most: int, range: int, n: nat) {
    REGAINED * (after - before - most) <= range - TOP + TAKEN * n
  }

  /** So far at most one shift for each decision before the best share, and then few. */
  lemma {:induction false} RunStep(e: Interval, slot: nat, bit: Bit, n: nat)
    requires WellFormed(e) && slot < |e.probs|
    ensures var r, most := CodeAll(e, Same(Model(slot, bit), n)), Left(Missing(e, slot, bit));
            && (Missing(r, slot, bit) > 31 ==> r.shifts - e.shifts <= n && n + Left(Missing(r, slot, bit)) <= most)
            && Balanced(e.shifts, r.shifts, most, r.range, n)
  {
    hide Code, Left, Missing, CodeAll;
    NoDecision(e);
    var op := Model(slot, bit);
    if n == 0 {
      StepCost(e, slot, bit);
      LeftFalls(Missing(e, slot, bit));
    } else {
      RunStep(e, slot, bit, n - 1);
      CodeSnoc(e, Same(op, n - 1), op);
      var t := CodeAll(e, Same(op, n - 1));
      StepCost(t, slot, bit);
      LeftFalls(Missing(t, slot, bit));
      var r, most := Code(t, op), Left(Missing(e, slot, bit));
      if Missing(t, slot, bit) > 31 {
        assert r.shifts - e.shifts - most <= 0;
      }
    }
  }

  lemma FewShifts(after: int, before: int, most: int, range: int, n: nat)
    requires range < WORD && Balanced(before, after, most, range, n)
    ensures after <= before + most + 1 + n / 64
  {
    var k := n / 64;
    assert TAKEN * n <= TAKEN * (64 * k + 63) && TAKEN * 64 < REGAINED;
  }

  /** From any probability and any registers, n equal decisions in one slot take at most 193 + n/64 bytes. */
  lemma RunCost(e: Interval, slot: nat, bit: Bit, n: nat)
    requires WellFormed(e) && slot < |e.probs|
    ensures CodeAll(e, Same(Model(slot, bit), n)).shifts <= e.shifts + 193 + n / 64
  {
    hide CodeAll, Left, Missing, Code, Balanced;
    RunStep(e, slot, bit, n);
    StepCost(e, slot, bit);
    LeftFalls(Missing(e, slot, bit));
    var r := CodeAll(e, Same(Model(slot, bit), n));
    FewShifts(r.shifts, e.shifts, Left(Missing(e, slot, bit)), r.range, n);
  }
}
