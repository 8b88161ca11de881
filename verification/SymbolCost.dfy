// How much input one symbol can take.  The longest codes have 22 modelled and 26 direct
// decisions, or 23 modelled ones; both stay within 20 bytes.

module SymbolCost {
  import opened Bytes
  import opened RangeCoding
  import opened Bits
  import opened BitTrees
  import opened LzmaModel
  import opened LzmaPrefixCode

  const MAX_DIRECT := 26
  const REQUIRED_INPUT_MAX := 20

  function Modelled(ops: seq<Op>): (r: nat)
    ensures r <= |ops|
  {
    if ops == [] then 0 else Modelled(ops[..|ops| - 1]) + if ops[|ops| - 1].Model? then 1 else 0
  }

  /** The most decisions a symbol, or a part of one, may have. */
  predicate Allowed(modelled: nat, direct: nat) {
    direct <= MAX_DIRECT && modelled <= if direct == 0 then 23 else 22
  }

  predicate Affordable(ops: seq<Op>) {
    Allowed(Modelled(ops), |ops| - Modelled(ops))
  }

  lemma {:induction false} ModelledConcat(a: seq<Op>, b: seq<Op>)
    ensures Modelled(a + b) == Modelled(a) + Modelled(b)
    decreases |b|
  {
    if b == [] {
      assert a + b == a;
    } else {
      var n := |b| - 1;
      ModelledConcat(a, b[..n]);
      assert (a + b)[..|a + b| - 1] == a + b[..n];
    }
  }

  // ----- the smallest range after m modelled and k direct decisions and b scalings

  function Floor(m: nat, k: nat, b: nat): (r: real)
    ensures r > 0.0
  {
    if b > 0 then Floor(m, k, b - 1) * 256.0
    else if k > 0 then Floor(m, k - 1, 0) / 2.0001
    else if m > 0 then Floor(m - 1, 0, 0) / 66.1
    else TOP as real
  }

  lemma {:induction false} FloorDirect(m: nat, k: nat, b: nat)
    ensures Floor(m, k + 1, b) == Floor(m, k, b) / 2.0001
  {
    if b > 0 {
      FloorDirect(m, k, b - 1);
    }
  }

  lemma {:induction false} FloorModelled(m: nat, k: nat, b: nat)
    ensures Floor(m + 1, k, b) == Floor(m, k, b) / 66.1
    decreases b, k
  {
    if b > 0 {
      FloorModelled(m, k, b - 1);
    } else if k > 0 {
      FloorModelled(m, k - 1, 0);
    }
  }

  /** One modelled decision, one direct decision and one scaling gain a factor above 1.93. */
  lemma {:induction false} FloorDiagonal(n: nat)
    ensures Floor(4 * n, 4 * n, 4 * n) >= TOP as real * Gain(n)
  {
    if n > 0 {
      FloorDiagonal(n - 1);
      var i := 4 * (n - 1);
      var f := Floor(i, i, i);
      FloorStep(i);
      FloorStep(i + 1);
      FloorStep(i + 2);
      FloorStep(i + 3);
    }
  }

  lemma FloorStep(i: nat)
    ensures Floor(i + 1, i + 1, i + 1) >= Floor(i, i, i) * 1.936
  {
    FloorModelled(i, i + 1, i + 1);
    FloorDirect(i, i, i + 1);
  }

  function Gain(n: nat): real {
    if n == 0 then 1.0 else Gain(n - 1) * 14.0
  }

  /** Before a 21st scaling the range would still be at least 2^24. */
  lemma FloorHigh(m: nat, k: nat)
    requires Allowed(m, k)
    ensures Floor(m, k, 20) >= TOP as real
  {
    hide Floor;
    FloorCorner();
    if m <= 22 {
      FloorAntitone(m, 22, k, 26);
    } else {
      FloorAntitone(m, 23, k, 19);
    }
  }

  lemma FloorCorner()
    ensures Floor(22, 26, 20) >= TOP as real && Floor(23, 19, 20) >= TOP as real
  {
    hide Floor;
    FloorDiagonal(5);
    assert Gain(5) == 14.0 * 14.0 * 14.0 * 14.0 * 14.0;
    FloorModelled(20, 20, 20);
    FloorModelled(21, 20, 20);
    FloorDirect(22, 20, 20);
    FloorDirect(22, 21, 20);
    FloorDirect(22, 22, 20);
    FloorDirect(22, 23, 20);
    FloorDirect(22, 24, 20);
    FloorDirect(22, 25, 20);
    FloorModelled(22, 20, 20);
    FloorDirect(23, 19, 20);
  }

  lemma {:induction false} FloorAntitone(m: nat, m': nat, k: nat, k': nat)
    requires m <= m' && k <= k'
    ensures Floor(m, k, 20) >= Floor(m', k', 20)
    decreases m' - m, k' - k
  {
    if m < m' {
      FloorAntitone(m + 1, m', k, k');
      FloorModelled(m, k, 20);
    } else if k < k' {
      FloorAntitone(m, m', k + 1, k');
      FloorDirect(m, k, 20);
    }
  }

  // ----- the reader stays above the floor

  lemma SplitCost(d: Reader, op: Op)
    requires ValidReader(d)
    ensures op.Model? ==> Split(d, op).range * 661 >= d.range * 10
    ensures op.Direct? ==> Split(d, op).range * 20001 >= d.range * 10000
  {
    if op.Model? {
      BoundShare(d.range, Prob(d.probs, op.slot));
    }
  }

  lemma BoundShare(range: int, p: int)
    requires TOP <= range < WORD && PROB_MIN <= p <= PROB_MAX
    ensures Bound(range, p) * 661 >= range * 10
    ensures (range - Bound(range, p)) * 661 >= range * 10
  {
    var q := range / 2048;
    assert q * 31 <= q * p <= q * 2017;
  }

  /**
   * With probabilities in 31..2017, as many decisions as a symbol may have take at most
   * 20 bytes, final normalisation included.
   */
  lemma {:induction false} InputBound(s: seq<Byte>, d: Reader, ops: seq<Op>)
    requires ValidReader(d) && Affordable(ops)
    ensures TakeAll(s, d, ops).pos <= d.pos + REQUIRED_INPUT_MAX
    ensures TakeAll(s, d, ops).range as real >= Floor(Modelled(ops), |ops| - Modelled(ops), TakeAll(s, d, ops).pos - d.pos)
    decreases |ops|
  {
    hide Split, Floor;
    if ops == [] {
      FloorStart();
    } else {
      var n := |ops| - 1;
      InputBound(s, d, ops[..n]);
      var t := TakeAll(s, d, ops[..n]);
      InputStep(s, t, ops[n], Modelled(ops[..n]), n - Modelled(ops[..n]), t.pos - d.pos);
    }
  }

  lemma FloorStart()
    ensures Floor(0, 0, 0) == TOP as real
  {
  }

  lemma InputStep(s: seq<Byte>, d: Reader, op: Op, m: nat, k: nat, b: nat)
    requires ValidReader(d) && b <= 20 && d.range as real >= Floor(m, k, b)
    requires if op.Model? then Allowed(m + 1, k) else Allowed(m, k + 1)
    ensures var r := Take(s, d, op);
            var m', k' := if op.Model? then m + 1 else m, if op.Model? then k else k + 1;
            r.pos - d.pos + b <= 20 && r.range as real >= Floor(m', k', r.pos - d.pos + b)
  {
    hide Split;
    SplitCost(d, op);
    FloorModelled(m, k, b);
    FloorDirect(m, k, b);
    var t := Split(d, op);
    if op.Model? {
      assert t.range as real >= Floor(m + 1, k, b);
      FloorHigh(m + 1, k);
    } else {
      assert t.range as real >= Floor(m, k + 1, b);
      FloorHigh(m, k + 1);
    }
  }

  // ----- what a symbol costs

  lemma {:induction false} PathCost(tree: Tree, t: nat)
    ensures Modelled(Path(tree, t)) == Depth(t)
  {
    if t > 1 {
      PathCost(tree, t / 2);
      ModelledConcat(Path(tree, t / 2), [Model(Slot(tree, t / 2), t % 2)]);
    }
  }

  lemma {:induction false} DirectCost(n: nat, v: nat)
    ensures Modelled(DirectPath(n, v)) == 0
  {
    if n > 0 {
      DirectCost(n - 1, v / 2);
      ModelledConcat(DirectPath(n - 1, v / 2), [Direct(v % 2)]);
    }
  }

  lemma SmallDepths()
    ensures forall k: nat {:trigger Depth(k)} :: 8 <= k < 16 ==> Depth(k) == 3
    ensures forall k: nat {:trigger Depth(k)} :: 16 <= k < 32 ==> Depth(k) == 4
    ensures forall k: nat {:trigger Depth(k)} :: 64 <= k < 128 ==> Depth(k) == 6
    ensures forall k: nat {:trigger Depth(k)} :: 256 <= k < 512 ==> Depth(k) == 8
  {
    PowersOfTwo();
    forall k: nat | 8 <= k < 16 ensures Depth(k) == 3 { DepthRange(k, 3); }
    forall k: nat | 16 <= k < 32 ensures Depth(k) == 4 { DepthRange(k, 4); }
    forall k: nat | 64 <= k < 128 ensures Depth(k) == 6 { DepthRange(k, 6); }
    forall k: nat | 256 <= k < 512 ensures Depth(k) == 8 { DepthRange(k, 8); }
  }

  lemma Heads(a: Op, b: Op, c: Op)
    requires a.Model? && b.Model? && c.Model?
    ensures Modelled([a]) == 1 && Modelled([a, b]) == 2 && Modelled([a, b, c]) == 3
  {
    assert [a, b, c][..2] == [a, b] && [a, b][..1] == [a];
  }

  lemma LenCost(base: nat, posState: nat, l: nat)
    requires l < 272
    ensures Modelled(LenOps(base, posState, l)) == |LenOps(base, posState, l)| <= 10
  {
    hide Modelled, Depth;
    SmallDepths();
    var tree, t := if l < 8 then Plain(base + LEN_LOW + posState * 8) else if l < 16 then Plain(base + LEN_MID + posState * 8)
                   else Plain(base + LEN_HIGH), if l < 8 then 8 + l else if l < 16 then l else 240 + l;
    PathCost(tree, t);
    var a, b := Model(base, if l < 8 then 0 else 1), Model(base + LEN_CHOICE2, if l < 16 then 0 else 1);
    Heads(a, b, b);
    ModelledConcat(if l < 8 then [a] else [a, b], Path(tree, t));
  }

  lemma DistanceCost(l: nat, d: nat)
    requires d < WORD
    ensures var ops := DistanceOps(l, d);
            && |ops| - Modelled(ops) <= MAX_DIRECT
            && Modelled(ops) <= if |ops| == Modelled(ops) then 11 else 10
  {
    hide Modelled, Depth, DistSlot, FooterOps, SlotBase;
    SlotInterval(d);
    SlotBelow64(d);
    SmallDepths();
    var slot := DistSlot(d);
    var tree := Plain(POS_SLOT + LenState(l) * 64);
    PathCost(tree, 64 + slot);
    FooterCost(slot, d - SlotBase(slot));
    ModelledConcat(Path(tree, 64 + slot), FooterOps(slot, d - SlotBase(slot)));
  }

  lemma FooterCost(slot: nat, v: nat)
    requires slot < 64 && v < Pow2(FooterBits(slot))
    ensures var ops := FooterOps(slot, v);
            && |ops| - Modelled(ops) <= MAX_DIRECT
            && Modelled(ops) <= if |ops| == Modelled(ops) then 5 else 4
  {
    hide Depth, ReverseNode, Modelled;
    SmallDepths();
    PowersOfTwo();
    ModelledConcat([], []);
    if 4 <= slot < 14 {
      var n := FooterBits(slot);
      var tree := Plain(SPEC_POS + SlotBase(slot) - slot - 1);
      DepthRange(ReverseNode(n, v), n);
      PathCost(tree, ReverseNode(n, v));
    } else if slot >= 14 {
      var n := FooterBits(slot) - 4;
      DirectCost(n, v / 16);
      PathCost(Plain(ALIGN), ReverseNode(4, v % 16));
      ModelledConcat(DirectPath(n, v / 16), Path(Plain(ALIGN), ReverseNode(4, v % 16)));
    }
  }

  /** A longest match at a distance of size class 12 has 23 modelled decisions, one more than the header counts on. */
  lemma TwentyThree(p: Props, z: Lz)
    requires ValidProps(p) && ValidLz(z)
    ensures ValidSymbol(Match(64, MATCH_MAX_LEN))
    ensures Modelled(SymbolOps(p, z, Match(64, MATCH_MAX_LEN))) == |SymbolOps(p, z, Match(64, MATCH_MAX_LEN))| == 23
  {
    hide Depth, Path, Modelled, DistSlot, ReverseNode;
    var posState := PosState(p, z);
    var head := [Model(IS_MATCH + z.state * 16 + posState, 1), Model(IS_REP + z.state, 0)];
    Heads(head[0], head[1], head[1]);
    var lens, places := LenOps(LEN_CODER, posState, 271), DistanceOps(271, 64);
    SmallDepths();
    PathCost(Plain(LEN_CODER + LEN_HIGH), 511);
    LenCost(LEN_CODER, posState, 271);
    ClassTwelve();
    PathCost(Plain(POS_SLOT + LenState(271) * 64), 76);
    DepthRange(ReverseNode(5, 0), 5);
    PathCost(Plain(SPEC_POS + 64 - 13), ReverseNode(5, 0));
    ModelledConcat(Path(Plain(POS_SLOT + LenState(271) * 64), 76), FooterOps(12, 0));
    ModelledConcat(lens, places);
    ModelledConcat(head, lens + places);
  }

  lemma ClassTwelve()
    ensures DistSlot(64) == 12 && SlotBase(12) == 64 && FooterBits(12) == 5
  {
    PowersOfTwo();
    assert Pow2(5) == 32;
    SlotUnique(64, 12);
  }

  /** No symbol has more decisions than the bound allows. */
  lemma SymbolAffordable(p: Props, z: Lz, s: Symbol)
    requires ValidProps(p) && ValidLz(z) && ValidSymbol(s)
    ensures Affordable(SymbolOps(p, z, s))
  {
    hide Depth, Path, LenOps, DistanceOps, LiteralTree, Modelled;
    var posState := PosState(p, z);
    var a := Model(IS_MATCH + z.state * 16 + posState, if s.Literal? then 0 else 1);
    var b := Model(IS_REP + z.state, if s.Match? then 0 else 1);
    Heads(a, b, b);
    match s
    case Literal(byte) =>
      SmallDepths();
      PathCost(LiteralTree(p, z), 256 + byte);
      ModelledConcat([a], Path(LiteralTree(p, z), 256 + byte));
    case ShortRep =>
      var ops := ShortOps(z.state, posState);
      Heads(ops[0], ops[1], ops[1]);
      ModelledConcat([a, b], ops);
    case Rep(i, len) =>
      var ops, lens := RepOps(z.state, posState, i), LenOps(REP_LEN_CODER, posState, len - 2);
      Heads(ops[0], ops[1], ops[|ops| - 1]);
      LenCost(REP_LEN_CODER, posState, len - 2);
      ModelledConcat(ops, lens);
      ModelledConcat([a, b], ops + lens);
    case Match(d, len) =>
      var lens, dist := LenOps(LEN_CODER, posState, len - 2), DistanceOps(len - 2, d);
      LenCost(LEN_CODER, posState, len - 2);
      DistanceCost(len - 2, d);
      ModelledConcat(lens, dist);
      ModelledConcat([a, b], lens + dist);
  }

  /** Worst-case input: decoding any one symbol takes in at most 20 bytes. */
  lemma SymbolInputBound(p: Props, z: Lz, s: Symbol, input: seq<Byte>, d: Reader)
    requires ValidProps(p) && ValidLz(z) && ValidSymbol(s) && ValidReader(d)
    ensures TakeAll(input, d, SymbolOps(p, z, s)).pos <= d.pos + REQUIRED_INPUT_MAX
  {
    SymbolAffordable(p, z, s);
    InputBound(input, d, SymbolOps(p, z, s));
  }
}
