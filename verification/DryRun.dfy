// Why a dry run may leave the probabilities alone: no symbol asks the same slot twice.

module DryRun {
  import opened Bytes
  import opened RangeCoding
  import opened Bits
  import opened BitTrees
  import opened LzmaModel
  import opened LzmaPrefixCode

  ghost predicate Distinct(ops: seq<Op>) {
    forall i, j :: 0 <= i < j < |ops| && ops[i].Model? && ops[j].Model? ==> ops[i].slot != ops[j].slot
  }

  ghost predicate SlotsIn(ops: seq<Op>, lo: int, hi: int) {
    forall i :: 0 <= i < |ops| && ops[i].Model? ==> lo <= ops[i].slot < hi
  }

  lemma DistinctConcat(a: seq<Op>, b: seq<Op>, lo: int, mid: int, hi: int)
    requires Distinct(a) && Distinct(b) && lo <= mid <= hi
    requires (SlotsIn(a, lo, mid) && SlotsIn(b, mid, hi)) || (SlotsIn(a, mid, hi) && SlotsIn(b, lo, mid))
    ensures Distinct(a + b) && SlotsIn(a + b, lo, hi)
  {
    forall i, j | 0 <= i < j < |a + b| && (a + b)[i].Model? && (a + b)[j].Model?
      ensures (a + b)[i].slot != (a + b)[j].slot
    {
      if j < |a| {
      } else if i >= |a| {
        assert (a + b)[i] == b[i - |a|] && (a + b)[j] == b[j - |a|];
      } else {
        assert (a + b)[i] == a[i] && (a + b)[j] == b[j - |a|];
      }
    }
  }

  // ----- the dry run does what the real run does

  /** A dry run follows the same decisions with the same registers. */
  lemma {:induction false} DryEquals(s: seq<Byte>, d: Reader, ops: seq<Op>)
    requires ValidReader(d) && d.learn && Distinct(ops)
    ensures var dry := d.(learn := false);
            && (Reads(s, dry, ops) <==> Reads(s, d, ops))
            && TakeAll(s, dry, ops) == TakeAll(s, d, ops).(probs := d.probs, learn := false)
    ensures forall slot: nat :: !Asked(ops, slot) ==> Prob(TakeAll(s, d, ops).probs, slot) == Prob(d.probs, slot)
    decreases |ops|
  {
    hide Take, Peek, ValidProbs, Prob;
    if ops != [] {
      var n := |ops| - 1;
      var op := ops[n];
      DryEquals(s, d, ops[..n]);
      assert op.Model? ==> !Asked(ops[..n], op.slot);
      DryStep(s, TakeAll(s, d, ops[..n]), op, d.probs);
      forall slot: nat | !Asked(ops, slot)
        ensures Prob(TakeAll(s, d, ops).probs, slot) == Prob(d.probs, slot)
      {
        assert !Asked(ops[..n], slot);
        assert !(op.Model? && op.slot == slot);
      }
    }
  }

  ghost predicate Asked(ops: seq<Op>, slot: nat) {
    exists i :: 0 <= i < |ops| && ops[i].Model? && ops[i].slot == slot
  }

  lemma DryStep(s: seq<Byte>, t: Reader, op: Op, probs: seq<int>)
    requires ValidReader(t) && t.learn && ValidProbs(probs)
    requires op.Model? ==> Prob(t.probs, op.slot) == Prob(probs, op.slot)
    ensures var dry := t.(probs := probs, learn := false);
            && ValidReader(dry) && Peek(dry, op) == Peek(t, op)
            && Take(s, dry, op) == Take(s, t, op).(probs := probs, learn := false)
    ensures forall slot: nat :: !(op.Model? && op.slot == slot) ==>
              Prob(Take(s, t, op).probs, slot) == Prob(t.probs, slot)
  {
  }

  // ----- symbols ask no slot twice

  function TreeBase(tree: Tree): nat { tree.base }

  /** Slots of tree nodes below m. */
  ghost predicate NodesBelow(ops: seq<Op>, base: nat, m: nat) {
    forall i :: 0 <= i < |ops| ==>
      ops[i].Model? && base <= ops[i].slot < base + 768 && (ops[i].slot - base) % 256 < m
  }

  lemma {:induction false} PathDistinct(tree: Tree, t: nat)
    requires t < 512
    ensures Distinct(Path(tree, t)) && NodesBelow(Path(tree, t), TreeBase(tree), t)
    ensures SlotsIn(Path(tree, t), TreeBase(tree), TreeBase(tree) + 768)
    ensures tree.Plain? ==> SlotsIn(Path(tree, t), tree.base + 1, tree.base + t)
  {
    hide Depth, MatchNode, MatchOffset;
    if t > 1 {
      PathDistinct(tree, t / 2);
      SlotNode(tree, t / 2);
      NodeAdded(Path(tree, t / 2), Model(Slot(tree, t / 2), t % 2), TreeBase(tree), t / 2, t);
    }
  }

  lemma SlotNode(tree: Tree, m: nat)
    requires m < 256
    ensures TreeBase(tree) <= Slot(tree, m) < TreeBase(tree) + 768 && (Slot(tree, m) - TreeBase(tree)) % 256 == m
    ensures tree.Plain? ==> Slot(tree, m) == tree.base + m
  {
    hide Depth, MatchNode;
  }

  lemma NodeAdded(ops: seq<Op>, op: Op, base: nat, m: nat, t: nat)
    requires Distinct(ops) && NodesBelow(ops, base, m) && m < t
    requires op.Model? && base <= op.slot < base + 768 && (op.slot - base) % 256 == m
    ensures Distinct(ops + [op]) && NodesBelow(ops + [op], base, t)
  {
  }

  lemma {:induction false} DirectDistinct(n: nat, v: nat, lo: int, hi: int)
    ensures Distinct(DirectPath(n, v)) && SlotsIn(DirectPath(n, v), lo, hi)
  {
    if n > 0 {
      DirectDistinct(n - 1, v / 2, lo, hi);
    }
  }

  lemma LenDistinct(base: nat, posState: nat, l: nat)
    requires l < 272 && posState < 16
    ensures Distinct(LenOps(base, posState, l)) && SlotsIn(LenOps(base, posState, l), base, base + 514)
  {
    hide Path;
    var tree, t := if l < 8 then Plain(base + LEN_LOW + posState * 8) else if l < 16 then Plain(base + LEN_MID + posState * 8)
                   else Plain(base + LEN_HIGH), if l < 8 then 8 + l else if l < 16 then l else 240 + l;
    NodeSlots(tree, if l < 16 then 3 else 8, t);
    var head := if l < 8 then [Model(base, 0)] else [Model(base, 1), Model(base + LEN_CHOICE2, if l < 16 then 0 else 1)];
    assert Distinct(head) && SlotsIn(head, base, base + 2);
    assert SlotsIn(Path(tree, t), base + 2, base + 514);
    DistinctConcat(head, Path(tree, t), base, base + 2, base + 514);
  }

  /** A walk down n levels stays within the first 2^n slots of its tree. */
  lemma NodeSlots(tree: Tree, n: nat, t: nat)
    requires tree.Plain? && n <= 8 && Pow2(n) <= t < 2 * Pow2(n)
    ensures Distinct(Path(tree, t)) && SlotsIn(Path(tree, t), tree.base + 1, tree.base + Pow2(n))
  {
    PowersOfTwo();
    Pow2Monotone(n, 8);
    PathDistinct(tree, t);
    if n > 0 {
      PathDistinct(tree, t / 2);
    }
  }

  lemma DistanceDistinct(l: nat, d: nat)
    requires d < WORD
    ensures Distinct(DistanceOps(l, d)) && SlotsIn(DistanceOps(l, d), POS_SLOT, LEN_CODER)
  {
    hide Path, DistSlot, FooterOps, SlotBase;
    SlotInterval(d);
    SlotBelow64(d);
    PowersOfTwo();
    var slot := DistSlot(d);
    var tree := Plain(POS_SLOT + LenState(l) * 64);
    NodeSlots(tree, 6, 64 + slot);
    FooterDistinct(slot, d - SlotBase(slot));
    assert SlotsIn(Path(tree, 64 + slot), POS_SLOT, SPEC_POS);
    DistinctConcat(Path(tree, 64 + slot), FooterOps(slot, d - SlotBase(slot)), POS_SLOT, SPEC_POS, LEN_CODER);
  }

  lemma FooterDistinct(slot: nat, v: nat)
    requires slot < 64 && v < Pow2(FooterBits(slot))
    ensures Distinct(FooterOps(slot, v)) && SlotsIn(FooterOps(slot, v), SPEC_POS, LEN_CODER)
  {
    hide Path, DirectPath, ReverseNode;
    PowersOfTwo();
    if 4 <= slot < 14 {
      ShortFooter(slot);
      NodeSlots(Plain(SPEC_POS + SlotBase(slot) - slot - 1), FooterBits(slot), ReverseNode(FooterBits(slot), v));
    } else if slot >= 14 {
      var n := FooterBits(slot) - 4;
      DirectDistinct(n, v / 16, SPEC_POS, ALIGN);
      NodeSlots(Plain(ALIGN), 4, ReverseNode(4, v % 16));
      assert SlotsIn(Path(Plain(ALIGN), ReverseNode(4, v % 16)), ALIGN, LEN_CODER);
      DistinctConcat(DirectPath(n, v / 16), Path(Plain(ALIGN), ReverseNode(4, v % 16)), SPEC_POS, ALIGN, LEN_CODER);
    }
  }

  lemma PosStateSmall(p: Props, z: Lz)
    requires ValidProps(p)
    ensures PosState(p, z) < 16
  {
    PowersOfTwo();
    Pow2Monotone(p.pb, 4);
    assert |z.hist| % Pow2(p.pb) < Pow2(p.pb);
  }

  lemma HeadDistinct(p: Props, z: Lz, s: Symbol)
    requires ValidProps(p) && ValidLz(z)
    ensures var head := [Model(IS_MATCH + z.state * 16 + PosState(p, z), if s.Literal? then 0 else 1),
                         Model(IS_REP + z.state, if s.Match? then 0 else 1)];
            && Distinct(head) && SlotsIn(head, 0, IS_REP_G0)
            && Distinct(head[..1]) && SlotsIn(head[..1], 0, LITERAL)
  {
    PosStateSmall(p, z);
  }

  lemma RepDistinct(p: Props, z: Lz, i: nat)
    requires ValidProps(p) && ValidLz(z) && i < 4
    ensures Distinct(RepOps(z.state, PosState(p, z), i))
    ensures SlotsIn(RepOps(z.state, PosState(p, z), i), IS_REP_G0, POS_SLOT)
    ensures Distinct(ShortOps(z.state, PosState(p, z)))
    ensures SlotsIn(ShortOps(z.state, PosState(p, z)), IS_REP_G0, POS_SLOT)
  {
    PosStateSmall(p, z);
  }

  lemma Widen(ops: seq<Op>, lo: int, hi: int, lo': int, hi': int)
    requires SlotsIn(ops, lo, hi) && lo' <= lo && hi <= hi'
    ensures SlotsIn(ops, lo', hi')
  {
  }

  lemma SymbolDistinct(p: Props, z: Lz, s: Symbol)
    requires ValidProps(p) && ValidLz(z) && ValidSymbol(s)
    ensures Distinct(SymbolOps(p, z, s))
  {
    hide Path, LenOps, DistanceOps, RepOps, ShortOps, Distinct, SlotsIn, LiteralTree;
    PosStateSmall(p, z);
    HeadDistinct(p, z, s);
    var posState := PosState(p, z);
    var head := [Model(IS_MATCH + z.state * 16 + posState, if s.Literal? then 0 else 1),
                 Model(IS_REP + z.state, if s.Match? then 0 else 1)];
    match s
    case Literal(byte) =>
      var tree := LiteralTree(p, z);
      LiteralTreeBase(p, z);
      PathDistinct(tree, 256 + byte);
      Widen(Path(tree, 256 + byte), TreeBase(tree), TreeBase(tree) + 768, LITERAL, TreeBase(tree) + 768);
      assert head[..1] == [head[0]];
      DistinctConcat(head[..1], Path(tree, 256 + byte), 0, LITERAL, TreeBase(tree) + 768);
    case ShortRep =>
      RepDistinct(p, z, 0);
      DistinctConcat(head, ShortOps(z.state, posState), 0, IS_REP_G0, POS_SLOT);
    case Rep(i, len) =>
      var reps, lens := RepOps(z.state, posState, i), LenOps(REP_LEN_CODER, posState, len - 2);
      RepDistinct(p, z, i);
      LenDistinct(REP_LEN_CODER, posState, len - 2);
      Widen(reps, IS_REP_G0, POS_SLOT, IS_REP_G0, REP_LEN_CODER);
      DistinctConcat(reps, lens, IS_REP_G0, REP_LEN_CODER, REP_LEN_CODER + 514);
      DistinctConcat(head, reps + lens, 0, IS_REP_G0, REP_LEN_CODER + 514);
    case Match(d, len) =>
      var lens, dist := LenOps(LEN_CODER, posState, len - 2), DistanceOps(len - 2, d);
      LenDistinct(LEN_CODER, posState, len - 2);
      DistanceDistinct(len - 2, d);
      DistinctConcat(lens, dist, POS_SLOT, LEN_CODER, LEN_CODER + 514);
      Widen(lens + dist, POS_SLOT, LEN_CODER + 514, IS_REP_G0, LEN_CODER + 514);
      DistinctConcat(head, lens + dist, 0, IS_REP_G0, LEN_CODER + 514);
  }

  lemma LiteralTreeBase(p: Props, z: Lz)
    requires ValidProps(p) && ValidLz(z)
    ensures TreeBase(LiteralTree(p, z)) >= LITERAL
  {
    if z.hist != [] {
      var q := Shr(z.hist[|z.hist| - 1], 8 - p.lc);
      assert 0 <= |z.hist| % Pow2(p.lp) * Pow2(p.lc);
    }
  }

  // ----- a prefix of the input

  /** What is decided within the bytes at hand is decided the same way by any longer input. */
  lemma {:induction false} Extends(s: seq<Byte>, t: seq<Byte>, d: Reader, ops: seq<Op>)
    requires ValidReader(d) && s <= t && TakeAll(s, d, ops).pos <= |s|
    ensures Reads(t, d, ops) <==> Reads(s, d, ops)
    ensures TakeAll(t, d, ops) == TakeAll(s, d, ops)
    decreases |ops|
  {
    hide Split, Peek;
    if ops != [] {
      Extends(s, t, d, ops[..|ops| - 1]);
    }
  }
}
