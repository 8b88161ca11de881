// Which decisions share a probability: a slot tells the question and the part of the state
// that it is asked in, so that nothing is learned from other questions or in other states.

module LzmaLayouts {
  import opened Bytes
  import opened RangeCoding
  import opened Bits
  import opened BitTrees
  import opened LzmaModel
  import opened LzmaPrefixCode
  import opened DryRun

  /** Announcing decisions: literal or not, match or repeat, and which repeat. */
  predicate HeadTold(p: Props, z: Lz, s: Symbol, slot: nat) {
    && (slot < IS_REP ==> slot / 16 == z.state && slot % 16 == |z.hist| % Pow2(p.pb))
    && (IS_REP <= slot < IS_REP_G0 ==> slot - IS_REP == z.state && !s.Literal?)
    && (IS_REP_G0 <= slot < IS_REP_G1 ==> slot - IS_REP_G0 == z.state && (s.ShortRep? || s.Rep?))
    && (IS_REP_G1 <= slot < IS_REP_G2 ==> slot - IS_REP_G1 == z.state && s.Rep? && s.index >= 1)
    && (IS_REP_G2 <= slot < IS_REP0_LONG ==> slot - IS_REP_G2 == z.state && s.Rep? && s.index >= 2)
    && (IS_REP0_LONG <= slot < POS_SLOT ==>
          && (slot - IS_REP0_LONG) / 16 == z.state && (slot - IS_REP0_LONG) % 16 == |z.hist| % Pow2(p.pb)
          && (s.ShortRep? || (s.Rep? && s.index == 0)))
  }

  /** Distances: the size class by the length, short low bits by the size class, and the last four bits. */
  predicate DistanceTold(s: Symbol, slot: nat)
    requires ValidSymbol(s)
  {
    && (POS_SLOT <= slot < SPEC_POS ==> s.Match? && (slot - POS_SLOT) / 64 == if s.len < 6 then s.len - 2 else 3)
    && (SPEC_POS <= slot < ALIGN ==>
          && s.Match? && 4 <= DistSlot(s.distance) < 14
          && SlotBase(DistSlot(s.distance)) - DistSlot(s.distance) <= slot - SPEC_POS
          && slot - SPEC_POS < SlotBase(DistSlot(s.distance) + 1) - (DistSlot(s.distance) + 1))
    && (ALIGN <= slot < LEN_CODER ==> s.Match? && DistSlot(s.distance) >= 14)
  }

  /** The short and the middle lengths of a length coder: by the position. */
  predicate LenTold(base: nat, posState: nat, l: nat, slot: nat) {
    && (slot == base + LEN_CHOICE2 ==> l >= 8)
    && (base + LEN_LOW <= slot < base + LEN_MID ==> l < 8 && (slot - base - LEN_LOW) / 8 == posState)
    && (base + LEN_MID <= slot < base + LEN_HIGH ==> 8 <= l < 16 && (slot - base - LEN_MID) / 8 == posState)
    && (base + LEN_HIGH <= slot < base + 514 ==> l >= 16)
  }

  /**
   * Literals: by the low bits of the position and the high bits of the byte before.  Behind a
   * copy the byte that would have gone on with it chooses the third of the slots: its next
   * bit, as long as it agrees with the bits so far.
   */
  ghost predicate LiteralTold(p: Props, z: Lz, s: Symbol, slot: nat)
    requires ValidProps(p) && ValidLz(z)
  {
    slot >= LITERAL ==>
      var coder, third, node := (slot - LITERAL) / 768, (slot - LITERAL) % 768 / 256, (slot - LITERAL) % 256;
      && s.Literal? && coder / Pow2(p.lc) == |z.hist| % Pow2(p.lp)
      && coder % Pow2(p.lc) == (if z.hist == [] then 0 else Shr(z.hist[|z.hist| - 1], 8 - p.lc))
      && (z.state < NUM_LIT_STATES ==> third == 0)
      && (z.state >= NUM_LIT_STATES ==> ThirdTold(z.hist[|z.hist| - 1 - z.reps[0]], node, third))
  }

  ghost predicate ThirdTold(byte: Byte, node: nat, third: nat) {
    forall k: nat :: k < 8 && Pow2(k) <= node < 2 * Pow2(k) ==>
      third == if node == Shr(256 + byte, 8 - k) then 1 + Shr(256 + byte, 7 - k) % 2 else 0
  }

  ghost predicate Told(p: Props, z: Lz, s: Symbol, slot: nat)
    requires ValidProps(p) && ValidLz(z) && ValidSymbol(s)
  {
    && HeadTold(p, z, s, slot) && DistanceTold(s, slot) && LiteralTold(p, z, s, slot)
    && (LEN_CODER <= slot < REP_LEN_CODER ==> s.Match? && LenTold(LEN_CODER, |z.hist| % Pow2(p.pb), s.len - 2, slot))
    && (REP_LEN_CODER <= slot < LITERAL ==> s.Rep? && LenTold(REP_LEN_CODER, |z.hist| % Pow2(p.pb), s.len - 2, slot))
  }

  ghost predicate AllTold(p: Props, z: Lz, s: Symbol, ops: seq<Op>)
    requires ValidProps(p) && ValidLz(z) && ValidSymbol(s)
  {
    forall i :: 0 <= i < |ops| && ops[i].Model? ==> Told(p, z, s, ops[i].slot)
  }

  lemma ToldConcat(p: Props, z: Lz, s: Symbol, a: seq<Op>, b: seq<Op>)
    requires ValidProps(p) && ValidLz(z) && ValidSymbol(s) && AllTold(p, z, s, a) && AllTold(p, z, s, b)
    ensures AllTold(p, z, s, a + b)
  {
    hide Told;
  }

  /** Below the slots of the distances only the announcing decisions matter. */
  lemma HeadOnly(p: Props, z: Lz, s: Symbol, slot: nat)
    requires ValidProps(p) && ValidLz(z) && ValidSymbol(s) && slot < POS_SLOT && HeadTold(p, z, s, slot)
    ensures Told(p, z, s, slot)
  {
  }

  lemma RepTells(p: Props, z: Lz, s: Symbol)
    requires ValidProps(p) && ValidLz(z) && ValidSymbol(s) && (s.ShortRep? || s.Rep?)
    ensures AllTold(p, z, s, if s.Rep? then RepOps(z.state, PosState(p, z), s.index) else ShortOps(z.state, PosState(p, z)))
  {
    hide Pow2, Told;
    PosStateSmall(p, z);
    HeadOnly(p, z, s, IS_REP_G0 + z.state);
    if s.Rep? && s.index >= 1 {
      HeadOnly(p, z, s, IS_REP_G1 + z.state);
      if s.index >= 2 {
        HeadOnly(p, z, s, IS_REP_G2 + z.state);
      }
    } else {
      HeadOnly(p, z, s, IS_REP0_LONG + z.state * 16 + PosState(p, z));
    }
  }

  lemma LenTells(base: nat, posState: nat, l: nat)
    requires l < 272 && posState < 16
    ensures SlotsIn(LenOps(base, posState, l), base, base + 514)
    ensures forall i :: 0 <= i < |LenOps(base, posState, l)| && LenOps(base, posState, l)[i].Model? ==>
              LenTold(base, posState, l, LenOps(base, posState, l)[i].slot)
  {
    hide Path;
    var tree, t := if l < 8 then Plain(base + LEN_LOW + posState * 8) else if l < 16 then Plain(base + LEN_MID + posState * 8)
                   else Plain(base + LEN_HIGH), if l < 8 then 8 + l else if l < 16 then l else 240 + l;
    PowersOfTwo();
    NodeSlots(tree, if l < 16 then 3 else 8, t);
    LenDistinct(base, posState, l);
  }

  lemma DistanceTells(p: Props, z: Lz, s: Symbol)
    requires ValidProps(p) && ValidLz(z) && s.Match? && ValidSymbol(s)
    ensures AllTold(p, z, s, DistanceOps(s.len - 2, s.distance))
  {
    hide Path, DistSlot, FooterOps, SlotBase;
    SlotInterval(s.distance);
    SlotBelow64(s.distance);
    PowersOfTwo();
    var slot := DistSlot(s.distance);
    var tree := Plain(POS_SLOT + LenState(s.len - 2) * 64);
    NodeSlots(tree, 6, 64 + slot);
    FooterTells(p, z, s, slot, s.distance - SlotBase(slot));
    ToldConcat(p, z, s, Path(tree, 64 + slot), FooterOps(slot, s.distance - SlotBase(slot)));
  }

  lemma FooterTells(p: Props, z: Lz, s: Symbol, slot: nat, v: nat)
    requires ValidProps(p) && ValidLz(z) && ValidSymbol(s) && s.Match? && slot == DistSlot(s.distance) < 64 && v < Pow2(FooterBits(slot))
    ensures AllTold(p, z, s, FooterOps(slot, v))
  {
    hide Path, DirectPath, ReverseNode, DistSlot;
    PowersOfTwo();
    if 4 <= slot < 14 {
      ShortFooterTells(p, z, s, slot, v);
    } else if slot >= 14 {
      var n := FooterBits(slot) - 4;
      DirectDistinct(n, v / 16, 0, 0);
      NodeSlots(Plain(ALIGN), 4, ReverseNode(4, v % 16));
      ToldConcat(p, z, s, DirectPath(n, v / 16), Path(Plain(ALIGN), ReverseNode(4, v % 16)));
    }
  }

  lemma ShortFooterTells(p: Props, z: Lz, s: Symbol, slot: nat, v: nat)
    requires ValidProps(p) && ValidLz(z) && ValidSymbol(s) && s.Match? && 4 <= slot == DistSlot(s.distance) < 14 && v < Pow2(FooterBits(slot))
    ensures SlotBase(slot) >= slot
    ensures AllTold(p, z, s, Path(Plain(SPEC_POS + SlotBase(slot) - slot - 1), ReverseNode(FooterBits(slot), v)))
  {
    hide Path, ReverseNode, DistSlot, SlotBase, Pow2;
    ShortFooter(slot);
    NextClass(slot);
    NodeSlots(Plain(SPEC_POS + SlotBase(slot) - slot - 1), FooterBits(slot), ReverseNode(FooterBits(slot), v));
  }

  lemma NextClass(slot: nat)
    requires slot >= 4
    ensures SlotBase(slot + 1) == SlotBase(slot) + Pow2(FooterBits(slot))
  {
    if slot % 2 == 0 {
      assert SlotBase(slot) == 2 * Pow2(FooterBits(slot)) && SlotBase(slot + 1) == 3 * Pow2(FooterBits(slot));
    } else {
      assert SlotBase(slot) == 3 * Pow2(FooterBits(slot)) && SlotBase(slot + 1) == 2 * Pow2(FooterBits(slot) + 1);
    }
  }

  lemma LiteralTells(p: Props, z: Lz, s: Symbol)
    requires ValidProps(p) && ValidLz(z) && s.Literal?
    ensures AllTold(p, z, s, Path(LiteralTree(p, z), 256 + s.byte))
  {
    hide Path, Shr, Pow2, Slot, ThirdTold;
    var tree, t := LiteralTree(p, z), 256 + s.byte;
    PowersOfTwo();
    CoderTells(p, z.hist);
    DepthRange(t, 8);
    forall i | 0 <= i < |Path(tree, t)| && Path(tree, t)[i].Model?
      ensures Told(p, z, s, Path(tree, t)[i].slot)
    {
      PathBits(tree, 8, t, i);
      Pow2Monotone(i + 1, 8);
      NextPower(i);
      NodeTells(tree, Shr(t, 8 - i), i);
      InCoder(Slot(tree, Shr(t, 8 - i)) - LITERAL, tree.base - LITERAL);
    }
  }

  lemma NextPower(n: nat)
    ensures Pow2(n + 1) == 2 * Pow2(n)
  {
  }

  /** Where in the 768 slots of a coder a node is. */
  lemma NodeTells(tree: Tree, m: nat, k: nat)
    requires k < 8 && Pow2(k) <= m < 2 * Pow2(k) && m < 256
    ensures var x := Slot(tree, m) - tree.base;
            && 0 <= x < 768 && x % 256 == m && (tree.Plain? ==> x / 256 == 0)
            && (tree.Matched? ==> ThirdTold(tree.byte, m, x / 256))
  {
    hide Shr, Pow2;
    DepthRange(m, k);
    if tree.Matched? {
      forall k': nat | k' < 8 && Pow2(k') <= m < 2 * Pow2(k')
        ensures k' == k
      {
        DepthRange(m, k');
      }
    }
  }

  lemma InCoder(x: nat, base: nat)
    requires base % 768 == 0 && base <= x < base + 768
    ensures x / 768 == base / 768 && x % 768 == x - base && x % 256 == (x - base) % 256
  {
  }

  lemma CoderTells(p: Props, hist: seq<Byte>)
    requires ValidProps(p)
    ensures LiteralBase(p, hist) >= LITERAL && (LiteralBase(p, hist) - LITERAL) % 768 == 0
    ensures var coder := (LiteralBase(p, hist) - LITERAL) / 768;
            && coder / Pow2(p.lc) == |hist| % Pow2(p.lp)
            && coder % Pow2(p.lc) == if hist == [] then 0 else Shr(hist[|hist| - 1], 8 - p.lc)
  {
    hide Shr, Pow2;
    if hist != [] {
      PowersOfTwo();
      var row, column := |hist| % Pow2(p.lp), Shr(hist[|hist| - 1], 8 - p.lc);
      ShrBound(hist[|hist| - 1], 8 - p.lc, p.lc);
      RowAndColumn(row, column, Pow2(p.lc));
      Coder(row * Pow2(p.lc) + column);
    }
  }

  lemma Coder(n: nat)
    ensures 768 * n / 768 == n && 768 * n % 768 == 0
  {
  }

  lemma RowAndColumn(row: nat, column: nat, columns: nat)
    requires column < columns
    ensures (row * columns + column) / columns == row && (row * columns + column) % columns == column
  {
    var n := row * columns + column;
    SameRow(columns, row, column, n / columns, n % columns);
  }

  lemma SameRow(d: nat, q: nat, r: nat, q': nat, r': nat)
    requires r < d && r' < d && q * d + r == q' * d + r'
    ensures q == q' && r == r'
  {
    if q < q' {
      EarlierRow(d, q, r, q', r');
    } else if q' < q {
      EarlierRow(d, q', r', q, r);
    }
  }

  lemma EarlierRow(d: nat, q: nat, r: nat, q': nat, r': nat)
    requires r < d && q < q'
    ensures q * d + r < q' * d + r'
  {
    calc {
      q' * d;
      (q + 1 + (q' - q - 1)) * d;
      q * d + d + (q' - q - 1) * d;
    >= { assert 0 <= (q' - q - 1) * d; }
      q * d + d;
    }
  }

  /** Every slot that a symbol asks for tells the question, and what it depends on. */
  lemma SlotTells(p: Props, z: Lz, s: Symbol)
    requires ValidProps(p) && ValidLz(z) && ValidSymbol(s)
    ensures AllTold(p, z, s, SymbolOps(p, z, s))
  {
    hide Path, LenOps, DistanceOps, RepOps, ShortOps, LiteralTree, Told;
    var posState := PosState(p, z);
    PosStateSmall(p, z);
    HeadTells(p, z, s);
    match s
    case Literal(byte) =>
      LiteralTells(p, z, s);
      ToldConcat(p, z, s, [Model(IS_MATCH + z.state * 16 + posState, 0)], Path(LiteralTree(p, z), 256 + byte));
    case ShortRep =>
      RepTells(p, z, s);
      ToldConcat(p, z, s, SymbolOps(p, z, s)[..2], Body(p, z, s));
    case Rep(i, len) =>
      RepTells(p, z, s);
      LensTell(p, z, s);
      ToldConcat(p, z, s, RepOps(z.state, posState, i), LenOps(REP_LEN_CODER, posState, len - 2));
      ToldConcat(p, z, s, SymbolOps(p, z, s)[..2], Body(p, z, s));
    case Match(d, len) =>
      LensTell(p, z, s);
      DistanceTells(p, z, s);
      ToldConcat(p, z, s, LenOps(LEN_CODER, posState, len - 2), DistanceOps(len - 2, d));
      ToldConcat(p, z, s, SymbolOps(p, z, s)[..2], Body(p, z, s));
  }

  lemma HeadTells(p: Props, z: Lz, s: Symbol)
    requires ValidProps(p) && ValidLz(z) && ValidSymbol(s)
    ensures AllTold(p, z, s, SymbolOps(p, z, s)[..if s.Literal? then 1 else 2])
  {
    hide Pow2, Body, Told;
    PosStateSmall(p, z);
    HeadOnly(p, z, s, IS_MATCH + z.state * 16 + PosState(p, z));
    if !s.Literal? {
      HeadOnly(p, z, s, IS_REP + z.state);
    }
  }

  lemma LensTell(p: Props, z: Lz, s: Symbol)
    requires ValidProps(p) && ValidLz(z) && ValidSymbol(s) && (s.Rep? || s.Match?)
    ensures AllTold(p, z, s, LenOps(if s.Rep? then REP_LEN_CODER else LEN_CODER, PosState(p, z), s.len - 2))
  {
    hide LenOps, Pow2;
    PosStateSmall(p, z);
    LenTells(if s.Rep? then REP_LEN_CODER else LEN_CODER, PosState(p, z), s.len - 2);
  }
}
