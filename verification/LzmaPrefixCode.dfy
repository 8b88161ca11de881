// The symbols form a decision tree: two different symbols always part at a question that
// both ask, so a reader of correct bits can never return the wrong symbol.

module LzmaPrefixCode {
  import opened Bytes
  import opened RangeCoding
  import opened Bits
  import opened BitTrees
  import opened LzmaModel

  /** Walks to different nodes of one depth part, whatever follows them. */
  lemma NodesDiverge(tree: Tree, n: nat, t: nat, u: nat, x: seq<Op>, y: seq<Op>)
    requires Pow2(n) <= t < 2 * Pow2(n) && Pow2(n) <= u < 2 * Pow2(n) && t != u
    ensures Diverge(Path(tree, t) + x, Path(tree, u) + y)
  {
    DepthRange(t, n);
    DepthRange(u, n);
    PathsDiverge(tree, t, u);
    DivergeExtend(Path(tree, t), Path(tree, u), x, y);
  }

  /** Walks that part at their first decision. */
  lemma FirstDiverges(a: Op, b: Op, x: seq<Op>, y: seq<Op>)
    requires SameRequest(a, b) && a.bit != b.bit
    ensures Diverge([a] + x, [b] + y)
  {
    assert DivergeAt([a] + x, [b] + y, 0);
  }

  // ----- lengths

  /** What LenOps does after its first decision. */
  function LenTail(base: nat, posState: nat, l: nat): seq<Op> {
    if l < 8 then Path(Plain(base + LEN_LOW + posState * 8), 8 + l)
    else if l < 16 then
      [Model(base + LEN_CHOICE2, 0)] + Path(Plain(base + LEN_MID + posState * 8), l)
    else
      [Model(base + LEN_CHOICE2, 1)] + Path(Plain(base + LEN_HIGH), 240 + l)
  }

  lemma LenSplit(base: nat, posState: nat, l: nat)
    ensures LenOps(base, posState, l) == [Model(base, if l < 8 then 0 else 1)] + LenTail(base, posState, l)
  {
  }

  lemma LenTailsDiverge(base: nat, posState: nat, k: nat, l: nat)
    requires k < 272 && l < 272 && k != l && (k < 8 <==> l < 8)
    ensures Diverge(LenTail(base, posState, k), LenTail(base, posState, l))
  {
    hide Path, Diverge;
    PowersOfTwo();
    if k < 8 {
      var tree := Plain(base + LEN_LOW + posState * 8);
      NodesDiverge(tree, 3, 8 + k, 8 + l, [], []);
      assert Path(tree, 8 + k) + [] == Path(tree, 8 + k) && Path(tree, 8 + l) + [] == Path(tree, 8 + l);
    } else {
      var a, b := Model(base + LEN_CHOICE2, if k < 16 then 0 else 1), Model(base + LEN_CHOICE2, if l < 16 then 0 else 1);
      var x, y := LenTail(base, posState, k)[1..], LenTail(base, posState, l)[1..];
      assert LenTail(base, posState, k) == [a] + x && LenTail(base, posState, l) == [b] + y;
      if a.bit != b.bit {
        FirstDiverges(a, b, x, y);
      } else {
        var tree := if k < 16 then Plain(base + LEN_MID + posState * 8) else Plain(base + LEN_HIGH);
        var t, u := if k < 16 then k else 240 + k, if k < 16 then l else 240 + l;
        NodesDiverge(tree, if k < 16 then 3 else 8, t, u, [], []);
        assert Path(tree, t) + [] == x && Path(tree, u) + [] == y;
        DivergeAfter([a], x, y);
      }
    }
  }

  lemma LensDiverge(base: nat, posState: nat, k: nat, l: nat)
    requires k < 272 && l < 272 && k != l
    ensures Diverge(LenOps(base, posState, k), LenOps(base, posState, l))
  {
    hide LenOps, LenTail, Diverge;
    LenSplit(base, posState, k);
    LenSplit(base, posState, l);
    var a, b := Model(base, if k < 8 then 0 else 1), Model(base, if l < 8 then 0 else 1);
    if a.bit != b.bit {
      FirstDiverges(a, b, LenTail(base, posState, k), LenTail(base, posState, l));
    } else {
      LenTailsDiverge(base, posState, k, l);
      DivergeAfter([a], LenTail(base, posState, k), LenTail(base, posState, l));
    }
  }

  // ----- distances

  lemma SlotBelow64(d: nat)
    requires d < WORD
    ensures DistSlot(d) < 64
  {
    Pow2High();
    assert Pow2(31) == 2 * Pow2(30);
    SlotBound(d, 31);
  }

  lemma {:induction false} SlotBound(d: nat, n: nat)
    requires d < 2 * Pow2(n) && n >= 1
    ensures DistSlot(d) < 2 * n + 2
  {
    if n == 1 {
      assert Pow2(1) == 2;
    } else if d >= 4 {
      SlotBound(d / 2, n - 1);
    }
  }

  lemma FootersDiverge(slot: nat, v: nat, w: nat)
    requires v < Pow2(FooterBits(slot)) && w < Pow2(FooterBits(slot)) && v != w
    ensures slot >= 4
    ensures Diverge(FooterOps(slot, v), FooterOps(slot, w))
  {
    hide Path, Diverge, ReverseNode;
    var n := FooterBits(slot);
    assert slot >= 4 by { assert Pow2(0) == 1; }
    if slot < 14 {
      var tree := Plain(SPEC_POS + SlotBase(slot) - slot - 1);
      if ReverseNode(n, v) == ReverseNode(n, w) {
        ReverseNodeInjective(n, v, w);
      }
      NodesDiverge(tree, n, ReverseNode(n, v), ReverseNode(n, w), [], []);
      assert Path(tree, ReverseNode(n, v)) + [] == FooterOps(slot, v);
      assert Path(tree, ReverseNode(n, w)) + [] == FooterOps(slot, w);
    } else {
      LongFootersDiverge(slot, v, w);
    }
  }

  lemma LongFootersDiverge(slot: nat, v: nat, w: nat)
    requires slot >= 14 && v < Pow2(FooterBits(slot)) && w < Pow2(FooterBits(slot)) && v != w
    ensures Diverge(FooterOps(slot, v), FooterOps(slot, w))
  {
    hide Path, Diverge, ReverseNode, DirectPath;
    var n := FooterBits(slot);
    PowersOfTwo();
    Pow2Split(n - 4);
    var tree := Plain(ALIGN);
    var x, y := Path(tree, ReverseNode(4, v % 16)), Path(tree, ReverseNode(4, w % 16));
    if v / 16 != w / 16 {
      DirectsDiverge(n - 4, v / 16, w / 16);
      DivergeExtend(DirectPath(n - 4, v / 16), DirectPath(n - 4, w / 16), x, y);
    } else {
      if ReverseNode(4, v % 16) == ReverseNode(4, w % 16) {
        ReverseNodeInjective(4, v % 16, w % 16);
      }
      NodesDiverge(tree, 4, ReverseNode(4, v % 16), ReverseNode(4, w % 16), [], []);
      assert x + [] == x && y + [] == y;
      DivergeAfter(DirectPath(n - 4, v / 16), x, y);
    }
  }

  lemma Pow2Split(n: nat)
    ensures Pow2(n + 4) == 16 * Pow2(n)
  {
    assert Pow2(n + 2) == 4 * Pow2(n);
    assert Pow2(n + 4) == 4 * Pow2(n + 2);
  }

  lemma DistancesDiverge(l: nat, d: nat, e: nat)
    requires d < WORD && e < WORD && d != e
    ensures Diverge(DistanceOps(l, d), DistanceOps(l, e))
  {
    hide Path, Diverge, FooterOps, SlotBase, DistSlot;
    SlotInterval(d);
    SlotInterval(e);
    SlotBelow64(d);
    SlotBelow64(e);
    PowersOfTwo();
    var s, t := DistSlot(d), DistSlot(e);
    var tree := Plain(POS_SLOT + LenState(l) * 64);
    var x, y := FooterOps(s, d - SlotBase(s)), FooterOps(t, e - SlotBase(t));
    if s != t {
      NodesDiverge(tree, 6, 64 + s, 64 + t, x, y);
    } else {
      FootersDiverge(s, d - SlotBase(s), e - SlotBase(s));
      DivergeAfter(Path(tree, 64 + s), x, y);
    }
  }

  // ----- symbols

  lemma RepsDiverge(p: Props, z: Lz, s: Symbol, t: Symbol)
    requires ValidProps(p) && ValidLz(z) && ValidSymbol(s) && ValidSymbol(t) && s != t
    requires (s.Rep? || s.ShortRep?) && (t.Rep? || t.ShortRep?)
    ensures Diverge(SymbolOps(p, z, s), SymbolOps(p, z, t))
  {
    hide LenOps, Diverge;
    var posState := PosState(p, z);
    var head := [Model(IS_MATCH + z.state * 16 + posState, 1), Model(IS_REP + z.state, 1)];
    var a, b := RepHead(p, z, s), RepHead(p, z, t);
    var x, y := RepTail(p, z, s), RepTail(p, z, t);
    if a == b {
      LensDiverge(REP_LEN_CODER, posState, s.len - 2, t.len - 2);
      DivergeAfter(a, x, y);
    } else {
      RepHeadsDiverge(p, z, s, t);
      DivergeExtend(a, b, x, y);
    }
    assert SymbolOps(p, z, s) == head + (a + x) by { assert a + [] == a; }
    assert SymbolOps(p, z, t) == head + (b + y) by { assert b + [] == b; }
    DivergeAfter(head, a + x, b + y);
  }

  function RepHead(p: Props, z: Lz, s: Symbol): seq<Op>
    requires s.Rep? || s.ShortRep?
  {
    if s.Rep? then RepOps(z.state, PosState(p, z), s.index)
    else ShortOps(z.state, PosState(p, z))
  }

  function RepTail(p: Props, z: Lz, s: Symbol): seq<Op>
    requires s.Rep? || s.ShortRep?
    requires ValidSymbol(s)
  {
    if s.Rep? then LenOps(REP_LEN_CODER, PosState(p, z), s.len - 2) else []
  }

  lemma RepHeadsDiverge(p: Props, z: Lz, s: Symbol, t: Symbol)
    requires (s.Rep? || s.ShortRep?) && (t.Rep? || t.ShortRep?)
    requires ValidSymbol(s) && ValidSymbol(t)
    requires RepHead(p, z, s) != RepHead(p, z, t)
    ensures Diverge(RepHead(p, z, s), RepHead(p, z, t))
  {
    var a, b := RepHead(p, z, s), RepHead(p, z, t);
    if a[0] != b[0] {
      assert DivergeAt(a, b, 0);
    } else if a[1] != b[1] {
      assert DivergeAt(a, b, 1);
    } else {
      assert DivergeAt(a, b, 2);
    }
  }

  lemma MatchesDiverge(p: Props, z: Lz, s: Symbol, t: Symbol)
    requires ValidProps(p) && ValidLz(z) && ValidSymbol(s) && ValidSymbol(t) && s != t
    requires s.Match? && t.Match?
    ensures Diverge(SymbolOps(p, z, s), SymbolOps(p, z, t))
  {
    hide LenOps, DistanceOps, Diverge;
    var posState := PosState(p, z);
    var head := [Model(IS_MATCH + z.state * 16 + posState, 1), Model(IS_REP + z.state, 0)];
    var a, b := LenOps(LEN_CODER, posState, s.len - 2), LenOps(LEN_CODER, posState, t.len - 2);
    var x, y := DistanceOps(s.len - 2, s.distance), DistanceOps(t.len - 2, t.distance);
    if s.len != t.len {
      LensDiverge(LEN_CODER, posState, s.len - 2, t.len - 2);
      DivergeExtend(a, b, x, y);
    } else {
      DistancesDiverge(s.len - 2, s.distance, t.distance);
      DivergeAfter(a, x, y);
    }
    DivergeAfter(head, a + x, b + y);
  }

  /** 0 for a literal, 1 for a match, 2 for a repeat: told by the first one or two decisions. */
  function SymbolKind(s: Symbol): nat {
    if s.Literal? then 0 else if s.Match? then 1 else 2
  }

  lemma KindsDiverge(p: Props, z: Lz, s: Symbol, t: Symbol)
    requires ValidProps(p) && ValidLz(z) && ValidSymbol(s) && ValidSymbol(t)
    requires SymbolKind(s) != SymbolKind(t)
    ensures Diverge(SymbolOps(p, z, s), SymbolOps(p, z, t))
  {
    hide LenOps, DistanceOps, RepOps, Path, LiteralTree;
    var a, b := SymbolOps(p, z, s), SymbolOps(p, z, t);
    if s.Literal? || t.Literal? {
      assert DivergeAt(a, b, 0);
    } else {
      assert a[..1] == b[..1];
      assert DivergeAt(a, b, 1);
    }
  }

  lemma LiteralsDiverge(p: Props, z: Lz, s: Byte, t: Byte)
    requires ValidProps(p) && ValidLz(z) && s != t
    ensures Diverge(SymbolOps(p, z, Literal(s)), SymbolOps(p, z, Literal(t)))
  {
    hide Path, Diverge, LiteralTree, Pow2;
    PowersOfTwo();
    var tree := LiteralTree(p, z);
    NodesDiverge(tree, 8, 256 + s, 256 + t, [], []);
    assert Path(tree, 256 + s) + [] == Path(tree, 256 + s) && Path(tree, 256 + t) + [] == Path(tree, 256 + t);
    DivergeAfter([Model(IS_MATCH + z.state * 16 + PosState(p, z), 0)], Path(tree, 256 + s), Path(tree, 256 + t));
  }

  /** The prefix property: different symbols part at a question that both ask. */
  lemma SymbolsDiverge(p: Props, z: Lz, s: Symbol, t: Symbol)
    requires ValidProps(p) && ValidLz(z) && ValidSymbol(s) && ValidSymbol(t) && s != t
    ensures Diverge(SymbolOps(p, z, s), SymbolOps(p, z, t))
  {
    hide SymbolOps, Diverge;
    if SymbolKind(s) != SymbolKind(t) {
      KindsDiverge(p, z, s, t);
    } else if s.Literal? {
      LiteralsDiverge(p, z, s.byte, t.byte);
    } else if s.Match? {
      MatchesDiverge(p, z, s, t);
    } else {
      RepsDiverge(p, z, s, t);
    }
  }

  /** A symbol read from a stream that holds the decisions of s is s. */
  lemma SymbolUnique(p: Props, z: Lz, input: seq<Byte>, d: Reader, s: Symbol, t: Symbol)
    requires ValidProps(p) && ValidLz(z) && ValidSymbol(s) && ValidSymbol(t) && ValidReader(d)
    requires Reads(input, d, SymbolOps(p, z, s)) && Reads(input, d, SymbolOps(p, z, t))
    ensures s == t
  {
    if s != t {
      SymbolsDiverge(p, z, s, t);
      ReadsOne(input, d, SymbolOps(p, z, s), SymbolOps(p, z, t));
    }
  }

  /** Each distance lies in the interval of exactly one slot. */
  lemma {:induction false} SlotUnique(d: nat, slot: nat)
    requires SlotBase(slot) <= d < SlotBase(slot) + Pow2(FooterBits(slot))
    ensures DistSlot(d) == slot
  {
    if slot >= 4 {
      assert slot - 2 >= 4 ==> SlotBase(slot) == 2 * SlotBase(slot - 2) by {
        if slot - 2 >= 4 { SlotBaseDoubles(slot - 2); }
      }
      assert Pow2(FooterBits(slot)) == 2 * Pow2(FooterBits(slot - 2));
      SlotUnique(d / 2, slot - 2);
    }
  }

  /** The reversed trees of slots 4 to 13 lie side by side between SPEC_POS and ALIGN. */
  lemma ShortFooter(slot: nat)
    requires 4 <= slot < 14
    ensures SPEC_POS + SlotBase(slot) - slot - 1 + Pow2(FooterBits(slot)) <= ALIGN
    ensures SlotBase(slot) >= slot
  {
    PowersOfTwo();
    assert Pow2(1) == 2 && Pow2(2) == 4 && Pow2(5) == 32;
  }

  lemma Pow2High()
    ensures Pow2(26) == 0x400_0000 && Pow2(30) == 0x4000_0000
  {
    PowersOfTwo();
    Pow2Split(8);
    Pow2Split(12);
    Pow2Split(16);
    Pow2Split(20);
    assert Pow2(26) == 4 * Pow2(24);
    Pow2Split(26);
  }

  lemma MarkerSlot()
    ensures DistSlot(END_MARKER) == 63 && SlotBase(63) == 0xC000_0000 && FooterBits(63) == 30
  {
    Pow2High();
    SlotUnique(END_MARKER, 63);
  }

  /** Every literal coder fits into the probability table. */
  lemma LiteralFits(p: Props, hist: seq<Byte>)
    requires ValidProps(p)
    ensures LiteralBase(p, hist) + 768 <= NumProbs(p)
  {
    hide Shl, Shr, Pow2;
    ShlTimes(768, p.lc + p.lp);
    if hist != [] {
      PowersOfTwo();
      ShrBound(hist[|hist| - 1], 8 - p.lc, p.lc);
      Pow2Sum(p.lc, p.lp);
      TableIndex(|hist| % Pow2(p.lp), Pow2(p.lp), Shr(hist[|hist| - 1], 8 - p.lc), Pow2(p.lc));
    }
  }

  lemma TableIndex(row: nat, rows: nat, column: nat, columns: nat)
    requires row < rows && column < columns
    ensures row * columns + column + 1 <= rows * columns
  {
    assert row * columns + columns == (row + 1) * columns <= rows * columns;
  }

  lemma {:induction false} Pow2Sum(m: nat, n: nat)
    ensures Pow2(m + n) == Pow2(n) * Pow2(m)
  {
    if n > 0 {
      Pow2Sum(m, n - 1);
    }
  }
}
