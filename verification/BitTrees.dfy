// How numbers become decisions: walks down binary trees of probabilities, walks in
// reversed bit order, and direct bits.  A walk is described by the node it ends in.

module BitTrees {
  import opened Bytes
  import opened RangeCoding
  import opened Bits

  /** bit << n */
  function Weight(bit: Bit, n: nat): nat {
    if bit == 0 then 0 else Pow2(n)
  }

  /** v >> n */
  function Shr(v: nat, n: nat): nat {
    if n == 0 then v else Shr(v, n - 1) / 2
  }

  lemma ShrSmall(v: nat, n: nat)
    requires v < Pow2(n)
    ensures Shr(v, n) == 0
  {
    ShrBound(v, n, 0);
  }

  lemma {:induction false} ShrBound(v: nat, n: nat, k: nat)
    requires v < Pow2(n + k)
    ensures Shr(v, n) < Pow2(k)
  {
    if n > 0 {
      ShrBound(v, n - 1, k + 1);
    }
  }

  // ----- trees

  /**
   * A tree of probability slots.  In a matched tree (a literal after a match) nodes on
   * the path of the match byte use their own slots.
   */
  datatype Tree = Plain(base: nat) | Matched(base: nat, byte: Byte)

  /** Depth of node m: m has depth+1 binary digits. */
  function Depth(m: nat): nat {
    if m <= 1 then 0 else 1 + Depth(m / 2)
  }

  /** The node that the match byte leads to at a depth. */
  function MatchNode(byte: Byte, depth: nat): nat {
    if depth <= 8 then Shr(256 + byte, 8 - depth) else 0
  }

  /** Which third of the literal's slots a node uses: 0 off the match path, else 256 or 512. */
  function MatchOffset(byte: Byte, m: nat): nat {
    if m < 256 && m == MatchNode(byte, Depth(m)) then 256 + MatchNode(byte, Depth(m) + 1) % 2 * 256 else 0
  }

  function Slot(tree: Tree, m: nat): nat {
    match tree
    case Plain(base) => base + m
    case Matched(base, byte) => base + MatchOffset(byte, m) + m
  }

  /** The decisions on the way from the root, node 1, to node t. */
  function Path(tree: Tree, t: nat): (r: seq<Op>)
    ensures |r| == Depth(t)
  {
    if t <= 1 then [] else Path(tree, t / 2) + [Model(Slot(tree, t / 2), t % 2)]
  }

  lemma PathChild(tree: Tree, m: nat, bit: Bit)
    requires m >= 1
    ensures Path(tree, 2 * m + bit) == Path(tree, m) + [Model(Slot(tree, m), bit)]
    ensures Depth(2 * m + bit) == Depth(m) + 1
  {
    assert (2 * m + bit) / 2 == m && (2 * m + bit) % 2 == bit;
  }

  lemma {:induction false} DepthRange(m: nat, n: nat)
    requires Pow2(n) <= m < 2 * Pow2(n)
    ensures Depth(m) == n
  {
    if n > 0 {
      DepthRange(m / 2, n - 1);
    }
  }

  // ----- reversed order

  /** The node reached by feeding the n low bits of v, lowest first. */
  function ReverseNode(n: nat, v: nat): (r: nat)
    ensures Pow2(n) <= r < 2 * Pow2(n)
  {
    if n == 0 then 1 else 2 * ReverseNode(n - 1, v) + Shr(v, n - 1) % 2
  }

  /** Bits from position n up do not matter to the first n steps. */
  lemma {:induction false} ReverseNodeLow(n: nat, v: nat, k: nat, bit: Bit)
    requires n <= k
    ensures ReverseNode(n, v + Weight(bit, k)) == ReverseNode(n, v)
  {
    hide Shr, Weight, Pow2;
    if n > 0 {
      ReverseNodeLow(n - 1, v, k, bit);
      ShrLow(v, n - 1, k, bit);
      WeightEven(bit, k - (n - 1));
    }
  }

  lemma WeightEven(bit: Bit, n: nat)
    requires n >= 1
    ensures Weight(bit, n) % 2 == 0
  {
  }

  lemma {:induction false} ShrLow(v: nat, i: nat, k: nat, bit: Bit)
    requires i <= k
    ensures Shr(v + Weight(bit, k), i) == Shr(v, i) + Weight(bit, k - i)
  {
    if i > 0 {
      ShrLow(v, i - 1, k, bit);
    }
  }

  /** One more reversed step of a decoder that has collected v so far. */
  lemma ReverseStep(n: nat, v: nat, bit: Bit)
    requires v < Pow2(n)
    ensures ReverseNode(n + 1, v + Weight(bit, n)) == 2 * ReverseNode(n, v) + bit
    ensures v + Weight(bit, n) < Pow2(n + 1)
  {
    ReverseNodeLow(n, v, n, bit);
    ShrLow(v, n, n, bit);
    ShrSmall(v, n);
  }

  // ----- direct bits

  /** The n low bits of v, highest first, without a model. */
  function DirectPath(n: nat, v: nat): (r: seq<Op>)
    ensures |r| == n
  {
    if n == 0 then [] else DirectPath(n - 1, v / 2) + [Direct(v % 2)]
  }

  // ----- distinct values part at a question both walks ask

  /** The two walks agree up to a question that both ask and answer differently. */
  ghost predicate Diverge(a: seq<Op>, b: seq<Op>) {
    exists i :: 0 <= i < |a| && i < |b| && DivergeAt(a, b, i)
  }

  ghost predicate DivergeAt(a: seq<Op>, b: seq<Op>, i: nat)
    requires i < |a| && i < |b|
  {
    a[..i] == b[..i] && SameRequest(a[i], b[i]) && a[i].bit != b[i].bit
  }

  lemma DivergeExtend(a: seq<Op>, b: seq<Op>, x: seq<Op>, y: seq<Op>)
    requires Diverge(a, b)
    ensures Diverge(a + x, b + y)
  {
    var i :| 0 <= i < |a| && i < |b| && DivergeAt(a, b, i);
    assert (a + x)[..i] == a[..i] && (b + y)[..i] == b[..i];
    assert DivergeAt(a + x, b + y, i);
  }

  lemma DivergeAfter(p: seq<Op>, a: seq<Op>, b: seq<Op>)
    requires Diverge(a, b)
    ensures Diverge(p + a, p + b)
  {
    var i :| 0 <= i < |a| && i < |b| && DivergeAt(a, b, i);
    var k := |p| + i;
    assert (p + a)[..k] == p + a[..i] && (p + b)[..k] == p + b[..i];
    assert DivergeAt(p + a, p + b, k);
  }

  lemma DivergeLast(p: seq<Op>, a: Op, b: Op)
    requires SameRequest(a, b) && a.bit != b.bit
    ensures Diverge(p + [a], p + [b])
  {
    assert DivergeAt(p + [a], p + [b], |p|);
  }

  lemma {:induction false} PathsDiverge(tree: Tree, t: nat, u: nat)
    requires t >= 1 && u >= 1 && Depth(t) == Depth(u) && t != u
    ensures Diverge(Path(tree, t), Path(tree, u))
  {
    if t / 2 == u / 2 {
      DivergeLast(Path(tree, t / 2), Model(Slot(tree, t / 2), t % 2), Model(Slot(tree, u / 2), u % 2));
    } else {
      PathsDiverge(tree, t / 2, u / 2);
      DivergeExtend(Path(tree, t / 2), Path(tree, u / 2),
                    [Model(Slot(tree, t / 2), t % 2)], [Model(Slot(tree, u / 2), u % 2)]);
    }
  }

  lemma {:induction false} DirectsDiverge(n: nat, v: nat, w: nat)
    requires v < Pow2(n) && w < Pow2(n) && v != w
    ensures Diverge(DirectPath(n, v), DirectPath(n, w))
  {
    if v / 2 == w / 2 {
      DivergeLast(DirectPath(n - 1, v / 2), Direct(v % 2), Direct(w % 2));
    } else {
      DirectsDiverge(n - 1, v / 2, w / 2);
      DivergeExtend(DirectPath(n - 1, v / 2), DirectPath(n - 1, w / 2), [Direct(v % 2)], [Direct(w % 2)]);
    }
  }

  lemma {:induction false} ReverseNodeInjective(n: nat, v: nat, w: nat)
    requires v < Pow2(n) && w < Pow2(n) && ReverseNode(n, v) == ReverseNode(n, w)
    ensures v == w
  {
    hide ReverseNode;
    if n > 0 {
      var v0, vb := SplitTop(n - 1, v);
      var w0, wb := SplitTop(n - 1, w);
      ReverseNodeInjective(n - 1, v0, w0);
    }
  }

  lemma SplitTop(n: nat, v: nat) returns (low: nat, bit: Bit)
    requires v < Pow2(n + 1)
    ensures low < Pow2(n) && v == low + Weight(bit, n)
    ensures ReverseNode(n + 1, v) == 2 * ReverseNode(n, low) + bit
  {
    low, bit := if v < Pow2(n) then v else v - Pow2(n), if v < Pow2(n) then 0 else 1;
    ReverseStep(n, low, bit);
  }

  /** A reader cannot be on two diverging walks. */
  lemma ReadsOne(s: seq<Byte>, d: Reader, a: seq<Op>, b: seq<Op>)
    requires ValidReader(d) && Reads(s, d, a) && Reads(s, d, b)
    ensures !Diverge(a, b)
  {
    hide Take, Split, ValidProbs, TakeAll, Reads;
    if Diverge(a, b) {
      var i :| 0 <= i < |a| && i < |b| && DivergeAt(a, b, i);
      ReadsAt(s, d, a, i);
      ReadsAt(s, d, b, i);
      assert false;
    }
  }

  lemma {:induction false} ReadsAt(s: seq<Byte>, d: Reader, a: seq<Op>, i: nat)
    requires ValidReader(d) && Reads(s, d, a) && i < |a|
    ensures Reads(s, d, a[..i])
    ensures Peek(TakeAll(s, d, a[..i]), a[i]) == a[i].bit
    decreases |a|
  {
    hide Take, Split;
    var n := |a| - 1;
    if i < n {
      ReadsAt(s, d, a[..n], i);
      assert a[..n][..i] == a[..i];
    }
  }

  // ----- shifting a symbol through a nine-bit window

  /** v << n */
  function Shl(v: nat, n: nat): nat {
    if n == 0 then v else 2 * Shl(v, n - 1)
  }

  lemma {:induction false} ShlTimes(v: nat, n: nat)
    ensures Shl(v, n) == v * Pow2(n) >= v
  {
    if n > 0 {
      ShlTimes(v, n - 1);
    }
  }

  lemma {:induction false} ShlShr(v: nat, i: nat, k: nat)
    ensures Shr(Shl(v, i), i + k) == Shr(v, k)
  {
    if i > 0 {
      ShlShr(v, i - 1, k);
      ShrDouble(Shl(v, i - 1), i - 1 + k);
    }
  }

  lemma {:induction false} ShrDouble(v: nat, n: nat)
    ensures Shr(2 * v, n + 1) == Shr(v, n)
  {
    if n > 0 {
      ShrDouble(v, n - 1);
    }
  }

  lemma ShrBytes(v: nat)
    ensures Shr(v, 6) == v / 64 && Shr(v, 7) == v / 128 && Shr(v, 8) == v / 256
  {
    assert Shr(v, 1) == v / 2;
    assert Shr(v, 3) == Shr(v, 1) / 2 / 2;
    assert Shr(v, 5) == Shr(v, 3) / 2 / 2;
    assert Shr(v, 7) == Shr(v, 5) / 2 / 2;
  }

  lemma {:induction false} ShrHalf(v: nat, n: nat)
    requires n >= 1
    ensures Shr(v, n) <= v / 2
  {
    if n > 1 {
      ShrHalf(v, n - 1);
    }
  }

  /** After i shifts the window holds node Shr(s, 8 - i), and below it the next decision. */
  lemma Window(s: nat, i: nat)
    requires 256 <= s < 512 && i <= 8
    ensures Shl(s, i) / 256 == Shr(s, 8 - i) >= 1
    ensures Shl(s, i) < 0x1_0000 <==> i < 8
    ensures i < 8 ==> Shl(s, i) / 128 % 2 == Shr(s, 7 - i) % 2
    ensures i < 8 ==> Shr(s, 8 - i) < 256 && Shr(s, 7 - i) == 2 * Shr(s, 8 - i) + Shr(s, 7 - i) % 2
  {
    hide Shl;
    ShrBytes(Shl(s, i));
    ShlShr(s, i, 8 - i);
    if i < 8 {
      ShlShr(s, i, 7 - i);
      ShrHalf(s, 8 - i);
    }
    ShrAtLeastOne(s, 8 - i);
  }

  lemma ShrAtLeastOne(s: nat, k: nat)
    requires 256 <= s < 512 && k <= 8
    ensures Shr(s, k) >= 1
  {
    ShrBytes(s);
    ShrMonotone(s, k, 8);
  }

  lemma {:induction false} ShrMonotone(s: nat, j: nat, k: nat)
    requires j <= k
    ensures Shr(s, k) <= Shr(s, j)
  {
    if j < k {
      ShrMonotone(s, j, k - 1);
    }
  }

  /** After i+1 shifts the match byte shows the bit that leads to its node at depth i+1. */
  lemma MatchWindow(mb: Byte, i: nat)
    requires i < 8
    ensures (Shl(256 + mb, i) - Shl(256, i)) * 2 + Shl(256, i + 1) == Shl(256 + mb, i + 1)
    ensures (Shl(256 + mb, i) - Shl(256, i)) * 2 / 256 % 2 == Shr(256 + mb, 7 - i) % 2
    ensures 1 <= Shr(256 + mb, 8 - i) && Shr(256 + mb, 7 - i) / 2 == Shr(256 + mb, 8 - i)
  {
    Window(256 + mb, i);
    ShlEven(i);
    var e := Shl(256, i) / 256;
    assert Shl(256, i) == 256 * e;
    assert (Shl(256 + mb, i) - 256 * e) * 2 / 256 == Shl(256 + mb, i) / 128 - 2 * e;
  }

  lemma ShlEven(i: nat)
    requires i < 8
    ensures Shl(256, i) % 256 == 0
  {
    hide Shl;
    ShlTimes(256, i);
  }

  lemma PathRoot(tree: Tree)
    ensures Path(tree, 1) == []
  {
  }

  // ----- the order of the bits

  lemma {:induction false} ShrOfHalf(v: nat, n: nat)
    ensures Shr(v / 2, n) == Shr(v, n + 1)
  {
    if n > 0 {
      ShrOfHalf(v, n - 1);
    }
  }

  /** A walk of n levels gives the digits of its leaf, highest first, each asked at the node that those before it lead to. */
  lemma {:induction false} PathBits(tree: Tree, n: nat, t: nat, j: nat)
    requires Pow2(n) <= t < 2 * Pow2(n) && j < n
    ensures |Path(tree, t)| == n && Path(tree, t)[j] == Model(Slot(tree, Shr(t, n - j)), Shr(t, n - 1 - j) % 2)
    ensures Pow2(j) <= Shr(t, n - j) < 2 * Pow2(j)
    decreases n
  {
    hide Slot;
    DepthRange(t, n);
    assert Shr(t, 1) == Shr(t, 0) / 2 == t / 2;
    if j < n - 1 {
      PathBits(tree, n - 1, t / 2, j);
      ShrOfHalf(t, n - 1 - j);
      ShrOfHalf(t, n - 2 - j);
    }
  }

  /** A value fed in reversed order goes out lowest bit first. */
  lemma {:induction false} ReverseBits(tree: Tree, n: nat, v: nat, j: nat)
    requires j < n
    ensures |Path(tree, ReverseNode(n, v))| == n && Path(tree, ReverseNode(n, v))[j].bit == Shr(v, j) % 2
    decreases n
  {
    hide Slot, Shr;
    DepthRange(ReverseNode(n, v), n);
    PathChild(tree, ReverseNode(n - 1, v), Shr(v, n - 1) % 2);
    if j < n - 1 {
      ReverseBits(tree, n - 1, v, j);
    } else {
      DepthRange(ReverseNode(n - 1, v), n - 1);
    }
  }

  /** Direct bits go out highest first. */
  lemma {:induction false} DirectBits(n: nat, v: nat, j: nat)
    requires j < n
    ensures DirectPath(n, v)[j] == Direct(Shr(v, n - 1 - j) % 2)
    decreases n
  {
    hide Shr;
    if j < n - 1 {
      DirectBits(n - 1, v / 2, j);
      ShrOfHalf(v, n - 2 - j);
    } else {
      ShrNone(v);
    }
  }

  lemma ShrNone(v: nat)
    ensures Shr(v, 0) == v
  {
  }
}
