// The search tree in the cyclic array of LzFind.c: which cells stand for it, and why the
// writes of an insertion turn it into the tree with the new position at its root.

module CyclicTrees {
  import opened MatchTrees

  /** x modulo n. */
  function Turn(x: nat, n: nat): (r: nat)
    requires n > 0
    ensures r < n
    decreases x
  {
    if x < n then x else Turn(x - n, n)
  }

  lemma {:induction false} TurnNext(x: nat, n: nat)
    requires n > 0
    ensures Turn(x + 1, n) == if Turn(x, n) + 1 == n then 0 else Turn(x, n) + 1
    decreases x
  {
    if x >= n {
      TurnNext(x - n, n);
    }
  }

  /** The cell index that the code computes for a position `delta` back. */
  lemma {:induction false} TurnBack(x: nat, delta: nat, n: nat)
    requires n > 0 && delta < n && delta <= x
    ensures Turn(x - delta, n) == Turn(x, n) - delta + if delta > Turn(x, n) then n else 0
    decreases x
  {
    if x - delta >= n {
      TurnBack(x - n, delta, n);
    }
  }

  lemma {:induction false} SameTurn(x: nat, y: nat, n: nat)
    requires n > 0 && x <= y < x + n && Turn(x, n) == Turn(y, n)
    ensures x == y
    decreases x
  {
    if x >= n {
      SameTurn(x - n, y - n, n);
    }
  }

  /** Each position has a pair of cells, shared with the positions a whole turn away. */
  function Cell(cyc: nat, x: nat, side: bool): (r: nat)
    requires cyc > 0
    ensures r < 2 * cyc
  {
    2 * Turn(x, cyc) + if side then 1 else 0
  }

  lemma CellsApart(w: Window, x: nat, y: nat)
    requires ValidWindow(w) && Live(w, x) && Live(w, y) && Turn(x, w.cyc) == Turn(y, w.cyc)
    ensures x == y
  {
    if x <= y {
      SameTurn(x, y, w.cyc);
    } else {
      SameTurn(y, x, w.cyc);
    }
  }

  /** The value v in the array `son` stands for the tree; a value too old stands for the empty tree. */
  predicate Rep(w: Window, son: seq<int>, v: int, t: Tree)
    requires w.cyc > 0 && |son| == 2 * w.cyc
    decreases t
  {
    if t.Empty? then w.cur + w.base - v >= w.cyc
    else
      && Live(w, t.at) && v == t.at + w.base
      && Rep(w, son, son[Cell(w.cyc, t.at, false)], t.small)
      && Rep(w, son, son[Cell(w.cyc, t.at, true)], t.big)
  }

  /** The tree uses the pair of cells number c. */
  predicate Uses(cyc: nat, t: Tree, c: nat)
    requires cyc > 0
  {
    t.Node? && (Turn(t.at, cyc) == c || Uses(cyc, t.small, c) || Uses(cyc, t.big, c))
  }

  lemma {:induction false} RepLive(w: Window, son: seq<int>, v: int, t: Tree)
    requires w.cyc > 0 && |son| == 2 * w.cyc && Rep(w, son, v, t)
    ensures AllLive(w, t)
    decreases t
  {
    if t.Node? {
      RepLive(w, son, son[Cell(w.cyc, t.at, false)], t.small);
      RepLive(w, son, son[Cell(w.cyc, t.at, true)], t.big);
    }
  }

  lemma {:induction false} NotUsed(w: Window, t: Tree, o: nat)
    requires ValidWindow(w) && AllLive(w, t) && Live(w, o) && o !in Nodes(t)
    ensures !Uses(w.cyc, t, Turn(o, w.cyc))
  {
    if t.Node? {
      NotUsed(w, t.small, o);
      NotUsed(w, t.big, o);
      if Turn(t.at, w.cyc) == Turn(o, w.cyc) {
        CellsApart(w, t.at, o);
      }
    }
  }

  lemma {:induction false} UsedOnce(w: Window, t: Tree, u: Tree, c: nat)
    requires ValidWindow(w) && AllLive(w, t) && AllLive(w, u) && Nodes(t) !! Nodes(u) && Uses(w.cyc, t, c)
    ensures !Uses(w.cyc, u, c)
  {
    if Turn(t.at, w.cyc) == c {
      NotUsed(w, u, t.at);
    } else if Uses(w.cyc, t.small, c) {
      UsedOnce(w, t.small, u, c);
    } else {
      UsedOnce(w, t.big, u, c);
    }
  }

  /** The two arrays differ at most in two cells and in cells of one tree. */
  ghost predicate ChangedOnly(cyc: nat, son: seq<int>, after: seq<int>, one: nat, zero: nat, t: Tree)
    requires cyc > 0
  {
    && |after| == |son|
    && forall q :: 0 <= q < |son| && q != one && q != zero && !Uses(cyc, t, q / 2) ==> after[q] == son[q]
  }

  lemma {:induction false} RepFrame(w: Window, son: seq<int>, after: seq<int>, v: int, t: Tree)
    requires w.cyc > 0 && |son| == |after| == 2 * w.cyc && Rep(w, son, v, t)
    requires forall q :: 0 <= q < |son| && Uses(w.cyc, t, q / 2) ==> after[q] == son[q]
    ensures Rep(w, after, v, t)
    decreases t
  {
    if t.Node? {
      var l, r := Cell(w.cyc, t.at, false), Cell(w.cyc, t.at, true);
      assert l / 2 == Turn(t.at, w.cyc) && r / 2 == Turn(t.at, w.cyc);
      RepFrame(w, son, after, son[l], t.small);
      RepFrame(w, son, after, son[r], t.big);
    }
  }

  /** A tree that shares no cell with what was changed is represented as before. */
  lemma RepApart(w: Window, son: seq<int>, after: seq<int>, o1: nat, d1: bool, o0: nat, d0: bool, t: Tree, v: int, u: Tree)
    requires ValidWindow(w) && |son| == 2 * w.cyc && AllLive(w, t) && Rep(w, son, v, u) && Live(w, o1) && Live(w, o0)
    requires ChangedOnly(w.cyc, son, after, Cell(w.cyc, o1, d1), Cell(w.cyc, o0, d0), t)
    requires o1 !in Nodes(u) && o0 !in Nodes(u) && Nodes(t) !! Nodes(u)
    ensures Rep(w, after, v, u)
  {
    hide Rep, Live, Nodes;
    RepLive(w, son, v, u);
    NotUsed(w, u, o1);
    NotUsed(w, u, o0);
    forall q | 0 <= q < |son| && Uses(w.cyc, u, q / 2)
      ensures after[q] == son[q]
    {
      if Uses(w.cyc, t, q / 2) {
        UsedOnce(w, t, u, q / 2);
      }
    }
    RepFrame(w, son, after, v, u);
  }

  /**
   * What an insertion writes: `one` is the cell waiting for the next smaller text, `zero`
   * the one waiting for the next bigger text.
   */
  function Rewire(w: Window, son: seq<int>, one: nat, zero: nat, t: Tree, cut: nat): (r: seq<int>)
    requires w.cyc > 0 && |son| == 2 * w.cyc && one < |son| && zero < |son|
    ensures |r| == |son|
    decreases t
  {
    if t.Empty? || cut == 0 then son[one := 0][zero := 0]
    else
      var l, r := Cell(w.cyc, t.at, false), Cell(w.cyc, t.at, true);
      if Match(w, t.at) == w.limit then
        var first := son[one := son[l]];
        first[zero := first[r]]
      else if Smaller(w, t.at) then Rewire(w, son[one := t.at + w.base], r, zero, t.big, cut - 1)
      else Rewire(w, son[zero := t.at + w.base], one, l, t.small, cut - 1)
  }

  /** Where the two waiting cells are: in pairs outside the tree, and not the same. */
  ghost predicate Waiting(w: Window, o1: nat, d1: bool, o0: nat, d0: bool, t: Tree) {
    && Live(w, o1) && Live(w, o0) && o1 !in Nodes(t) && o0 !in Nodes(t) && (o1 != o0 || d1 != d0)
  }

  /** Writing to a waiting cell leaves the tree that is still to be searched alone. */
  lemma WaitingStep(w: Window, son: seq<int>, o: nat, d: bool, value: int, v: int, t: Tree)
    requires ValidWindow(w) && |son| == 2 * w.cyc && Rep(w, son, v, t) && Live(w, o) && o !in Nodes(t)
    ensures Rep(w, son[Cell(w.cyc, o, d) := value], v, t)
  {
    RepLive(w, son, v, t);
    NotUsed(w, t, o);
    RepFrame(w, son, son[Cell(w.cyc, o, d) := value], v, t);
  }

  lemma {:induction false} RewireFrame(w: Window, son: seq<int>, one: nat, zero: nat, t: Tree, cut: nat)
    requires w.cyc > 0 && |son| == 2 * w.cyc && one < |son| && zero < |son|
    ensures ChangedOnly(w.cyc, son, Rewire(w, son, one, zero, t, cut), one, zero, t)
    decreases t
  {
    hide Match, Smaller, Turn;
    if t.Node? && cut > 0 {
      var l, r := Cell(w.cyc, t.at, false), Cell(w.cyc, t.at, true);
      assert l / 2 == Turn(t.at, w.cyc) == r / 2;
      RewireFrame(w, son[one := t.at + w.base], r, zero, t.big, cut - 1);
      RewireFrame(w, son[zero := t.at + w.base], one, l, t.small, cut - 1);
    }
  }

  lemma CellsDiffer(w: Window, x: nat, d: bool, y: nat, e: bool)
    requires ValidWindow(w) && Live(w, x) && Live(w, y) && (x != y || d != e)
    ensures Cell(w.cyc, x, d) != Cell(w.cyc, y, e) && Cell(w.cyc, x, d) / 2 == Turn(x, w.cyc)
  {
    hide Turn;
    if Turn(x, w.cyc) == Turn(y, w.cyc) {
      CellsApart(w, x, y);
    }
  }

  /**
   * A node x hung into the cell of o keeps its subtree on one side while the subtree on the
   * other side is taken apart.
   */
  lemma Hung(w: Window, son: seq<int>, after: seq<int>, o: nat, d: bool, p: nat, e: bool, x: nat, side: bool,
             kept: Tree, searched: Tree)
    requires ValidWindow(w) && |son| == |after| == 2 * w.cyc && Live(w, x) && Waiting(w, o, d, p, e, kept)
    requires o !in Nodes(searched) && x !in Nodes(searched) && x !in Nodes(kept) && x != o && x != p
    requires Nodes(kept) !! Nodes(searched) && AllLive(w, searched)
    requires Rep(w, son, son[Cell(w.cyc, x, !side)], kept)
    requires ChangedOnly(w.cyc, son[Cell(w.cyc, o, d) := x + w.base], after, Cell(w.cyc, x, side), Cell(w.cyc, p, e), searched)
    ensures after[Cell(w.cyc, o, d)] == x + w.base
    ensures Rep(w, after, after[Cell(w.cyc, x, !side)], kept)
  {
    hide Turn, Nodes, Live, Rep, Cell, Uses;
    var mid := son[Cell(w.cyc, o, d) := x + w.base];
    NotUsed(w, searched, o);
    NotUsed(w, searched, x);
    CellsDiffer(w, o, d, x, side);
    CellsDiffer(w, o, d, p, e);
    CellsDiffer(w, x, !side, x, side);
    CellsDiffer(w, x, !side, p, e);
    CellsDiffer(w, x, !side, o, d);
    WaitingStep(w, son, o, d, x + w.base, son[Cell(w.cyc, x, !side)], kept);
    RepApart(w, mid, after, x, side, p, e, searched, son[Cell(w.cyc, x, !side)], kept);
  }

  /** A node that agrees to the limit hands its two subtrees over. */
  lemma Replaced(w: Window, son: seq<int>, o1: nat, d1: bool, o0: nat, d0: bool, t: Tree)
    requires ValidWindow(w) && |son| == 2 * w.cyc && Waiting(w, o1, d1, o0, d0, t) && t.Node? && Live(w, t.at)
    requires Rep(w, son, son[Cell(w.cyc, t.at, false)], t.small) && Rep(w, son, son[Cell(w.cyc, t.at, true)], t.big)
    ensures var one, zero, l, r := Cell(w.cyc, o1, d1), Cell(w.cyc, o0, d0), Cell(w.cyc, t.at, false), Cell(w.cyc, t.at, true);
            var first := son[one := son[l]];
            var after := first[zero := first[r]];
            Rep(w, after, after[one], t.small) && Rep(w, after, after[zero], t.big)
  {
    hide Turn, Live, Rep, Cell;
    var one, l, r := Cell(w.cyc, o1, d1), Cell(w.cyc, t.at, false), Cell(w.cyc, t.at, true);
    var first := son[one := son[l]];
    CellsDiffer(w, o1, d1, o0, d0);
    CellsDiffer(w, t.at, true, o1, d1);
    WaitingStep(w, son, o1, d1, son[l], son[l], t.small);
    WaitingStep(w, son, o1, d1, son[l], son[r], t.big);
    WaitingStep(w, first, o0, d0, first[r], son[l], t.small);
    WaitingStep(w, first, o0, d0, first[r], son[r], t.big);
  }

  /** The rewired array represents the two parts of the split at the two waiting cells. */
  ghost predicate Parted(w: Window, after: seq<int>, one: nat, zero: nat, parts: (Tree, Tree))
    requires w.cyc > 0 && |after| == 2 * w.cyc && one < 2 * w.cyc && zero < 2 * w.cyc
  {
    Rep(w, after, after[one], parts.0) && Rep(w, after, after[zero], parts.1)
  }

  lemma {:induction false} RewireSplits(w: Window, son: seq<int>, v: int, o1: nat, d1: bool, o0: nat, d0: bool, t: Tree, cut: nat)
    requires ValidWindow(w) && |son| == 2 * w.cyc && Rep(w, son, v, t) && NoDup(t) && Waiting(w, o1, d1, o0, d0, t)
    ensures var one, zero := Cell(w.cyc, o1, d1), Cell(w.cyc, o0, d0);
            Parted(w, Rewire(w, son, one, zero, t, cut), one, zero, Split(w, t, cut))
    decreases t, 1
  {
    hide Match, Smaller, Turn, Live;
    if t.Node? && cut > 0 {
      if Match(w, t.at) == w.limit {
        Replaced(w, son, o1, d1, o0, d0, t);
      } else if Smaller(w, t.at) {
        RewireUp(w, son, o1, d1, o0, d0, t, cut);
      } else {
        RewireDown(w, son, o1, d1, o0, d0, t, cut);
      }
    } else {
      CellsDiffer(w, o1, d1, o0, d0);
    }
  }

  lemma {:induction false} RewireUp(w: Window, son: seq<int>, o1: nat, d1: bool, o0: nat, d0: bool, t: Tree, cut: nat)
    requires ValidWindow(w) && |son| == 2 * w.cyc && t.Node? && Live(w, t.at) && NoDup(t) && Waiting(w, o1, d1, o0, d0, t)
    requires Rep(w, son, son[Cell(w.cyc, t.at, false)], t.small) && Rep(w, son, son[Cell(w.cyc, t.at, true)], t.big)
    requires cut > 0 && Match(w, t.at) != w.limit && Smaller(w, t.at)
    ensures var one, zero := Cell(w.cyc, o1, d1), Cell(w.cyc, o0, d0);
            Parted(w, Rewire(w, son, one, zero, t, cut), one, zero, Split(w, t, cut))
    decreases t, 0
  {
    hide Match, Smaller, Turn, Live, Cell;
    var one, zero, r := Cell(w.cyc, o1, d1), Cell(w.cyc, o0, d0), Cell(w.cyc, t.at, true);
    var mid := son[one := t.at + w.base];
    WaitingStep(w, son, o1, d1, t.at + w.base, son[r], t.big);
    RewireSplits(w, mid, son[r], t.at, true, o0, d0, t.big, cut - 1);
    RewireFrame(w, mid, r, zero, t.big, cut - 1);
    RepLive(w, son, son[r], t.big);
    Hung(w, son, Rewire(w, mid, r, zero, t.big, cut - 1), o1, d1, o0, d0, t.at, true, t.small, t.big);
  }

  lemma {:induction false} RewireDown(w: Window, son: seq<int>, o1: nat, d1: bool, o0: nat, d0: bool, t: Tree, cut: nat)
    requires ValidWindow(w) && |son| == 2 * w.cyc && t.Node? && Live(w, t.at) && NoDup(t) && Waiting(w, o1, d1, o0, d0, t)
    requires Rep(w, son, son[Cell(w.cyc, t.at, false)], t.small) && Rep(w, son, son[Cell(w.cyc, t.at, true)], t.big)
    requires cut > 0 && Match(w, t.at) != w.limit && !Smaller(w, t.at)
    ensures var one, zero := Cell(w.cyc, o1, d1), Cell(w.cyc, o0, d0);
            Parted(w, Rewire(w, son, one, zero, t, cut), one, zero, Split(w, t, cut))
    decreases t, 0
  {
    hide Match, Smaller, Turn, Live, Cell;
    var one, zero, l := Cell(w.cyc, o1, d1), Cell(w.cyc, o0, d0), Cell(w.cyc, t.at, false);
    var mid := son[zero := t.at + w.base];
    WaitingStep(w, son, o0, d0, t.at + w.base, son[l], t.small);
    RewireSplits(w, mid, son[l], o1, d1, t.at, false, t.small, cut - 1);
    RewireFrame(w, mid, one, l, t.small, cut - 1);
    RepLive(w, son, son[l], t.small);
    Hung(w, son, Rewire(w, mid, one, l, t.small, cut - 1), o0, d0, o1, d1, t.at, false, t.big, t.small);
  }
}
