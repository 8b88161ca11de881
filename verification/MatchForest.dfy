// All the hash buckets of LzFind.c together: one search tree for each, in one cyclic array.

module MatchForests {
  import opened MatchTrees
  import opened CyclicTrees

  /** A bucket's tree: represented, a search tree by text and a heap by age, before `bound`. */
  ghost predicate Planted(w: Window, son: seq<int>, v: int, t: Tree, bound: nat) {
    && w.cyc > 0 && |son| == 2 * w.cyc && Rep(w, son, v, t)
    && NoDup(t) && Heap(t) && Below(t, bound) && Ordered(w.text, w.limit, t)
  }

  ghost predicate Forest(w: Window, son: seq<int>, heads: seq<int>, forest: seq<Tree>, bound: nat) {
    && |heads| == |forest|
    && (forall h :: 0 <= h < |forest| ==> Planted(w, son, heads[h], forest[h], bound))
    && forall g, h :: 0 <= g < h < |forest| ==> Nodes(forest[g]) !! Nodes(forest[h])
  }

  lemma {:induction false} BelowExcludes(t: Tree, n: nat)
    requires Below(t, n)
    ensures n !in Nodes(t)
  {
    if t.Node? {
      BelowExcludes(t.small, n);
      BelowExcludes(t.big, n);
    }
  }

  // ----- insertion into one bucket

  lemma WaitingStart(w: Window, t: Tree)
    requires ValidWindow(w) && Below(t, w.cur)
    ensures Waiting(w, w.cur, false, w.cur, true, t)
  {
    BelowExcludes(t, w.cur);
  }

  /** The bucket that is searched gets the tree with the new position at its root. */
  lemma InsertPlanted(w: Window, son: seq<int>, v: int, t: Tree, cut: nat)
    requires ValidWindow(w) && Planted(w, son, v, t, w.cur)
    ensures Planted(w, Rewire(w, son, Cell(w.cyc, w.cur, false), Cell(w.cyc, w.cur, true), t, cut),
                    w.cur + w.base, Inserted(w, t, cut), w.cur + 1)
    ensures Nodes(Inserted(w, t, cut)) <= {w.cur} + Nodes(t)
  {
    hide Ordered, Heap, NoDup, Turn;
    WaitingStart(w, t);
    BelowExcludes(t, w.cur);
    RewireSplits(w, son, v, w.cur, false, w.cur, true, t, cut);
    InsertedKeeps(w, t, cut);
  }

  /** The other buckets keep their trees. */
  lemma InsertApart(w: Window, son: seq<int>, v: int, t: Tree, cut: nat, v': int, u: Tree)
    requires ValidWindow(w) && Planted(w, son, v, t, w.cur) && Planted(w, son, v', u, w.cur) && Nodes(t) !! Nodes(u)
    ensures Planted(w, Rewire(w, son, Cell(w.cyc, w.cur, false), Cell(w.cyc, w.cur, true), t, cut), v', u, w.cur + 1)
  {
    hide Ordered, Heap, NoDup, Turn, Rewire;
    var one, zero := Cell(w.cyc, w.cur, false), Cell(w.cyc, w.cur, true);
    RewireFrame(w, son, one, zero, t, cut);
    RepLive(w, son, v, t);
    BelowExcludes(u, w.cur);
    RepApart(w, son, Rewire(w, son, one, zero, t, cut), w.cur, false, w.cur, true, t, v', u);
    BelowMore(u, w.cur, w.cur + 1);
  }

  /** Inserting a position into its bucket keeps the whole forest in order. */
  lemma ForestInsert(w: Window, son: seq<int>, heads: seq<int>, forest: seq<Tree>, h: nat, cut: nat)
    requires ValidWindow(w) && Forest(w, son, heads, forest, w.cur) && h < |forest|
    ensures |son| == 2 * w.cyc
    ensures Forest(w, Rewire(w, son, Cell(w.cyc, w.cur, false), Cell(w.cyc, w.cur, true), forest[h], cut),
                   heads[h := w.cur + w.base], forest[h := Inserted(w, forest[h], cut)], w.cur + 1)
  {
    hide Planted, Rewire, Inserted, Nodes, Cell;
    assert Planted(w, son, heads[h], forest[h], w.cur);
    assert |son| == 2 * w.cyc by {
      PlantedSize(w, son, heads[h], forest[h], w.cur);
    }
    var after := Rewire(w, son, Cell(w.cyc, w.cur, false), Cell(w.cyc, w.cur, true), forest[h], cut);
    var grown := forest[h := Inserted(w, forest[h], cut)];
    InsertPlanted(w, son, heads[h], forest[h], cut);
    forall g | 0 <= g < |forest| && g != h
      ensures Planted(w, after, heads[g], forest[g], w.cur + 1) && Nodes(grown[h]) !! Nodes(forest[g])
    {
      assert Planted(w, son, heads[g], forest[g], w.cur);
      assert Nodes(forest[h]) !! Nodes(forest[g]);
      InsertApart(w, son, heads[h], forest[h], cut, heads[g], forest[g]);
      PlantedSize(w, son, heads[g], forest[g], w.cur);
    }
  }

  lemma PlantedSize(w: Window, son: seq<int>, v: int, t: Tree, bound: nat)
    requires Planted(w, son, v, t, bound)
    ensures w.cyc > 0 && |son| == 2 * w.cyc && bound !in Nodes(t)
  {
    BelowExcludes(t, bound);
  }

  // ----- ageing

  /** What is left of a tree once the oldest positions are overwritten. */
  function Prune(w: Window, t: Tree): Tree {
    if t.Empty? || w.cur >= t.at + w.cyc then Empty else Node(t.at, Prune(w, t.small), Prune(w, t.big))
  }

  /** Since children are older than parents, nothing that is still live is lost. */
  lemma {:induction false} PruneExact(w: Window, t: Tree)
    requires Heap(t)
    ensures Nodes(Prune(w, t)) == set x | x in Nodes(t) && w.cur < x + w.cyc
  {
    if t.Node? {
      if w.cur >= t.at + w.cyc {
        BelowAll(t.small, t.at);
        BelowAll(t.big, t.at);
      } else {
        PruneExact(w, t.small);
        PruneExact(w, t.big);
      }
    }
  }

  lemma {:induction false} BelowAll(t: Tree, n: nat)
    requires Below(t, n)
    ensures forall y :: y in Nodes(t) ==> y < n
  {
    if t.Node? {
      BelowAll(t.small, n);
      BelowAll(t.big, n);
    }
  }

  lemma {:induction false} PruneKeeps(w: Window, t: Tree, n: nat)
    ensures Nodes(Prune(w, t)) <= Nodes(t)
    ensures NoDup(t) ==> NoDup(Prune(w, t))
    ensures Below(t, n) ==> Below(Prune(w, t), n)
  {
    if t.Node? {
      PruneKeeps(w, t.small, n);
      PruneKeeps(w, t.big, n);
    }
  }

  lemma {:induction false} PruneHeap(w: Window, t: Tree)
    requires Heap(t)
    ensures Heap(Prune(w, t))
  {
    if t.Node? {
      PruneKeeps(w, t.small, t.at);
      PruneKeeps(w, t.big, t.at);
      PruneHeap(w, t.small);
      PruneHeap(w, t.big);
    }
  }

  lemma {:induction false} PruneSides(w: Window, limit: nat, t: Tree, n: nat)
    ensures NoneAfter(w.text, limit, t, n) ==> NoneAfter(w.text, limit, Prune(w, t), n)
    ensures NoneBefore(w.text, limit, t, n) ==> NoneBefore(w.text, limit, Prune(w, t), n)
  {
    hide Leq;
    if t.Node? {
      PruneSides(w, limit, t.small, n);
      PruneSides(w, limit, t.big, n);
    }
  }

  lemma {:induction false} PruneOrdered(w: Window, limit: nat, t: Tree)
    requires Ordered(w.text, limit, t)
    ensures Ordered(w.text, limit, Prune(w, t))
  {
    hide Leq;
    if t.Node? {
      PruneSides(w, limit, t.small, t.at);
      PruneSides(w, limit, t.big, t.at);
      PruneOrdered(w, limit, t.small);
      PruneOrdered(w, limit, t.big);
    }
  }

  /** One position on, the same cells represent the pruned tree. */
  lemma {:induction false} PruneRep(w: Window, next: Window, son: seq<int>, v: int, t: Tree)
    requires w.cyc > 0 && |son| == 2 * w.cyc && Rep(w, son, v, t)
    requires next.cur == w.cur + 1 && next.base == w.base && next.cyc == w.cyc
    ensures Rep(next, son, v, Prune(next, t))
    decreases t
  {
    hide Turn;
    if t.Node? {
      PruneRep(w, next, son, son[Cell(w.cyc, t.at, false)], t.small);
      PruneRep(w, next, son, son[Cell(w.cyc, t.at, true)], t.big);
    }
  }

  function PruneAll(w: Window, forest: seq<Tree>): (r: seq<Tree>)
    ensures |r| == |forest|
  {
    seq(|forest|, h requires 0 <= h < |forest| => Prune(w, forest[h]))
  }

  lemma ForestAge(w: Window, next: Window, son: seq<int>, heads: seq<int>, forest: seq<Tree>, bound: nat)
    requires Forest(w, son, heads, forest, bound) && next.text == w.text && next.limit <= w.limit
    requires next.cur == w.cur + 1 && next.base == w.base && next.cyc == w.cyc
    ensures Forest(next, son, heads, PruneAll(next, forest), bound)
  {
    hide Ordered, Heap, NoDup, Rep, Below, Nodes;
    var aged := PruneAll(next, forest);
    forall h | 0 <= h < |forest|
      ensures Planted(next, son, heads[h], aged[h], bound) && Nodes(aged[h]) <= Nodes(forest[h])
    {
      assert Planted(w, son, heads[h], forest[h], bound);
      OrderedShorter(w.text, w.limit, forest[h], next.limit);
      PruneKeeps(next, forest[h], bound);
      PruneHeap(next, forest[h]);
      PruneOrdered(next, next.limit, forest[h]);
      PruneRep(w, next, son, heads[h], forest[h]);
    }
  }

  /** A shorter limit keeps every order. */
  lemma ForestShorter(w: Window, next: Window, son: seq<int>, heads: seq<int>, forest: seq<Tree>, bound: nat)
    requires Forest(w, son, heads, forest, bound) && next == w.(limit := next.limit) && next.limit <= w.limit
    ensures Forest(next, son, heads, forest, bound)
  {
    hide Ordered, Heap, NoDup, Below, Nodes;
    forall h | 0 <= h < |forest|
      ensures Planted(next, son, heads[h], forest[h], bound)
    {
      assert Planted(w, son, heads[h], forest[h], bound);
      OrderedShorter(w.text, w.limit, forest[h], next.limit);
      RepUnlimited(w, next, son, heads[h], forest[h]);
    }
  }

  lemma {:induction false} RepUnlimited(w: Window, next: Window, son: seq<int>, v: int, t: Tree)
    requires w.cyc > 0 && |son| == 2 * w.cyc && Rep(w, son, v, t) && next == w.(limit := next.limit)
    ensures Rep(next, son, v, t)
    decreases t
  {
    hide Turn;
    if t.Node? {
      RepUnlimited(w, next, son, son[Cell(w.cyc, t.at, false)], t.small);
      RepUnlimited(w, next, son, son[Cell(w.cyc, t.at, true)], t.big);
    }
  }

  lemma ForestLater(w: Window, son: seq<int>, heads: seq<int>, forest: seq<Tree>, bound: nat)
    requires Forest(w, son, heads, forest, bound)
    ensures Forest(w, son, heads, forest, bound + 1)
  {
    hide Ordered, Heap, NoDup, Rep, Nodes;
    forall h | 0 <= h < |forest|
      ensures Planted(w, son, heads[h], forest[h], bound + 1)
    {
      assert Planted(w, son, heads[h], forest[h], bound);
      BelowMore(forest[h], bound, bound + 1);
    }
  }

  /** Before anything was inserted every tree is empty. */
  lemma ForestStart(w: Window, son: seq<int>, heads: seq<int>, forest: seq<Tree>)
    requires w.cyc > 0 && |son| == 2 * w.cyc && |heads| == |forest| && w.cur + w.base >= w.cyc
    requires (forall h :: 0 <= h < |heads| ==> heads[h] == 0) && forall h :: 0 <= h < |forest| ==> forest[h] == Empty
    ensures Forest(w, son, heads, forest, w.cur)
  {
  }

  // ----- renumbering

  /** Mf_Normalize3 on one value. */
  function Renumber(v: int, sub: int): int {
    if v <= sub then 0 else v - sub
  }

  /** Renumbering by no more than what is dead anyway keeps every tree. */
  lemma {:induction false} RenumberRep(w: Window, son: seq<int>, after: seq<int>, sub: int, v: int, t: Tree)
    requires w.cyc > 0 && |son| == |after| == 2 * w.cyc && Rep(w, son, v, t)
    requires forall q :: 0 <= q < |son| ==> after[q] == Renumber(son[q], sub)
    requires w.cur + w.base - sub >= w.cyc
    ensures Rep(w.(base := w.base - sub), after, Renumber(v, sub), t)
    decreases t
  {
    hide Turn;
    if t.Node? {
      RenumberRep(w, son, after, sub, son[Cell(w.cyc, t.at, false)], t.small);
      RenumberRep(w, son, after, sub, son[Cell(w.cyc, t.at, true)], t.big);
    }
  }

  lemma ForestRenumber(w: Window, son: seq<int>, heads: seq<int>, forest: seq<Tree>, bound: nat,
                       after: seq<int>, heads': seq<int>, sub: int)
    requires Forest(w, son, heads, forest, bound) && |after| == |son| && |heads'| == |heads|
    requires forall q :: 0 <= q < |son| ==> after[q] == Renumber(son[q], sub)
    requires forall h :: 0 <= h < |heads| ==> heads'[h] == Renumber(heads[h], sub)
    requires w.cur + w.base - sub >= w.cyc
    ensures Forest(w.(base := w.base - sub), after, heads', forest, bound)
  {
    hide Ordered, Heap, NoDup, Rep, Below, Nodes;
    forall h | 0 <= h < |forest|
      ensures Planted(w.(base := w.base - sub), after, heads'[h], forest[h], bound)
    {
      assert Planted(w, son, heads[h], forest[h], bound);
      RenumberRep(w, son, after, sub, heads[h], forest[h]);
    }
  }
}
