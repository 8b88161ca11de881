// LzFind.c: the walk through the tree that both loops of the match finder make, on any array;
// and what it does when the array holds a search tree.

module MatchWalks {
  import opened Bytes
  import opened MatchTrees
  import opened CyclicTrees
  import opened MatchForests

  const EMPTY_HASH := 0

  /** What an outer node on one side has told about everything still to be searched. */
  ghost predicate Bounded(w: Window, t: Tree, o1: nat, len1: nat, o0: nat, len0: nat) {
    && len1 < w.limit && len0 < w.limit
    && (len1 > 0 ==> Agree(w.text, o1, w.cur, len1) && NoneBefore(w.text, w.limit, t, o1))
    && (len0 > 0 ==> Agree(w.text, o0, w.cur, len0) && NoneAfter(w.text, w.limit, t, o0))
  }

  /** The bytes that are never compared do agree. */
  lemma SkippedBytes(w: Window, t: Tree, o1: nat, len1: nat, o0: nat, len0: nat)
    requires Bounded(w, t, o1, len1, o0, len0) && t.Node?
    ensures Agree(w.text, t.at, w.cur, if len0 < len1 then len0 else len1)
  {
    if len0 > 0 && len1 > 0 {
      Sandwich(w.text, w.limit, o1, t.at, o0, w.cur, if len0 < len1 then len0 else len1);
    }
  }

  /** A search under way: the tree still to be searched, and the two cells waiting for its parts. */
  ghost predicate Searching(w: Window, son: seq<int>, v: int, t: Tree, o1: nat, d1: bool, o0: nat, d0: bool) {
    && ValidWindow(w) && |son| == 2 * w.cyc && Rep(w, son, v, t) && NoDup(t) && Below(t, w.cur)
    && Ordered(w.text, w.limit, t) && Waiting(w, o1, d1, o0, d0, t)
  }

  /** Where the code finds the pair of cells of a position `delta` back. */
  function PairIndex(cyclicBufferPos: nat, cyclicBufferSize: nat, delta: nat): int {
    2 * (cyclicBufferPos - delta + if delta > cyclicBufferPos then cyclicBufferSize else 0)
  }

  lemma PairCells(w: Window, x: nat)
    requires ValidWindow(w) && Live(w, x)
    ensures PairIndex(Turn(w.cur, w.cyc), w.cyc, w.cur - x) == Cell(w.cyc, x, false)
    ensures PairIndex(Turn(w.cur, w.cyc), w.cyc, w.cur - x) + 1 == Cell(w.cyc, x, true)
  {
    TurnBack(w.cur, w.cur - x, w.cyc);
  }

  /** What the value of the current cell tells. */
  lemma Root(w: Window, son: seq<int>, v: int, t: Tree, o1: nat, d1: bool, o0: nat, d0: bool)
    requires Searching(w, son, v, t, o1, d1, o0, d0)
    ensures t.Empty? <==> w.cur + w.base - v >= w.cyc
    ensures t.Node? ==> v == t.at + w.base && t.at < w.cur && Live(w, t.at) && Ordered(w.text, w.limit, t)
    ensures t.Node? ==> PairIndex(Turn(w.cur, w.cyc), w.cyc, w.cur - t.at) == Cell(w.cyc, t.at, false)
    ensures t.Node? ==> PairIndex(Turn(w.cur, w.cyc), w.cyc, w.cur - t.at) + 1 == Cell(w.cyc, t.at, true)
  {
    if t.Node? {
      PairCells(w, t.at);
    }
  }

  /** From byte i up to byte n the texts at a and b agree. */
  ghost predicate AgreeFrom(text: seq<Byte>, a: nat, b: nat, i: nat, n: nat) {
    forall j: nat :: i <= j < n ==> At(text, a, j) == At(text, b, j)
  }

  lemma FromIs(text: seq<Byte>, a: nat, b: nat, limit: nat, i: nat, n: nat)
    requires i <= n <= limit && AgreeFrom(text, a, b, i, n) && (n < limit ==> At(text, a, n) != At(text, b, n))
    ensures CommonFrom(text, a, b, limit, i) == n
  {
    hide CommonFrom;
  }

  // ----- the walk, on any array

  /** Where a walk stands: the array, the current entry, the two waiting cells and how far each side is known to agree. */
  datatype Spot = Spot(son: seq<int>, v: int, one: nat, zero: nat, len1: nat, len0: nat)

  predicate Shaped(w: Window, s: Spot) {
    && ValidWindow(w) && |s.son| == 2 * w.cyc && s.one < |s.son| && s.zero < |s.son|
    && s.len1 < w.limit && s.len0 < w.limit
  }

  function Delta(w: Window, s: Spot): int { w.cur + w.base - s.v }

  /** The cut is reached, or the entry is out of the window. */
  predicate Ends(w: Window, s: Spot, cut: nat) { cut == 0 || Delta(w, s) >= w.cyc }

  /** The entry is an earlier position of the text. */
  predicate Near(w: Window, s: Spot) { 1 <= Delta(w, s) <= w.cur }

  function Pair(w: Window, s: Spot): (p: nat)
    requires Shaped(w, s) && Near(w, s) && Delta(w, s) < w.cyc
    ensures p + 1 < |s.son|
  {
    PairIndex(Turn(w.cur, w.cyc), w.cyc, Delta(w, s))
  }

  /** How far the two texts agree, the shorter of the two known lengths being passed over. */
  function Reach(w: Window, s: Spot): (len: nat)
    requires Shaped(w, s) && Near(w, s)
    ensures len <= w.limit
  {
    CommonFrom(w.text, w.cur - Delta(w, s), w.cur, w.limit, if s.len0 < s.len1 then s.len0 else s.len1)
  }

  /** One turn: the entry goes into one of the waiting cells, and its other side is next. */
  function Next(w: Window, s: Spot): (r: Spot)
    requires Shaped(w, s) && Near(w, s) && Delta(w, s) < w.cyc && Reach(w, s) < w.limit
    ensures Shaped(w, r)
  {
    var pair, len, x := Pair(w, s), Reach(w, s), w.cur - Delta(w, s);
    if w.text[x + len] < w.text[w.cur + len] then
      var son := s.son[s.one := s.v];
      Spot(son, son[pair + 1], pair + 1, s.zero, len, s.len0)
    else
      var son := s.son[s.zero := s.v];
      Spot(son, son[pair], s.one, pair, s.len1, len)
  }

  /** No turn leaves the text. */
  predicate Stays(w: Window, s: Spot, cut: nat)
    requires Shaped(w, s)
    decreases cut
  {
    Ends(w, s, cut) || (Near(w, s) && (Reach(w, s) == w.limit || Stays(w, Next(w, s), cut - 1)))
  }

  /** The array after the walk. */
  function Walk(w: Window, s: Spot, cut: nat): (r: seq<int>)
    requires Shaped(w, s) && Stays(w, s, cut)
    ensures |r| == |s.son|
    decreases cut
  {
    if Ends(w, s, cut) then s.son[s.zero := EMPTY_HASH][s.one := EMPTY_HASH]
    else if Reach(w, s) == w.limit then
      var first := s.son[s.one := s.son[Pair(w, s)]];
      first[s.zero := first[Pair(w, s) + 1]]
    else Walk(w, Next(w, s), cut - 1)
  }

  /** The matches that the walk notes, each longer than those before it. */
  function Finds(w: Window, s: Spot, cut: nat, best: nat): seq<Found>
    requires Shaped(w, s) && Stays(w, s, cut)
    decreases cut
  {
    if Ends(w, s, cut) then []
    else
      var len := Reach(w, s);
      (if len > best then [Found(len, Delta(w, s) - 1)] else [])
      + if len == w.limit then [] else Finds(w, Next(w, s), cut - 1, if len > best then len else best)
  }

  lemma Joining(a: seq<Found>, b: seq<Found>, c: seq<Found>)
    ensures a + (b + c) == (a + b) + c && a + [] == a
  {
  }

  /** The last turn of the walk, after some matches found. */
  lemma WalkEnds(w: Window, s: Spot, cut: nat, best: nat, before: seq<Found>)
    requires Shaped(w, s) && Stays(w, s, cut) && Ends(w, s, cut)
    ensures Walk(w, s, cut) == s.son[s.zero := EMPTY_HASH][s.one := EMPTY_HASH] && before + Finds(w, s, cut, best) == before
  {
  }

  lemma WalkNear(w: Window, s: Spot, cut: nat)
    requires Shaped(w, s) && Stays(w, s, cut) && !Ends(w, s, cut)
    ensures Near(w, s)
  {
  }

  /** The matches found so far, and this one if it is longer. */
  function Noted(w: Window, s: Spot, best: nat, before: seq<Found>): seq<Found>
    requires Shaped(w, s) && Near(w, s)
  {
    if Reach(w, s) > best then before + [Found(Reach(w, s), Delta(w, s) - 1)] else before
  }

  /** A turn that meets a match as long as it may be. */
  lemma WalkFull(w: Window, s: Spot, cut: nat, best: nat, before: seq<Found>)
    requires Shaped(w, s) && Stays(w, s, cut) && !Ends(w, s, cut) && Near(w, s) && Reach(w, s) == w.limit
    ensures var first := s.son[s.one := s.son[Pair(w, s)]]; Walk(w, s, cut) == first[s.zero := first[Pair(w, s) + 1]]
    ensures before + Finds(w, s, cut, best) == Noted(w, s, best, before)
  {
    hide Reach, Pair;
    Joining(before, if Reach(w, s) > best then [Found(Reach(w, s), Delta(w, s) - 1)] else [], []);
  }

  /** Any other turn. */
  lemma WalkGoesOn(w: Window, s: Spot, cut: nat, best: nat, before: seq<Found>)
    requires Shaped(w, s) && Stays(w, s, cut) && !Ends(w, s, cut) && Near(w, s) && Reach(w, s) < w.limit
    ensures Stays(w, Next(w, s), cut - 1) && Walk(w, s, cut) == Walk(w, Next(w, s), cut - 1)
    ensures before + Finds(w, s, cut, best)
            == Noted(w, s, best, before) + Finds(w, Next(w, s), cut - 1, if Reach(w, s) > best then Reach(w, s) else best)
  {
    hide Reach, Pair, Next;
    Joining(before, if Reach(w, s) > best then [Found(Reach(w, s), Delta(w, s) - 1)] else [],
            Finds(w, Next(w, s), cut - 1, if Reach(w, s) > best then Reach(w, s) else best));
  }

  /** An earlier entry: of the text, if it is in the window. */
  predicate Earlier(w: Window, v: int) {
    v < w.cur + w.base && (w.cur + w.base - v < w.cyc ==> w.cur + w.base - v <= w.cur)
  }

  /** On an array of earlier entries, whatever their order, no turn leaves the text. */
  lemma {:induction false} EarlierStays(w: Window, s: Spot, cut: nat)
    requires Shaped(w, s) && Earlier(w, s.v) && forall q :: 0 <= q < |s.son| ==> Earlier(w, s.son[q])
    ensures Stays(w, s, cut)
    decreases cut
  {
    hide CommonFrom, PairIndex;
    if !Ends(w, s, cut) && Reach(w, s) < w.limit {
      EarlierStays(w, Next(w, s), cut - 1);
    }
  }

  // ----- the walk through a search tree

  /** One step of the rebuilding. */
  lemma RewireOnce(w: Window, son: seq<int>, one: nat, zero: nat, t: Tree, cut: nat)
    requires w.cyc > 0 && |son| == 2 * w.cyc && one < |son| && zero < |son|
    ensures t.Empty? || cut == 0 ==> Rewire(w, son, one, zero, t, cut) == son[zero := EMPTY_HASH][one := EMPTY_HASH]
    ensures t.Node? && cut > 0 ==>
              var l, r, after := Cell(w.cyc, t.at, false), Cell(w.cyc, t.at, true), Rewire(w, son, one, zero, t, cut);
              if Match(w, t.at) == w.limit then after == son[one := son[l]][zero := son[one := son[l]][r]]
              else if Smaller(w, t.at) then after == Rewire(w, son[one := t.at + w.base], r, zero, t.big, cut - 1)
              else after == Rewire(w, son[zero := t.at + w.base], one, l, t.small, cut - 1)
  {
  }

  lemma StartSearch(w: Window, son: seq<int>, v: int, t: Tree)
    requires ValidWindow(w) && Planted(w, son, v, t, w.cur)
    ensures Searching(w, son, v, t, w.cur, false, w.cur, true)
  {
    WaitingStart(w, t);
  }

  lemma Unbounded(w: Window, t: Tree, n: nat)
    requires ValidWindow(w)
    ensures Bounded(w, t, n, 0, n, 0)
  {
  }

  /** Hanging the node into the waiting cell on the smaller side and going on with its bigger side. */
  lemma GoUp(w: Window, son: seq<int>, v: int, t: Tree, o1: nat, d1: bool, o0: nat, d0: bool)
    requires Searching(w, son, v, t, o1, d1, o0, d0) && t.Node?
    ensures var son' := son[Cell(w.cyc, o1, d1) := v];
            && Searching(w, son', son'[Cell(w.cyc, t.at, true)], t.big, t.at, true, o0, d0)
  {
    hide Turn, NoneAfter, NoneBefore, Live;
    var r := Cell(w.cyc, t.at, true);
    CellsDiffer(w, t.at, true, o1, d1);
    WaitingStep(w, son, o1, d1, v, son[r], t.big);
  }

  lemma GoDown(w: Window, son: seq<int>, v: int, t: Tree, o1: nat, d1: bool, o0: nat, d0: bool)
    requires Searching(w, son, v, t, o1, d1, o0, d0) && t.Node?
    ensures var son' := son[Cell(w.cyc, o0, d0) := v];
            && Searching(w, son', son'[Cell(w.cyc, t.at, false)], t.small, o1, d1, t.at, false)
  {
    hide Turn, NoneAfter, NoneBefore, Live;
    var l := Cell(w.cyc, t.at, false);
    CellsDiffer(w, t.at, false, o0, d0);
    WaitingStep(w, son, o0, d0, v, son[l], t.small);
  }

  /** The bound that a node passes on to the side that is searched next. */
  lemma BoundUp(w: Window, t: Tree, o1: nat, len1: nat, o0: nat, len0: nat)
    requires Bounded(w, t, o1, len1, o0, len0) && t.Node? && Ordered(w.text, w.limit, t)
    requires Match(w, t.at) != w.limit
    ensures Bounded(w, t.big, t.at, Match(w, t.at), o0, len0)
    ensures Bounded(w, t.small, o1, len1, t.at, Match(w, t.at))
  {
    hide CommonFrom;
  }

  /** The walk from here is the rewiring of the tree, and finds its matches. */
  ghost predicate Rewires(w: Window, s: Spot, t: Tree, cut: nat, best: nat) {
    && Shaped(w, s) && Stays(w, s, cut)
    && Walk(w, s, cut) == Rewire(w, s.son, s.one, s.zero, t, cut) && Finds(w, s, cut, best) == Matches(w, t, cut, best)
  }

  /** On a search tree the walk is the rewiring, although it passes over bytes, and finds the tree's matches. */
  lemma {:induction false} WalkIsRewire(w: Window, son: seq<int>, v: int, t: Tree, o1: nat, d1: bool, o0: nat, d0: bool,
                                        len1: nat, len0: nat, cut: nat, best: nat)
    requires Searching(w, son, v, t, o1, d1, o0, d0) && Bounded(w, t, o1, len1, o0, len0)
    ensures Rewires(w, Spot(son, v, Cell(w.cyc, o1, d1), Cell(w.cyc, o0, d0), len1, len0), t, cut, best)
    decreases cut
  {
    hide Rewires, Turn, Cell, Live, Rep, NoDup, Below, Ordered, Waiting, NoneBefore, NoneAfter, Agree, Match,
         Smaller, PairIndex;
    var s := Spot(son, v, Cell(w.cyc, o1, d1), Cell(w.cyc, o0, d0), len1, len0);
    Root(w, son, v, t, o1, d1, o0, d0);
    if t.Empty? || cut == 0 {
      RewireEnds(w, s, t, cut, best);
    } else {
      SkippedBytes(w, t, o1, len1, o0, len0);
      if Match(w, t.at) == w.limit {
        RewireReplaces(w, s, t, cut, best);
      } else {
        ReachIsMatch(w, s, t.at);
        var more := if Match(w, t.at) > best then Match(w, t.at) else best;
        BoundUp(w, t, o1, len1, o0, len0);
        if Smaller(w, t.at) {
          GoUp(w, son, v, t, o1, d1, o0, d0);
          WalkIsRewire(w, Next(w, s).son, Next(w, s).v, t.big, t.at, true, o0, d0, Match(w, t.at), len0, cut - 1, more);
        } else {
          GoDown(w, son, v, t, o1, d1, o0, d0);
          WalkIsRewire(w, Next(w, s).son, Next(w, s).v, t.small, o1, d1, t.at, false, len1, Match(w, t.at), cut - 1, more);
        }
        RewireGoesOn(w, s, t, cut, best);
      }
    }
  }

  lemma RewireEnds(w: Window, s: Spot, t: Tree, cut: nat, best: nat)
    requires Shaped(w, s) && Ends(w, s, cut) && (t.Empty? || cut == 0)
    ensures Rewires(w, s, t, cut, best)
  {
    assert s.son[s.zero := 0][s.one := 0] == s.son[s.one := 0][s.zero := 0];
  }

  /** The node at which the walk stands. */
  ghost predicate AtNode(w: Window, s: Spot, t: Tree) {
    && Shaped(w, s) && t.Node? && t.at < w.cur && s.v == t.at + w.base && Delta(w, s) < w.cyc
    && Pair(w, s) == Cell(w.cyc, t.at, false) && Pair(w, s) + 1 == Cell(w.cyc, t.at, true)
    && Agree(w.text, t.at, w.cur, if s.len0 < s.len1 then s.len0 else s.len1)
  }

  lemma RewireReplaces(w: Window, s: Spot, t: Tree, cut: nat, best: nat)
    requires AtNode(w, s, t) && cut > 0 && Match(w, t.at) == w.limit
    ensures Rewires(w, s, t, cut, best)
  {
    hide Match, CommonFrom, PairIndex, Cell, Agree, Smaller;
    ReachIsMatch(w, s, t.at);
  }

  lemma FindsGoOn(w: Window, s: Spot, t: Tree, cut: nat, best: nat)
    requires AtNode(w, s, t) && cut > 0 && Match(w, t.at) < w.limit && Reach(w, s) < w.limit && Stays(w, s, cut)
    requires Finds(w, Next(w, s), cut - 1, if Match(w, t.at) > best then Match(w, t.at) else best)
             == Matches(w, if Smaller(w, t.at) then t.big else t.small, cut - 1, if Match(w, t.at) > best then Match(w, t.at) else best)
    ensures Finds(w, s, cut, best) == Matches(w, t, cut, best)
  {
    hide Match, CommonFrom, PairIndex, Cell, Agree, Smaller, Walk, Next, Finds, Matches;
    ReachIsMatch(w, s, t.at);
    WalkGoesOn(w, s, cut, best, []);
    MatchesGoOn(w, t, cut, best);
    assert [] + Finds(w, s, cut, best) == Finds(w, s, cut, best);
  }

  lemma RewireGoesOn(w: Window, s: Spot, t: Tree, cut: nat, best: nat)
    requires AtNode(w, s, t) && cut > 0 && Match(w, t.at) < w.limit && Reach(w, s) < w.limit
    requires Rewires(w, Next(w, s), if Smaller(w, t.at) then t.big else t.small, cut - 1, if Match(w, t.at) > best then Match(w, t.at) else best)
    ensures Rewires(w, s, t, cut, best)
  {
    hide Match, CommonFrom, PairIndex, Cell, Agree, Smaller, Rewire, Finds, Matches;
    ReachIsMatch(w, s, t.at);
    RewireOnce(w, s.son, s.one, s.zero, t, cut);
    FindsGoOn(w, s, t, cut, best);
  }

  /** A new position's walk, from the head of its bucket. */
  lemma WalkStarts(w: Window, son: seq<int>, v: int, t: Tree, cut: nat, best: nat)
    requires ValidWindow(w) && Planted(w, son, v, t, w.cur)
    ensures Rewires(w, Spot(son, v, 2 * Turn(w.cur, w.cyc), 2 * Turn(w.cur, w.cyc) + 1, 0, 0), t, cut, best)
    ensures 2 * Turn(w.cur, w.cyc) == Cell(w.cyc, w.cur, false) && 2 * Turn(w.cur, w.cyc) + 1 == Cell(w.cyc, w.cur, true)
  {
    hide Rewires, Turn;
    StartSearch(w, son, v, t);
    Unbounded(w, t, w.cur);
    WalkIsRewire(w, son, v, t, w.cur, false, w.cur, true, 0, 0, cut, best);
  }

  lemma ReachIsMatch(w: Window, s: Spot, x: nat)
    requires Shaped(w, s) && x < w.cur && s.v == x + w.base
    requires Agree(w.text, x, w.cur, if s.len0 < s.len1 then s.len0 else s.len1)
    ensures Near(w, s) && Reach(w, s) == Match(w, x) && BackTo(w, x) == Delta(w, s) - 1
    ensures Reach(w, s) < w.limit ==> (Smaller(w, x) <==> w.text[x + Reach(w, s)] < w.text[w.cur + Reach(w, s)])
  {
    hide CommonFrom;
    CommonIs(w.text, x, w.cur, w.limit, Reach(w, s));
  }
}
