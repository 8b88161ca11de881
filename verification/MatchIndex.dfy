// Nothing is missed: what the tables and trees of LzFind.c know of the positions in the
// window, and why a search with enough turns comes upon the longest match.

module MatchIndexes {
  import opened Bytes
  import opened Bits
  import opened MatchHashes
  import opened MatchTrees
  import opened MatchForests

  // ----- one search

  /** The most nodes a search can visit. */
  function Height(t: Tree): nat {
    if t.Empty? then 0
    else 1 + if Height(t.small) > Height(t.big) then Height(t.small) else Height(t.big)
  }

  /** Children are older than parents and all are in the window, so the window is high enough. */
  lemma {:induction false} HeightInWindow(w: Window, t: Tree, n: nat)
    requires Heap(t) && Below(t, n) && AllLive(w, t) && n <= w.cur
    ensures Height(t) == 0 || Height(t) + w.cur < n + w.cyc
  {
    if t.Node? {
      HeightInWindow(w, t.small, t.at);
      HeightInWindow(w, t.big, t.at);
    }
  }

  function LastLen(found: seq<Found>, none: nat): nat {
    if found == [] then none else found[|found| - 1].len
  }

  /** On the side that a search leaves out no text has more in common with the new one than the node itself. */
  lemma OtherSide(w: Window, x: nat, y: nat)
    requires if Smaller(w, y) then Leq(w.text, w.limit, x, y) else Leq(w.text, w.limit, y, x)
    ensures Match(w, y) < w.limit ==> Match(w, x) <= Match(w, y)
  {
    hide CommonFrom;
    var k := Match(w, y);
    if k < w.limit && Match(w, x) > k {
      CommonIs(w.text, x, y, w.limit, k);
      CommonIs(w.text, y, x, w.limit, k);
      assert false;
    }
  }

  lemma {:induction false} LeftOut(w: Window, t: Tree, y: nat)
    requires Match(w, y) < w.limit
    requires if Smaller(w, y) then NoneAfter(w.text, w.limit, t, y) else NoneBefore(w.text, w.limit, t, y)
    ensures forall x :: x in Nodes(t) ==> Match(w, x) <= Match(w, y)
  {
    hide Match, Smaller, Leq;
    if t.Node? {
      OtherSide(w, t.at, y);
      LeftOut(w, t.small, y);
      LeftOut(w, t.big, y);
    }
  }

  /** A search with as many turns as the tree is high ends with the longest match that is in the tree. */
  lemma {:induction false} MatchesComplete(w: Window, t: Tree, cut: nat, best: nat)
    requires Ordered(w.text, w.limit, t) && Height(t) <= cut
    ensures LastLen(Matches(w, t, cut, best), best) >= best
    ensures forall x :: x in Nodes(t) ==> Match(w, x) <= LastLen(Matches(w, t, cut, best), best)
    decreases t
  {
    hide Smaller, Leq, NoneAfter, NoneBefore, Match;
    LimitIsMost(w);
    if t.Node? && Match(w, t.at) < w.limit {
      hide Matches;
      var k := Match(w, t.at);
      var next, other := if Smaller(w, t.at) then t.big else t.small, if Smaller(w, t.at) then t.small else t.big;
      var best' := if k > best then k else best;
      LeftOut(w, other, t.at);
      MatchesComplete(w, next, cut - 1, best');
      MatchesGoOn(w, t, cut, best);
      LastOf(if k > best then [Found(k, BackTo(w, t.at))] else [], Matches(w, next, cut - 1, best'), best, best');
    }
  }

  lemma LimitIsMost(w: Window)
    ensures forall x: nat :: Match(w, x) <= w.limit
  {
  }

  lemma LastOf(a: seq<Found>, b: seq<Found>, none: nat, none': nat)
    requires none' == LastLen(a, none)
    ensures LastLen(a + b, none) == LastLen(b, none')
  {
  }

  // ----- one insertion

  /** An insertion with enough turns loses no position but one that has the whole text in common with the new one. */
  lemma {:induction false} SplitLoses(w: Window, t: Tree, cut: nat)
    requires Height(t) <= cut
    ensures var (s, b) := Split(w, t, cut);
            && (forall x :: x in Nodes(t) && x !in Nodes(s) + Nodes(b) ==> Match(w, x) == w.limit)
            && forall x, y :: x in Nodes(t) && x !in Nodes(s) + Nodes(b) && y in Nodes(t) && y !in Nodes(s) + Nodes(b) ==> x == y
    decreases t
  {
    hide Match, Smaller;
    if t.Node? {
      if Match(w, t.at) == w.limit {
      } else if Smaller(w, t.at) {
        SplitLoses(w, t.big, cut - 1);
      } else {
        SplitLoses(w, t.small, cut - 1);
      }
    }
  }

  lemma InsertedLoses(w: Window, t: Tree, cut: nat)
    requires Height(t) <= cut
    ensures w.cur in Nodes(Inserted(w, t, cut))
    ensures forall x :: x in Nodes(t) && x !in Nodes(Inserted(w, t, cut)) ==> Match(w, x) == w.limit
    ensures forall x, y :: x in Nodes(t) && x !in Nodes(Inserted(w, t, cut)) && y in Nodes(t) && y !in Nodes(Inserted(w, t, cut)) ==> x == y
  {
    hide Split, Match;
    SplitLoses(w, t, cut);
  }

  // ----- what a tree covers

  /** The tree holds the position, or a later one with the same text as far as matches may be long. */
  ghost predicate Covered(text: seq<Byte>, limit: nat, t: Tree, x: nat) {
    exists y :: y in Nodes(t) && x <= y && Agree(text, x, y, limit)
  }

  lemma InsertCovers(w: Window, t: Tree, cut: nat, x: nat)
    requires Height(t) <= cut && (x == w.cur || (Covered(w.text, w.limit, t, x) && Below(t, w.cur)))
    ensures Covered(w.text, w.limit, Inserted(w, t, cut), x)
  {
    hide Inserted, CommonFrom;
    InsertedLoses(w, t, cut);
    if x == w.cur {
      assert Agree(w.text, x, w.cur, w.limit);
    } else {
      var y :| y in Nodes(t) && x <= y && Agree(w.text, x, y, w.limit);
      BelowAll(t, w.cur);
      if y !in Nodes(Inserted(w, t, cut)) {
        assert Agree(w.text, y, w.cur, w.limit);
        AgreeOn(w.text, x, y, w.cur, w.limit);
      }
    }
  }

  lemma AgreeOn(text: seq<Byte>, a: nat, b: nat, c: nat, k: nat)
    requires Agree(text, a, b, k) && Agree(text, b, c, k)
    ensures Agree(text, a, c, k)
  {
  }

  lemma PruneCovers(next: Window, limit: nat, t: Tree, x: nat)
    requires Heap(t) && next.cur < x + next.cyc && next.limit <= limit && Covered(next.text, limit, t, x)
    ensures Covered(next.text, next.limit, Prune(next, t), x)
  {
    var y :| y in Nodes(t) && x <= y && Agree(next.text, x, y, limit);
    PruneExact(next, t);
    assert Agree(next.text, x, y, next.limit);
  }

  /** What a covered text has in common with the new one, some node has. */
  lemma CoveredMatch(w: Window, t: Tree, x: nat)
    requires Covered(w.text, w.limit, t, x)
    ensures exists y :: y in Nodes(t) && Match(w, y) == Match(w, x)
  {
    hide CommonFrom;
    var y :| y in Nodes(t) && x <= y && Agree(w.text, x, y, w.limit);
    CommonIs(w.text, y, w.cur, w.limit, Match(w, x));
  }

  // ----- what the tables know

  const FIX3_HASH_SIZE := 0x400
  const FIX4_HASH_SIZE := 0x1_0400
  const MIN_HASH_LEN := 4

  function Hash2At(text: seq<Byte>, crc: seq<nat>, x: nat): (h: nat)
    requires |crc| == 256
    ensures h < FIX3_HASH_SIZE
  {
    TableSizes();
    LowBelow(Temp(crc, At(text, x, 0), At(text, x, 1)), HASH2_BITS);
    Hash2(crc, At(text, x, 0), At(text, x, 1))
  }

  function Hash3At(text: seq<Byte>, crc: seq<nat>, x: nat): (h: nat)
    requires |crc| == 256
    ensures FIX3_HASH_SIZE + h < FIX4_HASH_SIZE
  {
    TableSizes();
    LowBelow(Xor(Temp(crc, At(text, x, 0), At(text, x, 1)), At(text, x, 2) as int * 256), HASH3_BITS);
    Hash3(crc, At(text, x, 0), At(text, x, 1), At(text, x, 2))
  }

  function Hash4At(text: seq<Byte>, crc: seq<nat>, bits: nat, x: nat): (h: nat)
    requires |crc| == 256
    ensures h < Pow2(bits)
  {
    var v := Xor(Xor(Temp(crc, At(text, x, 0), At(text, x, 1)), At(text, x, 2) as int * 256), crc[At(text, x, 3)] * 32);
    LowBelow(v, bits);
    Hash4(crc, bits, At(text, x, 0), At(text, x, 1), At(text, x, 2), At(text, x, 3))
  }

  lemma TableSizes()
    ensures Pow2(HASH2_BITS) == FIX3_HASH_SIZE && Pow2(HASH3_BITS) == FIX4_HASH_SIZE - FIX3_HASH_SIZE
  {
    PowersOfTwo();
    assert Pow2(10) == 4 * Pow2(8);
    assert Pow2(12) == 4 * Pow2(10);
    assert Pow2(14) == 4 * Pow2(12);
  }

  /** Sizes that belong together. */
  ghost predicate Sized(crc: seq<nat>, bits: nat, hash: seq<nat>, forest: seq<Tree>) {
    |crc| == 256 && |hash| == FIX4_HASH_SIZE + Pow2(bits) && |forest| == Pow2(bits)
  }

  /** The two small tables know a position or a later one of its hash, and, if searches are long enough, its tree covers it. */
  ghost predicate Recorded(w: Window, crc: seq<nat>, bits: nat, hash: seq<nat>, forest: seq<Tree>, cut: nat, x: nat)
    requires Sized(crc, bits, hash, forest)
  {
    && x + w.base <= hash[Hash2At(w.text, crc, x)]
    && x + w.base <= hash[FIX3_HASH_SIZE + Hash3At(w.text, crc, x)]
    && (cut >= w.cyc ==> Covered(w.text, w.limit, forest[Hash4At(w.text, crc, bits, x)], x))
  }

  /** Every position in the window is recorded, as long as matches are looked for at all. */
  ghost predicate Indexed(w: Window, crc: seq<nat>, bits: nat, hash: seq<nat>, forest: seq<Tree>, cut: nat, bound: nat)
    requires Sized(crc, bits, hash, forest)
  {
    w.limit >= MIN_HASH_LEN ==>
      forall x: nat :: x < bound && w.cur < x + w.cyc ==> Recorded(w, crc, bits, hash, forest, cut, x)
  }

  lemma IndexedStart(w: Window, crc: seq<nat>, bits: nat, hash: seq<nat>, forest: seq<Tree>, cut: nat)
    requires Sized(crc, bits, hash, forest)
    ensures Indexed(w, crc, bits, hash, forest, cut, 0)
  {
  }

  lemma IndexedShort(w: Window, crc: seq<nat>, bits: nat, hash: seq<nat>, forest: seq<Tree>, cut: nat, bound: nat)
    requires Sized(crc, bits, hash, forest) && w.limit < MIN_HASH_LEN
    ensures Indexed(w, crc, bits, hash, forest, cut, bound)
  {
  }

  /** A shorter limit. */
  lemma IndexedShorter(w: Window, next: Window, crc: seq<nat>, bits: nat, hash: seq<nat>, forest: seq<Tree>, cut: nat, bound: nat)
    requires Sized(crc, bits, hash, forest) && Indexed(w, crc, bits, hash, forest, cut, bound)
    requires next == w.(limit := next.limit) && next.limit <= w.limit
    ensures Indexed(next, crc, bits, hash, forest, cut, bound)
  {
    hide Hash2At, Hash3At, Hash4At;
    if next.limit >= MIN_HASH_LEN {
      forall x: nat | x < bound && w.cur < x + w.cyc
        ensures Recorded(next, crc, bits, hash, forest, cut, x)
      {
        assert Recorded(w, crc, bits, hash, forest, cut, x);
        if cut >= w.cyc {
          var t := forest[Hash4At(w.text, crc, bits, x)];
          var y :| y in Nodes(t) && x <= y && Agree(w.text, x, y, w.limit);
          assert Agree(w.text, x, y, next.limit);
        }
      }
    }
  }

  /** Renumbering. */
  lemma IndexedRenumbered(w: Window, crc: seq<nat>, bits: nat, hash: seq<nat>, forest: seq<Tree>, cut: nat, bound: nat,
                          after: seq<nat>, sub: int)
    requires Sized(crc, bits, hash, forest) && Indexed(w, crc, bits, hash, forest, cut, bound)
    requires |after| == |hash| && forall q :: 0 <= q < |hash| ==> after[q] == Renumber(hash[q], sub)
    ensures Indexed(w.(base := w.base - sub), crc, bits, after, forest, cut, bound)
  {
    hide Hash2At, Hash3At, Hash4At, Covered;
    if w.limit >= MIN_HASH_LEN {
      var next := w.(base := w.base - sub);
      forall x: nat | x < bound && w.cur < x + w.cyc
        ensures Recorded(next, crc, bits, after, forest, cut, x)
      {
        assert Recorded(w, crc, bits, hash, forest, cut, x);
      }
    }
  }

  /** One position on. */
  lemma IndexedAged(w: Window, next: Window, crc: seq<nat>, bits: nat, hash: seq<nat>, forest: seq<Tree>, cut: nat, bound: nat)
    requires Sized(crc, bits, hash, forest) && Indexed(w, crc, bits, hash, forest, cut, bound)
    requires next == w.(cur := w.cur + 1) && forall h :: 0 <= h < |forest| ==> Heap(forest[h])
    ensures Indexed(next, crc, bits, hash, PruneAll(next, forest), cut, bound)
  {
    hide Hash2At, Hash3At, Hash4At, Covered, Heap;
    if w.limit >= MIN_HASH_LEN {
      var aged := PruneAll(next, forest);
      forall x: nat | x < bound && next.cur < x + w.cyc
        ensures Recorded(next, crc, bits, hash, aged, cut, x)
      {
        assert Recorded(w, crc, bits, hash, forest, cut, x);
        if cut >= w.cyc {
          PruneCovers(next, w.limit, forest[Hash4At(w.text, crc, bits, x)], x);
        }
      }
    }
  }

  /** The three entries of the current text point to it, and its bucket has it at the root. */
  lemma IndexedInserted(w: Window, crc: seq<nat>, bits: nat, hash: seq<nat>, forest: seq<Tree>, cut: nat, pos: nat)
    requires Sized(crc, bits, hash, forest) && Indexed(w, crc, bits, hash, forest, cut, w.cur) && pos == w.cur + w.base
    requires var t := forest[Hash4At(w.text, crc, bits, w.cur)]; Heap(t) && Below(t, w.cur) && AllLive(w, t)
    ensures var h2, h3, h4 := Hash2At(w.text, crc, w.cur), Hash3At(w.text, crc, w.cur), Hash4At(w.text, crc, bits, w.cur);
            Indexed(w, crc, bits, hash[h2 := pos][FIX3_HASH_SIZE + h3 := pos][FIX4_HASH_SIZE + h4 := pos],
                    forest[h4 := Inserted(w, forest[h4], cut)], cut, w.cur + 1)
  {
    hide Hash2At, Hash3At, Hash4At, Covered, Heap, Below, AllLive, Inserted, Height;
    var h2, h3, h4 := Hash2At(w.text, crc, w.cur), Hash3At(w.text, crc, w.cur), Hash4At(w.text, crc, bits, w.cur);
    var after := hash[h2 := pos][FIX3_HASH_SIZE + h3 := pos][FIX4_HASH_SIZE + h4 := pos];
    var t := forest[h4];
    HeightInWindow(w, t, w.cur);
    if w.limit >= MIN_HASH_LEN {
      var grown := forest[h4 := Inserted(w, t, cut)];
      forall x: nat | x < w.cur + 1 && w.cur < x + w.cyc
        ensures Recorded(w, crc, bits, after, grown, cut, x)
      {
        assert x < w.cur ==> Recorded(w, crc, bits, hash, forest, cut, x);
        if cut >= w.cyc && Hash4At(w.text, crc, bits, x) == h4 {
          InsertCovers(w, t, cut, x);
        }
      }
    }
  }

  // ----- what a search must come upon

  /** Since x, no position has had the two-byte (three-byte) hash of the new one. */
  ghost predicate NoneSince2(w: Window, crc: seq<nat>, x: nat)
    requires |crc| == 256
  {
    forall y: nat :: x < y < w.cur ==> Hash2At(w.text, crc, y) != Hash2At(w.text, crc, w.cur)
  }

  ghost predicate NoneSince3(w: Window, crc: seq<nat>, x: nat)
    requires |crc| == 256
  {
    forall y: nat :: x < y < w.cur ==> Hash3At(w.text, crc, y) != Hash3At(w.text, crc, w.cur)
  }

  /**
   * A search misses nothing: matches of two and three bytes with the latest position of their
   * hash, and the longest match of four bytes or more in the whole window if searches may
   * visit as many nodes as the window has positions.
   */
  ghost predicate MissesNothing(w: Window, crc: seq<nat>, cut: nat, found: seq<Found>)
    requires |crc| == 256
  {
    w.limit >= MIN_HASH_LEN ==>
      forall x: nat :: x < w.cur < x + w.cyc ==>
        && (Agree(w.text, x, w.cur, 2) && NoneSince2(w, crc, x) ==> LastLen(found, 0) >= 2)
        && (Agree(w.text, x, w.cur, 3) && NoneSince3(w, crc, x) ==> LastLen(found, 0) >= 3)
        && (cut >= w.cyc && Match(w, x) >= 4 ==> LastLen(found, 0) >= Match(w, x))
  }

  /** Four bytes in common mean one bucket. */
  lemma SameBucket(w: Window, crc: seq<nat>, bits: nat, x: nat)
    requires |crc| == 256 && Agree(w.text, x, w.cur, MIN_HASH_LEN)
    ensures Hash4At(w.text, crc, bits, x) == Hash4At(w.text, crc, bits, w.cur)
  {
    assert At(w.text, x, 0) == At(w.text, w.cur, 0) && At(w.text, x, 1) == At(w.text, w.cur, 1);
    assert At(w.text, x, 2) == At(w.text, w.cur, 2) && At(w.text, x, 3) == At(w.text, w.cur, 3);
  }

  /** Of a tree no higher than the search goes, nothing longer than three bytes is missed. */
  ghost predicate SearchesAll(w: Window, t: Tree, cut: nat, found: seq<Found>) {
    Height(t) <= cut ==> forall y :: y in Nodes(t) ==> Match(w, y) <= if LastLen(found, 0) > 3 then LastLen(found, 0) else 3
  }

  lemma TreeSearched(w: Window, t: Tree, cut: nat, first: seq<Found>, m: nat, more: seq<Found>)
    requires Ordered(w.text, w.limit, t) && (if first == [] then m == 1 else LastLen(first, 0) == m)
    requires if m == w.limit then more == [] else more == Matches(w, t, cut, if m < 3 then 3 else m)
    ensures SearchesAll(w, t, cut, first + more)
  {
    hide Match, Ordered, Matches;
    LimitIsMost(w);
    LastOf(first, more, 0, LastLen(first, 0));
    if m != w.limit && Height(t) <= cut {
      MatchesComplete(w, t, cut, if m < 3 then 3 else m);
    }
  }

  /** What is within reach in an entry of the two-byte (three-byte) table has the hash of the entry. */
  ghost predicate Sound2(w: Window, crc: seq<nat>, v: int)
    requires |crc| == 256
  {
    w.cur + w.base - v < w.cyc ==> w.base <= v < w.cur + w.base && Hash2At(w.text, crc, v - w.base) == Hash2At(w.text, crc, w.cur)
  }

  ghost predicate Sound3(w: Window, crc: seq<nat>, v: int)
    requires |crc| == 256
  {
    w.cur + w.base - v < w.cyc ==> w.base <= v < w.cur + w.base && Hash3At(w.text, crc, v - w.base) == Hash3At(w.text, crc, w.cur)
  }

  /** The position `delta` back begins with the same byte and is in reach. */
  predicate Hits(w: Window, delta: int) {
    1 <= delta <= w.cur && delta < w.cyc && At(w.text, w.cur - delta, 0) == At(w.text, w.cur, 0)
  }

  lemma TwoKnown(w: Window, crc: seq<nat>, bits: nat, hash: seq<nat>, forest: seq<Tree>, cut: nat, x: nat)
    requires Sized(crc, bits, hash, forest) && Recorded(w, crc, bits, hash, forest, cut, x) && x < w.cur < x + w.cyc
    requires Agree(w.text, x, w.cur, 2) && NoneSince2(w, crc, x) && Sound2(w, crc, hash[Hash2At(w.text, crc, w.cur)])
    ensures Hits(w, w.cur + w.base - hash[Hash2At(w.text, crc, w.cur)])
  {
    hide Hash2At, Hash3At, Hash4At, Covered, Agree;
    SameHashes(w, crc, x);
    var y := hash[Hash2At(w.text, crc, w.cur)] - w.base;
    assert y == x;
  }

  lemma ThreeKnown(w: Window, crc: seq<nat>, bits: nat, hash: seq<nat>, forest: seq<Tree>, cut: nat, x: nat)
    requires Sized(crc, bits, hash, forest) && Recorded(w, crc, bits, hash, forest, cut, x) && x < w.cur < x + w.cyc
    requires Agree(w.text, x, w.cur, 3) && NoneSince3(w, crc, x)
    requires Sound3(w, crc, hash[FIX3_HASH_SIZE + Hash3At(w.text, crc, w.cur)])
    ensures Hits(w, w.cur + w.base - hash[FIX3_HASH_SIZE + Hash3At(w.text, crc, w.cur)])
  {
    hide Hash2At, Hash3At, Hash4At, Covered, Agree;
    SameHashes(w, crc, x);
    var y := hash[FIX3_HASH_SIZE + Hash3At(w.text, crc, w.cur)] - w.base;
    assert y == x;
  }

  lemma AgreeLess(text: seq<Byte>, a: nat, b: nat, k: nat, less: nat)
    requires Agree(text, a, b, k) && less <= k
    ensures Agree(text, a, b, less)
  {
  }

  lemma SameHashes(w: Window, crc: seq<nat>, x: nat)
    requires |crc| == 256
    ensures Agree(w.text, x, w.cur, 2) ==> At(w.text, x, 0) == At(w.text, w.cur, 0) && Hash2At(w.text, crc, x) == Hash2At(w.text, crc, w.cur)
    ensures Agree(w.text, x, w.cur, 3) ==> At(w.text, x, 0) == At(w.text, w.cur, 0) && Hash3At(w.text, crc, x) == Hash3At(w.text, crc, w.cur)
  {
    if Agree(w.text, x, w.cur, 2) {
      assert At(w.text, x, 0) == At(w.text, w.cur, 0) && At(w.text, x, 1) == At(w.text, w.cur, 1);
    }
    if Agree(w.text, x, w.cur, 3) {
      assert At(w.text, x, 0) == At(w.text, w.cur, 0) && At(w.text, x, 1) == At(w.text, w.cur, 1);
      assert At(w.text, x, 2) == At(w.text, w.cur, 2);
    }
  }

  /** The two small tables and the tree together. */
  lemma NothingMissed(w: Window, crc: seq<nat>, bits: nat, hash: seq<nat>, forest: seq<Tree>, cut: nat, found: seq<Found>)
    requires Sized(crc, bits, hash, forest) && Indexed(w, crc, bits, hash, forest, cut, w.cur)
    requires var v := hash[Hash2At(w.text, crc, w.cur)];
             Sound2(w, crc, v) && (Hits(w, w.cur + w.base - v) ==> LastLen(found, 0) >= 2)
    requires var v := hash[FIX3_HASH_SIZE + Hash3At(w.text, crc, w.cur)];
             Sound3(w, crc, v) && (Hits(w, w.cur + w.base - v) ==> LastLen(found, 0) >= 3)
    requires var t := forest[Hash4At(w.text, crc, bits, w.cur)];
             Heap(t) && Below(t, w.cur) && AllLive(w, t) && SearchesAll(w, t, cut, found)
    ensures MissesNothing(w, crc, cut, found)
  {
    hide Hash2At, Hash3At, Hash4At, Covered, Heap, Below, AllLive, Height, Sound2, Sound3, Hits, NoneSince2, NoneSince3, LastLen, CommonFrom, Agree;
    var t := forest[Hash4At(w.text, crc, bits, w.cur)];
    HeightInWindow(w, t, w.cur);
    if w.limit >= MIN_HASH_LEN {
      forall x: nat | x < w.cur < x + w.cyc
        ensures Agree(w.text, x, w.cur, 2) && NoneSince2(w, crc, x) ==> LastLen(found, 0) >= 2
        ensures Agree(w.text, x, w.cur, 3) && NoneSince3(w, crc, x) ==> LastLen(found, 0) >= 3
        ensures cut >= w.cyc && Match(w, x) >= 4 ==> LastLen(found, 0) >= Match(w, x)
      {
        assert Recorded(w, crc, bits, hash, forest, cut, x);
        if Agree(w.text, x, w.cur, 2) && NoneSince2(w, crc, x) {
          TwoKnown(w, crc, bits, hash, forest, cut, x);
        }
        if Agree(w.text, x, w.cur, 3) && NoneSince3(w, crc, x) {
          ThreeKnown(w, crc, bits, hash, forest, cut, x);
        }
        if cut >= w.cyc && Match(w, x) >= 4 {
          AgreeLess(w.text, x, w.cur, Match(w, x), MIN_HASH_LEN);
          SameBucket(w, crc, bits, x);
          CoveredMatch(w, t, x);
        }
      }
    }
  }
}
