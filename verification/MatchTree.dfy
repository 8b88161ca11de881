// The search tree of LzFind.c on values: earlier positions ordered by the text that starts
// there, and what an insertion makes of the tree.

module MatchTrees {
  import opened Bytes

  // ----- comparing texts

  /** The byte at offset j of the text that starts at a. */
  function At(text: seq<Byte>, a: nat, j: nat): int {
    if a + j < |text| then text[a + j] else 0
  }

  ghost predicate Agree(text: seq<Byte>, a: nat, b: nat, k: nat) {
    forall j: nat :: j < k ==> At(text, a, j) == At(text, b, j)
  }

  /** How many bytes, up to `limit`, the texts at a and b have in common, the first k being passed over. */
  function CommonFrom(text: seq<Byte>, a: nat, b: nat, limit: nat, k: nat): (r: nat)
    requires k <= limit
    ensures k <= r <= limit
    ensures forall j: nat :: k <= j < r ==> At(text, a, j) == At(text, b, j)
    ensures r < limit ==> At(text, a, r) != At(text, b, r)
    decreases limit - k
  {
    if k == limit || At(text, a, k) != At(text, b, k) then k else CommonFrom(text, a, b, limit, k + 1)
  }

  function Common(text: seq<Byte>, a: nat, b: nat, limit: nat): (r: nat)
    ensures r <= limit && Agree(text, a, b, r) && (r < limit ==> At(text, a, r) != At(text, b, r))
  {
    CommonFrom(text, a, b, limit, 0)
  }

  lemma CommonIs(text: seq<Byte>, a: nat, b: nat, limit: nat, k: nat)
    requires k <= limit && Agree(text, a, b, k) && (k < limit ==> At(text, a, k) != At(text, b, k))
    ensures Common(text, a, b, limit) == k
  {
    hide CommonFrom;
  }

  /** The text at a is not after the text at b, as far as `limit` bytes tell. */
  predicate Leq(text: seq<Byte>, limit: nat, a: nat, b: nat) {
    var k := Common(text, a, b, limit);
    k == limit || At(text, a, k) < At(text, b, k)
  }

  lemma LeqTransitive(text: seq<Byte>, limit: nat, a: nat, b: nat, c: nat)
    requires Leq(text, limit, a, b) && Leq(text, limit, b, c)
    ensures Leq(text, limit, a, c)
  {
    hide CommonFrom;
    var k1, k2 := Common(text, a, b, limit), Common(text, b, c, limit);
    var k := if k1 < k2 then k1 else k2;
    CommonIs(text, a, c, limit, k);
  }

  lemma LeqShorter(text: seq<Byte>, limit: nat, a: nat, b: nat, shorter: nat)
    requires shorter <= limit && Leq(text, limit, a, b)
    ensures Leq(text, shorter, a, b)
  {
    hide CommonFrom;
    var k := Common(text, a, b, limit);
    CommonIs(text, a, b, shorter, if k < shorter then k else shorter);
  }

  /** Why the first bytes need no comparison: what lies between two texts that share m bytes with c shares them too. */
  lemma Sandwich(text: seq<Byte>, limit: nat, low: nat, x: nat, high: nat, c: nat, m: nat)
    requires Leq(text, limit, low, x) && Leq(text, limit, x, high) && m <= limit
    requires Agree(text, low, c, m) && Agree(text, high, c, m)
    ensures Agree(text, x, c, m)
  {
    hide CommonFrom;
    var k := Common(text, x, c, limit);
    if k < m {
      CommonIs(text, low, x, limit, k);
      CommonIs(text, x, high, limit, k);
      assert false;
    }
  }

  // ----- trees

  /** Earlier positions; `small` holds texts not after the one at `at`, `big` texts not before it. */
  datatype Tree = Empty | Node(at: nat, small: Tree, big: Tree)

  ghost function Nodes(t: Tree): set<nat> {
    if t.Empty? then {} else {t.at} + Nodes(t.small) + Nodes(t.big)
  }

  /** Every position occurs once. */
  ghost predicate NoDup(t: Tree) {
    t.Node? ==>
      && t.at !in Nodes(t.small) && t.at !in Nodes(t.big) && Nodes(t.small) !! Nodes(t.big)
      && NoDup(t.small) && NoDup(t.big)
  }

  predicate Below(t: Tree, n: nat) {
    t.Node? ==> t.at < n && Below(t.small, n) && Below(t.big, n)
  }

  /** Parents are younger than children. */
  predicate Heap(t: Tree) {
    t.Node? ==> Below(t.small, t.at) && Below(t.big, t.at) && Heap(t.small) && Heap(t.big)
  }

  lemma {:induction false} BelowMore(t: Tree, m: nat, n: nat)
    requires Below(t, m) && m <= n
    ensures Below(t, n)
  {
    if t.Node? {
      BelowMore(t.small, m, n);
      BelowMore(t.big, m, n);
    }
  }

  predicate NoneAfter(text: seq<Byte>, limit: nat, t: Tree, n: nat) {
    t.Node? ==> Leq(text, limit, t.at, n) && NoneAfter(text, limit, t.small, n) && NoneAfter(text, limit, t.big, n)
  }

  predicate NoneBefore(text: seq<Byte>, limit: nat, t: Tree, n: nat) {
    t.Node? ==> Leq(text, limit, n, t.at) && NoneBefore(text, limit, t.small, n) && NoneBefore(text, limit, t.big, n)
  }

  /** A search tree by text, as far as `limit` bytes tell. */
  predicate Ordered(text: seq<Byte>, limit: nat, t: Tree) {
    t.Node? ==>
      && NoneAfter(text, limit, t.small, t.at) && NoneBefore(text, limit, t.big, t.at)
      && Ordered(text, limit, t.small) && Ordered(text, limit, t.big)
  }

  lemma {:induction false} AfterTransitive(text: seq<Byte>, limit: nat, t: Tree, m: nat, n: nat)
    requires NoneAfter(text, limit, t, m) && Leq(text, limit, m, n)
    ensures NoneAfter(text, limit, t, n)
  {
    if t.Node? {
      LeqTransitive(text, limit, t.at, m, n);
      AfterTransitive(text, limit, t.small, m, n);
      AfterTransitive(text, limit, t.big, m, n);
    }
  }

  lemma {:induction false} BeforeTransitive(text: seq<Byte>, limit: nat, t: Tree, m: nat, n: nat)
    requires NoneBefore(text, limit, t, m) && Leq(text, limit, n, m)
    ensures NoneBefore(text, limit, t, n)
  {
    if t.Node? {
      LeqTransitive(text, limit, n, m, t.at);
      BeforeTransitive(text, limit, t.small, m, n);
      BeforeTransitive(text, limit, t.big, m, n);
    }
  }

  /** Order that holds for a longer limit holds for a shorter one. */
  lemma {:induction false} OrderedShorter(text: seq<Byte>, limit: nat, t: Tree, shorter: nat)
    requires Ordered(text, limit, t) && shorter <= limit
    ensures Ordered(text, shorter, t)
  {
    if t.Node? {
      SidesShorter(text, limit, t.small, t.at, shorter);
      SidesShorter(text, limit, t.big, t.at, shorter);
      OrderedShorter(text, limit, t.small, shorter);
      OrderedShorter(text, limit, t.big, shorter);
    }
  }

  lemma {:induction false} SidesShorter(text: seq<Byte>, limit: nat, t: Tree, n: nat, shorter: nat)
    requires shorter <= limit
    ensures NoneAfter(text, limit, t, n) ==> NoneAfter(text, shorter, t, n)
    ensures NoneBefore(text, limit, t, n) ==> NoneBefore(text, shorter, t, n)
  {
    hide Leq;
    if t.Node? {
      SidesShorter(text, limit, t.small, n, shorter);
      SidesShorter(text, limit, t.big, n, shorter);
      if Leq(text, limit, t.at, n) {
        LeqShorter(text, limit, t.at, n, shorter);
      }
      if Leq(text, limit, n, t.at) {
        LeqShorter(text, limit, n, t.at, shorter);
      }
    }
  }

  // ----- insertion

  /** Where an insertion stands: the text, the new position, how positions are numbered, and the limits. */
  datatype Window = Window(text: seq<Byte>, cur: nat, base: int, cyc: nat, limit: nat)

  predicate ValidWindow(w: Window) {
    w.cur + w.limit <= |w.text| && w.limit >= 1 && w.cyc >= 2 && w.cur + w.base >= w.cyc
  }

  /** Not yet overwritten in the cyclic array. */
  predicate Live(w: Window, x: nat) {
    w.cur < x + w.cyc && x <= w.cur
  }

  predicate AllLive(w: Window, t: Tree) {
    t.Node? ==> Live(w, t.at) && AllLive(w, t.small) && AllLive(w, t.big)
  }

  function Match(w: Window, x: nat): nat {
    Common(w.text, x, w.cur, w.limit)
  }

  /** At the first difference the text at x is the smaller one. */
  predicate Smaller(w: Window, x: nat) {
    At(w.text, x, Match(w, x)) < At(w.text, w.cur, Match(w, x))
  }

  /**
   * What a search for the text at `cur` through at most `cut` nodes makes of the tree: the
   * texts before it and those after it.  A node that agrees to the limit is replaced.
   */
  function Split(w: Window, t: Tree, cut: nat): (Tree, Tree)
    decreases t
  {
    if t.Empty? || cut == 0 then (Empty, Empty)
    else if Match(w, t.at) == w.limit then (t.small, t.big)
    else if Smaller(w, t.at) then
      var (s, b) := Split(w, t.big, cut - 1);
      (Node(t.at, t.small, s), b)
    else
      var (s, b) := Split(w, t.small, cut - 1);
      (s, Node(t.at, b, t.big))
  }

  function Inserted(w: Window, t: Tree, cut: nat): Tree {
    var (s, b) := Split(w, t, cut);
    Node(w.cur, s, b)
  }

  lemma {:induction false} SplitNodes(w: Window, t: Tree, cut: nat)
    requires NoDup(t)
    ensures var (s, b) := Split(w, t, cut);
            && Nodes(s) <= Nodes(t) && Nodes(b) <= Nodes(t) && Nodes(s) !! Nodes(b) && NoDup(s) && NoDup(b)
    decreases t
  {
    hide Match, Smaller;
    if t.Node? && cut > 0 {
      SplitNodes(w, t.big, cut - 1);
      SplitNodes(w, t.small, cut - 1);
    }
  }

  lemma {:induction false} SplitHeap(w: Window, t: Tree, cut: nat, n: nat)
    requires Heap(t) && Below(t, n)
    ensures var (s, b) := Split(w, t, cut); Heap(s) && Heap(b) && Below(s, n) && Below(b, n)
    decreases t
  {
    hide Match, Smaller;
    if t.Node? && cut > 0 {
      SplitHeap(w, t.big, cut - 1, n);
      SplitHeap(w, t.small, cut - 1, n);
      SplitHeap(w, t.big, cut - 1, t.at);
      SplitHeap(w, t.small, cut - 1, t.at);
    }
  }

  /** Parts of a tree on one side of a text stay on that side. */
  lemma {:induction false} SplitSides(w: Window, t: Tree, cut: nat, n: nat)
    ensures var (s, b) := Split(w, t, cut);
            && (NoneAfter(w.text, w.limit, t, n) ==> NoneAfter(w.text, w.limit, s, n) && NoneAfter(w.text, w.limit, b, n))
            && (NoneBefore(w.text, w.limit, t, n) ==> NoneBefore(w.text, w.limit, s, n) && NoneBefore(w.text, w.limit, b, n))
    decreases t
  {
    hide Match, Smaller, Leq;
    if t.Node? && cut > 0 {
      SplitSides(w, t.big, cut - 1, n);
      SplitSides(w, t.small, cut - 1, n);
    }
  }

  /** The two parts are search trees, one not after and one not before the new text. */
  lemma {:induction false} SplitOrdered(w: Window, t: Tree, cut: nat)
    requires Ordered(w.text, w.limit, t)
    ensures var (s, b) := Split(w, t, cut);
            && Ordered(w.text, w.limit, s) && Ordered(w.text, w.limit, b)
            && NoneAfter(w.text, w.limit, s, w.cur) && NoneBefore(w.text, w.limit, b, w.cur)
    decreases t
  {
    hide Match, Smaller, Leq;
    if t.Node? && cut > 0 {
      NodeSide(w, t.at);
      if Leq(w.text, w.limit, t.at, w.cur) {
        AfterTransitive(w.text, w.limit, t.small, t.at, w.cur);
      }
      if Leq(w.text, w.limit, w.cur, t.at) {
        BeforeTransitive(w.text, w.limit, t.big, t.at, w.cur);
      }
      SplitOrdered(w, t.big, cut - 1);
      SplitOrdered(w, t.small, cut - 1);
      SplitSides(w, t.big, cut - 1, t.at);
      SplitSides(w, t.small, cut - 1, t.at);
    }
  }

  lemma NodeSide(w: Window, x: nat)
    ensures Match(w, x) == w.limit || Smaller(w, x) ==> Leq(w.text, w.limit, x, w.cur)
    ensures Match(w, x) == w.limit || !Smaller(w, x) ==> Leq(w.text, w.limit, w.cur, x)
  {
    hide CommonFrom;
    CommonIs(w.text, w.cur, x, w.limit, Match(w, x));
  }

  /** Insertion keeps a search tree by text that is a heap by age, whatever the cut. */
  lemma InsertedKeeps(w: Window, t: Tree, cut: nat)
    requires Below(t, w.cur) && NoDup(t) && Heap(t) && Ordered(w.text, w.limit, t) && w.cur !in Nodes(t)
    ensures var r := Inserted(w, t, cut);
            && NoDup(r) && Heap(r) && Below(r, w.cur + 1) && Ordered(w.text, w.limit, r)
            && Nodes(r) <= {w.cur} + Nodes(t)
  {
    hide Split, Leq, NoneAfter, NoneBefore, NoDup, Heap, Below, Ordered, Nodes;
    SplitNodes(w, t, cut);
    SplitHeap(w, t, cut, w.cur);
    SplitOrdered(w, t, cut);
    var (s, b) := Split(w, t, cut);
    JoinedOrdered(w, s, b);
    JoinedHeap(s, b, w.cur);
    JoinedNodes(s, b, w.cur);
  }

  lemma JoinedOrdered(w: Window, s: Tree, b: Tree)
    requires Ordered(w.text, w.limit, s) && Ordered(w.text, w.limit, b)
    requires NoneAfter(w.text, w.limit, s, w.cur) && NoneBefore(w.text, w.limit, b, w.cur)
    ensures Ordered(w.text, w.limit, Node(w.cur, s, b))
  {
    hide Leq, NoneAfter, NoneBefore;
  }

  lemma JoinedHeap(s: Tree, b: Tree, n: nat)
    requires Heap(s) && Heap(b) && Below(s, n) && Below(b, n)
    ensures Heap(Node(n, s, b)) && Below(Node(n, s, b), n + 1)
  {
    BelowMore(s, n, n + 1);
    BelowMore(b, n, n + 1);
  }

  lemma JoinedNodes(s: Tree, b: Tree, n: nat)
    requires NoDup(s) && NoDup(b) && Nodes(s) !! Nodes(b) && n !in Nodes(s) && n !in Nodes(b)
    ensures NoDup(Node(n, s, b)) && Nodes(Node(n, s, b)) == {n} + Nodes(s) + Nodes(b)
  {
  }

  // ----- matches

  /** `len` bytes that also occur distance + 1 positions earlier. */
  datatype Found = Found(len: nat, distance: nat)

  function BackTo(w: Window, x: nat): nat {
    if x < w.cur then w.cur - x - 1 else 0
  }

  /** The matches a search comes upon, each longer than `best` and all before it. */
  function Matches(w: Window, t: Tree, cut: nat, best: nat): seq<Found>
    decreases t
  {
    if t.Empty? || cut == 0 then []
    else
      var k := Match(w, t.at);
      (if k > best then [Found(k, BackTo(w, t.at))] else [])
      + if k == w.limit then []
        else Matches(w, if Smaller(w, t.at) then t.big else t.small, cut - 1, if k > best then k else best)
  }

  lemma MatchesGoOn(w: Window, t: Tree, cut: nat, best: nat)
    requires t.Node? && cut > 0 && Match(w, t.at) < w.limit
    ensures var k := Match(w, t.at);
            Matches(w, t, cut, best)
            == (if k > best then [Found(k, BackTo(w, t.at))] else [])
               + Matches(w, if Smaller(w, t.at) then t.big else t.small, cut - 1, if k > best then k else best)
  {
    hide Match, Smaller;
  }

  /** A match that is really there, within reach and within the limit. */
  ghost predicate Genuine(w: Window, f: Found) {
    && f.len <= w.limit && f.distance < w.cur && f.distance + 1 < w.cyc
    && Agree(w.text, w.cur - f.distance - 1, w.cur, f.len)
  }

  ghost predicate Rising(found: seq<Found>, best: nat) {
    && (forall i :: 0 <= i < |found| ==> best < found[i].len)
    && forall i, j :: 0 <= i < j < |found| ==> found[i].len < found[j].len
  }

  lemma RisingCons(f: Found, rest: seq<Found>, best: nat)
    requires rest != [] ==> Rising(rest, if f.len > best then f.len else best)
    ensures Rising((if f.len > best then [f] else []) + rest, best)
  {
  }

  lemma RisingNone(best: nat)
    ensures Rising([], best)
  {
  }

  lemma HeadGenuine(w: Window, x: nat)
    requires Live(w, x) && x < w.cur
    ensures Genuine(w, Found(Match(w, x), BackTo(w, x)))
  {
    hide CommonFrom;
  }

  lemma {:induction false} MatchesGenuine(w: Window, t: Tree, cut: nat, best: nat)
    requires AllLive(w, t) && Below(t, w.cur)
    ensures forall i :: 0 <= i < |Matches(w, t, cut, best)| ==> Genuine(w, Matches(w, t, cut, best)[i])
    decreases t
  {
    hide Smaller, Match, Genuine, BackTo;
    if t.Node? && cut > 0 {
      HeadGenuine(w, t.at);
      MatchesGenuine(w, if Smaller(w, t.at) then t.big else t.small, cut - 1,
                     if Match(w, t.at) > best then Match(w, t.at) else best);
    }
  }

  lemma {:induction false} MatchesRise(w: Window, t: Tree, cut: nat, best: nat)
    ensures Rising(Matches(w, t, cut, best), best)
    decreases t
  {
    hide Smaller, Match, Rising;
    if t.Node? && cut > 0 {
      var k, next := Match(w, t.at), if Smaller(w, t.at) then t.big else t.small;
      MatchesRise(w, next, cut - 1, if k > best then k else best);
      RisingCons(Found(k, BackTo(w, t.at)), if k == w.limit then [] else Matches(w, next, cut - 1, if k > best then k else best), best);
    } else {
      RisingNone(best);
    }
  }
}
