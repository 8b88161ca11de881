// The singly linked tail queues of queue.h, and STAILQ_SORT on them.

module TailQueues {
  import opened MergeOrder

  class Elem<T> {
    const key: T
    var stqe_next: Elem?<T>

    constructor (key: T)
      ensures this.key == key
    {
      this.key, stqe_next := key, null;
    }
  }

  function After<T>(items: seq<Elem<T>>, i: nat): Elem?<T> {
    if i + 1 < |items| then items[i + 1] else null
  }

  /** The elements are linked one to the next, and the last one ends the list. */
  ghost predicate Linked<T>(items: seq<Elem<T>>)
    reads items
  {
    && (forall i, j :: 0 <= i < j < |items| ==> items[i] != items[j])
    && forall i :: 0 <= i < |items| ==> items[i].stqe_next == After(items, i)
  }

  /** A list head.  `lastElem` stands for the address of the last link: that of its stqe_next, or of stqh_first if null. */
  class Queue<T> {
    var stqh_first: Elem?<T>
    var lastElem: Elem?<T>
    ghost var items: seq<Elem<T>>

    ghost predicate Valid()
      reads this, items
    {
      && Linked(items)
      && (if items == [] then stqh_first == null && lastElem == null
          else stqh_first == items[0] && lastElem == items[|items| - 1])
    }

    /** STAILQ_INIT */
    constructor ()
      ensures Valid() && items == []
    {
      stqh_first, lastElem, items := null, null, [];
    }

    /** STAILQ_INIT on a list in use. */
    method Init()
      modifies this
      ensures Valid() && items == []
    {
      stqh_first, lastElem, items := null, null, [];
    }

    /** STAILQ_INSERT_TAIL */
    method InsertTail(elm: Elem<T>)
      requires Valid() && elm !in items
      modifies this, elm, items
      ensures Valid() && items == old(items) + [elm]
    {
      elm.stqe_next := null;
      if lastElem == null {
        stqh_first := elm;
      } else {
        lastElem.stqe_next := elm;
      }
      lastElem := elm;
      items := items + [elm];
    }

    /** STAILQ_REMOVE_HEAD */
    method RemoveHead()
      requires Valid() && items != []
      modifies this
      ensures Valid() && items == old(items)[1..]
    {
      ghost var was := items;
      assert was[0].stqe_next == After(was, 0);
      stqh_first := stqh_first.stqe_next;
      if stqh_first == null {
        lastElem := null;
      }
      items := items[1..];
      forall i | 0 <= i < |items|
        ensures items[i].stqe_next == After(items, i)
      {
        assert was[i + 1].stqe_next == After(was, i + 1);
      }
    }
  }

  /** Two lists without a common element. */
  ghost predicate Apart<T>(a: seq<Elem<T>>, b: seq<Elem<T>>) {
    forall i, j :: 0 <= i < |a| && 0 <= j < |b| ==> a[i] != b[j]
  }

  /** Three different lists, all elements of which are in `pool`. */
  ghost predicate Three<T>(a: Queue<T>, b: Queue<T>, c: Queue<T>, pool: set<Elem<T>>)
    reads a, b, c, a.items, b.items, c.items
  {
    && a != b && a != c && b != c && a.Valid() && b.Valid() && c.Valid()
    && Apart(a.items, b.items) && Apart(a.items, c.items) && Apart(b.items, c.items)
    && (forall x :: x in a.items ==> x in pool) && (forall x :: x in b.items ==> x in pool) && forall x :: x in c.items ==> x in pool
  }

  lemma HeadApart<T>(a: Queue<T>, b: Queue<T>, c: Queue<T>, pool: set<Elem<T>>)
    requires Three(a, b, c, pool) && a.items != []
    ensures a.stqh_first == a.items[0] && a.items[0].stqe_next == After(a.items, 0)
    ensures a.items[0] !in a.items[1..] && a.items[0] !in b.items && a.items[0] !in c.items
  {
  }

  /** The head element of one list goes to the end of another. */
  method Move<T>(a: Queue<T>, b: Queue<T>, c: Queue<T>, ghost pool: set<Elem<T>>)
    requires Three(a, b, c, pool) && a.items != [] && a.stqh_first != null
    modifies a, b, pool
    ensures Three(a, b, c, pool) && a.items == old(a.items)[1..] && b.items == old(b.items) + [old(a.items)[0]]
    ensures c.items == old(c.items) && a.stqh_first == old(a.stqh_first.stqe_next) && c.stqh_first == old(c.stqh_first)
  {
    hide Linked;
    HeadApart(a, b, c, pool);
    var e := a.stqh_first;
    a.RemoveHead();
    b.InsertTail(e);
  }

  /** At most sz elements from the head of `head` become the list `la`. */
  method TakeRun<T>(head: Queue<T>, la: Queue<T>, lb: Queue<T>, sz: nat, ghost pool: set<Elem<T>>) returns (psz: nat)
    requires Three(head, la, lb, pool) && la.items == []
    modifies head, la, pool
    ensures Three(head, la, lb, pool) && psz == Min(sz, |old(head.items)|)
    ensures la.items == old(head.items)[..psz] && head.items == old(head.items)[psz..] && lb.items == old(lb.items)
  {
    hide Three, Linked, Apart;
    psz := 0;
    var i := 0;
    Heads(head, la, lb, pool);
    while i < sz && head.stqh_first != null
      invariant Three(head, la, lb, pool) && i == psz <= sz && psz <= |old(head.items)|
      invariant la.items == old(head.items)[..psz] && head.items == old(head.items)[psz..] && lb.items == old(lb.items)
      invariant head.items == [] <==> head.stqh_first == null
    {
      psz := psz + 1;
      Move(head, la, lb, pool);
      Heads(head, la, lb, pool);
      i := i + 1;
    }
  }

  /** Which element goes first: the comparison of two keys. */
  function NotGreater<T>(cmp: (T, T) -> int): (Elem<T>, Elem<T>) -> bool {
    (x: Elem<T>, y: Elem<T>) => cmp(x.key, y.key) <= 0
  }

  lemma Heads<T>(a: Queue<T>, b: Queue<T>, c: Queue<T>, pool: set<Elem<T>>)
    requires Three(a, b, c, pool)
    ensures a.items == [] <==> a.stqh_first == null
    ensures b.items == [] <==> b.stqh_first == null
    ensures a.items != [] ==> a.stqh_first == a.items[0]
    ensures b.items != [] ==> b.stqh_first == b.items[0]
  {
  }

  lemma TakeLeft<E>(le: (E, E) -> bool, out: seq<E>, a: seq<E>, b: seq<E>)
    requires a != [] && (b == [] || le(a[0], b[0]))
    ensures out + Merge(le, a, b) == (out + [a[0]]) + Merge(le, a[1..], b)
  {
    MergeLeft(le, a, b);
    hide Merge;
    Regroup(out, [a[0]], Merge(le, a[1..], b));
  }

  lemma TakeRight<E>(le: (E, E) -> bool, out: seq<E>, a: seq<E>, b: seq<E>)
    requires b != [] && (a == [] || !le(a[0], b[0]))
    ensures out + Merge(le, a, b) == (out + [b[0]]) + Merge(le, a, b[1..])
  {
    MergeRight(le, a, b);
    hide Merge;
    Regroup(out, [b[0]], Merge(le, a, b[1..]));
  }

  /** The inner loop: the run in `la` and the next sz elements of `head`, merged to the end of `lb`. */
  method MergeRuns<T>(cmp: (T, T) -> int, head: Queue<T>, la: Queue<T>, lb: Queue<T>, psz0: nat, sz: nat,
                      ghost pool: set<Elem<T>>)
    requires Three(head, la, lb, pool) && psz0 == |la.items|
    modifies head, la, lb, pool
    ensures Three(head, la, lb, pool) && la.items == []
    ensures var n := Min(sz, |old(head.items)|);
            && head.items == old(head.items)[n..]
            && lb.items == old(lb.items) + Merge(NotGreater(cmp), old(la.items), old(head.items)[..n])
  {
    hide Merge, Three, Linked, Apart;
    var p, q := la.stqh_first, head.stqh_first;
    var psz, qsz := psz0, sz;
    ghost var le, n := NotGreater(cmp), Min(sz, |head.items|);
    ghost var run := head.items[..n];
    while psz > 0 || (qsz > 0 && q != null)
      invariant Three(head, la, lb, pool) && p == la.stqh_first && q == head.stqh_first && psz == |la.items|
      invariant |run| == Min(qsz, |head.items|) && head.items[..|run|] == run && 0 <= qsz
      invariant head.items[|run|..] == old(head.items)[n..]
      invariant lb.items + Merge(le, la.items, run) == old(lb.items) + Merge(le, old(la.items), old(head.items)[..n])
      decreases psz + |run|
    {
      Heads(head, la, lb, pool);
      Reorder(head, la, lb, pool);
      ghost var a, out, rest := la.items, lb.items, head.items;
      if psz == 0 {
        TakeRight(le, out, a, run);
        q := q.stqe_next;
        Move(head, lb, la, pool);
        qsz := qsz - 1;
        run := run[1..];
      } else if qsz == 0 || q == null {
        TakeLeft(le, out, a, run);
        p := p.stqe_next;
        Move(la, lb, head, pool);
        psz := psz - 1;
      } else if cmp(p.key, q.key) <= 0 {
        TakeLeft(le, out, a, run);
        p := p.stqe_next;
        Move(la, lb, head, pool);
        psz := psz - 1;
      } else {
        TakeRight(le, out, a, run);
        q := q.stqe_next;
        Move(head, lb, la, pool);
        qsz := qsz - 1;
        run := run[1..];
      }
      Reorder(head, la, lb, pool);
    }
    Heads(head, la, lb, pool);
    MergeNothing(le, lb.items);
  }

  lemma MergeNothing<E>(le: (E, E) -> bool, out: seq<E>)
    ensures out + Merge(le, [], []) == out
  {
  }

  /** The order in which the three lists are named does not matter. */
  lemma Reorder<T>(a: Queue<T>, b: Queue<T>, c: Queue<T>, pool: set<Elem<T>>)
    ensures Three(a, c, b, pool) ==> Three(a, b, c, pool)
    ensures Three(b, c, a, pool) ==> Three(a, b, c, pool)
    ensures Three(a, b, c, pool) ==> Three(a, c, b, pool) && Three(b, c, a, pool)
  {
  }

  /** One pass of STAILQ_SORT over the whole list. */
  method SortPass<T>(cmp: (T, T) -> int, head: Queue<T>, la: Queue<T>, lb: Queue<T>, sz: nat, ghost pool: set<Elem<T>>)
    returns (nmerges: nat)
    requires sz >= 1 && Ready(head, la, lb, pool)
    modifies head, la, lb, pool
    ensures Three(head, la, lb, pool) && head.items == [] && la.items == []
    ensures lb.items == Pass(NotGreater(cmp), sz, old(head.items)) && nmerges == Merges(sz, |old(head.items)|)
  {
    hide Three, Linked, Apart;
    ghost var le := NotGreater(cmp);
    nmerges := 0;
    Restart(head, la, lb, pool);
    Heads(head, la, lb, pool);
    while head.stqh_first != null
      invariant Three(head, la, lb, pool) && la.items == [] && (head.items == [] <==> head.stqh_first == null)
      invariant lb.items + Pass(le, sz, head.items) == Pass(le, sz, old(head.items))
      invariant nmerges + Merges(sz, |head.items|) == Merges(sz, |old(head.items)|)
      decreases |head.items|
    {
      nmerges := nmerges + 1;
      ghost var s, out := head.items, lb.items;
      Empty(head, la, lb, pool);
      var psz := TakeRun(head, la, lb, sz, pool);
      MergeRuns(cmp, head, la, lb, psz, sz, pool);
      Heads(head, la, lb, pool);
      PassOnce(le, sz, s, out);
    }
  }

  /** The list between two passes; lb may still share its elements. */
  ghost predicate Ready<T>(head: Queue<T>, la: Queue<T>, lb: Queue<T>, pool: set<Elem<T>>)
    reads head, la, head.items, la.items
  {
    && head != la && head != lb && la != lb && head.Valid() && la.Valid() && la.items == []
    && forall x :: x in head.items ==> x in pool
  }

  /** STAILQ_INIT on the list of the merged runs. */
  method Restart<T>(head: Queue<T>, la: Queue<T>, lb: Queue<T>, ghost pool: set<Elem<T>>)
    requires Ready(head, la, lb, pool)
    modifies lb
    ensures Three(head, la, lb, pool) && lb.items == [] && head.items == old(head.items) && la.items == []
  {
    lb.Init();
  }

  /** STAILQ_INIT on the list of a run. */
  method Empty<T>(a: Queue<T>, b: Queue<T>, c: Queue<T>, ghost pool: set<Elem<T>>)
    requires Three(a, b, c, pool)
    modifies b
    ensures Three(a, b, c, pool) && b.items == []
  {
    b.Init();
  }

  /** The first pair of runs of a pass. */
  lemma PassOnce<E>(le: (E, E) -> bool, sz: nat, s: seq<E>, out: seq<E>)
    requires sz >= 1 && s != []
    ensures var a := Min(sz, |s|);
            var n := Min(sz, |s| - a);
            && out + Pass(le, sz, s) == (out + Merge(le, s[..a], s[a..][..n])) + Pass(le, sz, s[a..][n..])
            && Merges(sz, |s|) == 1 + Merges(sz, |s[a..][n..]|)
  {
    hide Merge, Pass, Merges;
    var n := Min(sz, |s| - Min(sz, |s|));
    assert Min(sz, |s|) + n == Min(2 * sz, |s|);
    var a, b := Min(sz, |s|), Min(2 * sz, |s|);
    TwoCuts(s, a, b);
    PassFirst(le, sz, s);
    Regroup(out, Merge(le, s[..a], s[a..b]), Pass(le, sz, s[b..]));
    MergesFirst(sz, |s|);
  }

  lemma Regroup<E>(a: seq<E>, b: seq<E>, c: seq<E>)
    ensures a + (b + c) == (a + b) + c
  {
  }

  lemma MergesFirst(sz: nat, n: nat)
    requires sz >= 1 && n > 0
    ensures Merges(sz, n) == 1 + Merges(sz, n - Min(2 * sz, n))
  {
  }

  lemma TwoCuts<E>(s: seq<E>, a: nat, b: nat)
    requires a <= b <= |s|
    ensures s[a..][..b - a] == s[a..b] && s[a..][b - a..] == s[b..]
  {
  }

  lemma PassFirst<E>(le: (E, E) -> bool, sz: nat, s: seq<E>)
    requires sz >= 1 && s != []
    ensures var a, b := Min(sz, |s|), Min(2 * sz, |s|);
            Pass(le, sz, s) == Merge(le, s[..a], s[a..b]) + Pass(le, sz, s[b..])
  {
    hide Merge;
  }

  /** The merged list becomes the list again, tail pointer included. */
  method TakeOver<T>(head: Queue<T>, la: Queue<T>, lb: Queue<T>, ghost pool: set<Elem<T>>)
    requires Three(head, la, lb, pool) && head.items == [] && la.items == []
    modifies head
    ensures Ready(head, la, lb, pool) && head.items == old(lb.items)
  {
    head.stqh_first := lb.stqh_first;
    head.lastElem := lb.lastElem;
    head.items := lb.items;
  }

  /**
   * STAILQ_SORT on a non-empty list: sorted, stable, the same elements, and a tail pointer
   * that addresses the last link.
   */
  method StailqSort<T>(cmp: (T, T) -> int, head: Queue<T>)
    requires head.Valid() && head.items != [] && TotalPreorder(NotGreater(cmp), head.items)
    modifies head, head.items
    ensures head.Valid() && multiset(head.items) == multiset(old(head.items))
    ensures StableSorted(NotGreater(cmp), old(head.items), head.items)
  {
    hide Linked, Rank, StableSorted, Merge, Runs, TotalPreorder, Three;
    ghost var le, orig, pool := NotGreater(cmp), head.items, set x | x in head.items;
    var la := new Queue<T>();
    var lb := new Queue<T>();
    Singles(le, head);
    var sz := 1;
    var more := true;
    while more
      invariant Ready(head, la, lb, pool) && fresh(la) && fresh(lb) && sz >= 1
      invariant SortedSoFar(le, orig, sz, more, head.items)
      decreases more, |orig| - sz
    {
      more := SortRound(cmp, head, la, lb, sz, pool, orig);
      sz := sz * 2;
    }
  }

  /** Runs of sz elements are in order, and all of it is when no pass is left to make. */
  ghost predicate SortedSoFar<E>(le: (E, E) -> bool, orig: seq<E>, sz: nat, more: bool, s: seq<E>)
    requires sz >= 1
  {
    && TotalPreorder(le, orig) && Runs(le, orig, sz, s) && multiset(s) == multiset(orig)
    && if more then sz == 1 || sz < |orig| else StableSorted(le, orig, s)
  }

  /** The body of the outer loop: a pass, and whether another one is needed. */
  method SortRound<T>(cmp: (T, T) -> int, head: Queue<T>, la: Queue<T>, lb: Queue<T>, sz: nat,
                      ghost pool: set<Elem<T>>, ghost orig: seq<Elem<T>>)
    returns (more: bool)
    requires sz >= 1 && Ready(head, la, lb, pool) && SortedSoFar(NotGreater(cmp), orig, sz, true, head.items)
    modifies head, la, lb, pool
    ensures Ready(head, la, lb, pool) && SortedSoFar(NotGreater(cmp), orig, 2 * sz, more, head.items)
    ensures more ==> 2 * sz < |orig|
  {
    hide Ready, Three, Runs, Pass, StableSorted, TotalPreorder, Merges;
    ghost var s := head.items;
    var nmerges := SortPass(cmp, head, la, lb, sz, pool);
    TakeOver(head, la, lb, pool);
    AfterPass(NotGreater(cmp), orig, sz, s);
    more := nmerges > 1;
  }

  lemma Singles<T>(le: (Elem<T>, Elem<T>) -> bool, head: Queue<T>)
    requires head.Valid()
    ensures Runs(le, head.items, 1, head.items)
  {
    SinglesAreRuns(le, head.items, 0);
    assert head.items[0..] == head.items;
  }

  /** What a pass achieves, and that it was the last one if it merged at most one pair. */
  lemma AfterPass<E>(le: (E, E) -> bool, orig: seq<E>, sz: nat, s: seq<E>)
    requires sz >= 1 && TotalPreorder(le, orig) && Runs(le, orig, sz, s) && multiset(s) == multiset(orig)
    ensures var r := Pass(le, sz, s);
            && Runs(le, orig, 2 * sz, r) && multiset(r) == multiset(orig) && |r| == |orig|
            && (Merges(sz, |s|) <= 1 ==> StableSorted(le, orig, r))
            && (Merges(sz, |s|) > 1 ==> 2 * sz < |orig|)
  {
    forall x | x in s
      ensures x in orig
    {
      assert x in multiset(s);
    }
    assert |multiset(s)| == |s| && |multiset(orig)| == |orig|;
    PassRuns(le, orig, sz, s);
    PassContents(le, sz, s);
    MergesMany(sz, |s|);
    if |s| <= 2 * sz {
      OneRun(le, orig, 2 * sz, Pass(le, sz, s));
    }
  }
}
