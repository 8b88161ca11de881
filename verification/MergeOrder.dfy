// Stable merging on sequences: what one pass of the bottom-up merge sort in queue.h makes of
// a list, and why the passes end with the list sorted and equal elements in their old order.

module MergeOrder {
  /** What the sort needs of cmp: any two elements of the list compare, and "not greater" is transitive. */
  ghost predicate TotalPreorder<E>(le: (E, E) -> bool, orig: seq<E>) {
    && (forall x, y :: x in orig && y in orig ==> le(x, y) || le(y, x))
    && forall x, y, z :: x in orig && y in orig && z in orig && le(x, y) && le(y, z) ==> le(x, z)
  }

  ghost predicate Within<E>(orig: seq<E>, s: seq<E>) {
    forall x :: x in s ==> x in orig
  }

  /** Where an element was at first. */
  function Rank<E(==)>(orig: seq<E>, x: E): (r: nat)
    ensures r <= |orig| && (x in orig ==> r < |orig| && orig[r] == x) && forall i :: 0 <= i < r ==> orig[i] != x
  {
    if orig == [] || orig[0] == x then 0 else 1 + Rank(orig[1..], x)
  }

  /** x belongs before y: it is smaller, or equal and was before it. */
  predicate Before<E(==)>(le: (E, E) -> bool, orig: seq<E>, x: E, y: E) {
    le(x, y) && (le(y, x) ==> Rank(orig, x) < Rank(orig, y))
  }

  ghost predicate StableSorted<E>(le: (E, E) -> bool, orig: seq<E>, s: seq<E>) {
    forall i, j :: 0 <= i < j < |s| ==> Before(le, orig, s[i], s[j])
  }

  /** Everything in p was before everything in q. */
  ghost predicate Earlier<E>(orig: seq<E>, p: seq<E>, q: seq<E>) {
    forall x, y :: x in p && y in q ==> Rank(orig, x) < Rank(orig, y)
  }

  function Merge<E>(le: (E, E) -> bool, p: seq<E>, q: seq<E>): (r: seq<E>)
    ensures |r| == |p| + |q|
    decreases |p| + |q|
  {
    if p == [] then q
    else if q == [] then p
    else if le(p[0], q[0]) then [p[0]] + Merge(le, p[1..], q)
    else [q[0]] + Merge(le, p, q[1..])
  }

  lemma MergeLeft<E>(le: (E, E) -> bool, a: seq<E>, b: seq<E>)
    requires a != [] && (b == [] || le(a[0], b[0]))
    ensures Merge(le, a, b) == [a[0]] + Merge(le, a[1..], b)
  {
    assert b == [] ==> a == [a[0]] + a[1..];
  }

  lemma MergeRight<E>(le: (E, E) -> bool, a: seq<E>, b: seq<E>)
    requires b != [] && (a == [] || !le(a[0], b[0]))
    ensures Merge(le, a, b) == [b[0]] + Merge(le, a, b[1..])
  {
    assert a == [] ==> b == [b[0]] + b[1..];
  }

  lemma MergeEnds<E>(le: (E, E) -> bool, p: seq<E>, q: seq<E>)
    ensures p == [] ==> Merge(le, p, q) == q
    ensures q == [] ==> Merge(le, p, q) == p
  {
  }

  lemma {:induction false} MergeContents<E>(le: (E, E) -> bool, p: seq<E>, q: seq<E>)
    ensures multiset(Merge(le, p, q)) == multiset(p) + multiset(q)
    decreases |p| + |q|
  {
    hide Merge;
    MergeEnds(le, p, q);
    if p != [] && q != [] {
      if le(p[0], q[0]) {
        MergeContents(le, p[1..], q);
        MergeLeft(le, p, q);
        assert p == [p[0]] + p[1..];
      } else {
        MergeContents(le, p, q[1..]);
        MergeRight(le, p, q);
        assert q == [q[0]] + q[1..];
      }
    }
  }

  lemma MergeMembers<E>(le: (E, E) -> bool, p: seq<E>, q: seq<E>, x: E)
    ensures x in Merge(le, p, q) <==> x in p || x in q
  {
    MergeContents(le, p, q);
    assert x in Merge(le, p, q) <==> x in multiset(Merge(le, p, q));
    assert x in p <==> x in multiset(p);
    assert x in q <==> x in multiset(q);
  }

  lemma SortedTail<E>(le: (E, E) -> bool, orig: seq<E>, s: seq<E>)
    requires s != [] && StableSorted(le, orig, s)
    ensures StableSorted(le, orig, s[1..]) && forall y :: y in s[1..] ==> Before(le, orig, s[0], y)
  {
  }

  lemma SortedCons<E>(le: (E, E) -> bool, orig: seq<E>, x: E, s: seq<E>)
    requires StableSorted(le, orig, s) && forall y :: y in s ==> Before(le, orig, x, y)
    ensures StableSorted(le, orig, [x] + s)
  {
    forall i, j | 0 <= i < j < |[x] + s|
      ensures Before(le, orig, ([x] + s)[i], ([x] + s)[j])
    {
      assert ([x] + s)[j] == s[j - 1];
    }
  }

  /** Merging keeps order and stability, because on a tie the earlier run goes first. */
  lemma {:induction false} MergeSorted<E>(le: (E, E) -> bool, orig: seq<E>, p: seq<E>, q: seq<E>)
    requires TotalPreorder(le, orig) && StableSorted(le, orig, p) && StableSorted(le, orig, q) && Earlier(orig, p, q)
    requires Within(orig, p) && Within(orig, q)
    ensures StableSorted(le, orig, Merge(le, p, q))
    decreases |p| + |q|
  {
    hide Rank;
    if p != [] && q != [] {
      SortedTail(le, orig, p);
      SortedTail(le, orig, q);
      if le(p[0], q[0]) {
        MergeSorted(le, orig, p[1..], q);
        forall y | y in Merge(le, p[1..], q)
          ensures Before(le, orig, p[0], y)
        {
          MergeMembers(le, p[1..], q, y);
          if y !in p[1..] {
            FollowsHead(le, orig, p[0], q, y);
          }
        }
        SortedCons(le, orig, p[0], Merge(le, p[1..], q));
      } else {
        MergeSorted(le, orig, p, q[1..]);
        forall y | y in Merge(le, p, q[1..])
          ensures Before(le, orig, q[0], y)
        {
          MergeMembers(le, p, q[1..], y);
          if y !in q[1..] {
            PrecedesHead(le, orig, p, q[0], y);
          }
        }
        SortedCons(le, orig, q[0], Merge(le, p, q[1..]));
      }
    }
  }

  lemma FollowsHead<E>(le: (E, E) -> bool, orig: seq<E>, x: E, q: seq<E>, y: E)
    requires TotalPreorder(le, orig) && q != [] && StableSorted(le, orig, q) && y in q
    requires le(x, q[0]) && Rank(orig, x) < Rank(orig, y) && x in orig && Within(orig, q)
    ensures Before(le, orig, x, y)
  {
    hide Rank;
    var j :| 0 <= j < |q| && q[j] == y;
    if j > 0 {
      assert Before(le, orig, q[0], q[j]);
    }
  }

  lemma PrecedesHead<E>(le: (E, E) -> bool, orig: seq<E>, p: seq<E>, x: E, y: E)
    requires TotalPreorder(le, orig) && p != [] && StableSorted(le, orig, p) && y in p && !le(p[0], x)
    requires x in orig && Within(orig, p)
    ensures Before(le, orig, x, y)
  {
    hide Rank;
    var j :| 0 <= j < |p| && p[j] == y;
    if j > 0 {
      assert Before(le, orig, p[0], p[j]);
    }
    assert le(x, p[0]) && le(p[0], y);
  }

  // ----- passes

  function Min(a: nat, b: nat): nat { if a < b then a else b }

  /** One pass: neighbouring runs of sz elements merged in pairs. */
  function Pass<E>(le: (E, E) -> bool, sz: nat, s: seq<E>): (r: seq<E>)
    requires sz >= 1
    ensures |r| == |s|
    decreases |s|
  {
    if s == [] then []
    else
      var a, b := Min(sz, |s|), Min(2 * sz, |s|);
      Merge(le, s[..a], s[a..b]) + Pass(le, sz, s[b..])
  }

  /** How many pairs of runs there are. */
  function Merges(sz: nat, n: nat): nat
    requires sz >= 1
  {
    if n == 0 then 0 else 1 + Merges(sz, n - Min(2 * sz, n))
  }

  /** Runs of sz elements, each stably sorted, and each made of elements before those of the next. */
  ghost predicate Runs<E>(le: (E, E) -> bool, orig: seq<E>, sz: nat, s: seq<E>)
    requires sz >= 1
    decreases |s|
  {
    s == [] ||
    var a := Min(sz, |s|);
    StableSorted(le, orig, s[..a]) && Earlier(orig, s[..a], s[a..]) && Runs(le, orig, sz, s[a..])
  }

  lemma {:induction false} PassContents<E>(le: (E, E) -> bool, sz: nat, s: seq<E>)
    requires sz >= 1
    ensures multiset(Pass(le, sz, s)) == multiset(s)
    decreases |s|
  {
    hide Merge;
    if s != [] {
      var a, b := Min(sz, |s|), Min(2 * sz, |s|);
      MergeContents(le, s[..a], s[a..b]);
      PassContents(le, sz, s[b..]);
      ThreeParts(s, a, b);
    }
  }

  lemma ThreeParts<E>(s: seq<E>, a: nat, b: nat)
    requires a <= b <= |s|
    ensures multiset(s) == multiset(s[..a]) + multiset(s[a..b]) + multiset(s[b..])
  {
    assert s == (s[..a] + s[a..b]) + s[b..];
  }

  lemma EarlierSame<E>(orig: seq<E>, p: seq<E>, q: seq<E>, p': seq<E>, q': seq<E>)
    requires Earlier(orig, p, q) && multiset(p') == multiset(p) && multiset(q') == multiset(q)
    ensures Earlier(orig, p', q')
  {
    forall x, y | x in p' && y in q'
      ensures Rank(orig, x) < Rank(orig, y)
    {
      assert x in multiset(p') && y in multiset(q');
      assert x in multiset(p) && y in multiset(q);
    }
  }

  /** A pass makes runs of twice the size. */
  lemma {:induction false} PassRuns<E>(le: (E, E) -> bool, orig: seq<E>, sz: nat, s: seq<E>)
    requires TotalPreorder(le, orig) && sz >= 1 && Runs(le, orig, sz, s) && Within(orig, s)
    ensures Runs(le, orig, 2 * sz, Pass(le, sz, s))
    decreases |s|
  {
    hide StableSorted, Merge, Rank, Pass;
    if s == [] {
      PassOnce(le, sz, s);
    } else {
      var a, b := Min(sz, |s|), Min(2 * sz, |s|);
      var p, rest := s[..a], s[a..];
      var q, tail := rest[..b - a], rest[b - a..];
      assert s[a..b] == q && s[b..] == tail;
      PassOnce(le, sz, s);
      SecondRun(le, orig, sz, rest, b - a);
      assert Earlier(orig, p, q) && Earlier(orig, p, tail);
      MergeSorted(le, orig, p, q);
      MergeContents(le, p, q);
      PassContents(le, sz, tail);
      PassRuns(le, orig, sz, tail);
      var m, t, r := Merge(le, p, q), Pass(le, sz, tail), Pass(le, sz, s);
      assert Min(2 * sz, |r|) == b && r[..b] == m && r[b..] == t;
      assert Earlier(orig, p + q, tail);
      EarlierSame(orig, p + q, tail, m, t);
    }
  }

  lemma PassOnce<E>(le: (E, E) -> bool, sz: nat, s: seq<E>)
    requires sz >= 1
    ensures s == [] ==> Pass(le, sz, s) == []
    ensures var a, b := Min(sz, |s|), Min(2 * sz, |s|);
            s != [] ==> Pass(le, sz, s) == Merge(le, s[..a], s[a..b]) + Pass(le, sz, s[b..])
  {
  }

  /** The run after the first, cut off from the rest. */
  lemma SecondRun<E>(le: (E, E) -> bool, orig: seq<E>, sz: nat, rest: seq<E>, n: nat)
    requires sz >= 1 && Runs(le, orig, sz, rest) && n == Min(sz, |rest|)
    ensures StableSorted(le, orig, rest[..n]) && Earlier(orig, rest[..n], rest[n..]) && Runs(le, orig, sz, rest[n..])
  {
    if rest == [] {
      assert rest[..n] == [] && rest[n..] == [];
    }
  }

  /** Single elements are runs. */
  lemma {:induction false} SinglesAreRuns<E>(le: (E, E) -> bool, orig: seq<E>, k: nat)
    requires k <= |orig| && forall i, j :: 0 <= i < j < |orig| ==> orig[i] != orig[j]
    ensures Runs(le, orig, 1, orig[k..])
    decreases |orig| - k
  {
    if k < |orig| {
      SinglesAreRuns(le, orig, k + 1);
      var s := orig[k..];
      assert s[1..] == orig[k + 1..];
      forall x, y | x in s[..1] && y in s[1..]
        ensures Rank(orig, x) < Rank(orig, y)
      {
        var j :| k + 1 <= j < |orig| && orig[j] == y;
        assert x == orig[k];
      }
    }
  }

  /** When one run covers everything, everything is sorted. */
  lemma OneRun<E>(le: (E, E) -> bool, orig: seq<E>, sz: nat, s: seq<E>)
    requires sz >= 1 && Runs(le, orig, sz, s) && |s| <= sz
    ensures StableSorted(le, orig, s)
  {
    if s != [] {
      assert s[..|s|] == s;
    }
  }

  lemma MergesMany(sz: nat, n: nat)
    requires sz >= 1
    ensures Merges(sz, n) <= 1 <==> n <= 2 * sz
  {
    if n > 2 * sz {
      assert n - 2 * sz > 0;
    }
  }
}
