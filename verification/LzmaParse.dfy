// The parser's table in LzmaEnc.c: Backward turns the chain of back-links that ends at the
// chosen position, with its compressed forms, into forward links in place, and GetOptimum
// hands them out one by one.

module LzmaParses {
  import opened LzmaEncoders

  /** COptimal without prices and states. */
  datatype Optimal = Optimal(posPrev: nat, backPrev: nat, prev1IsChar: bool, prev2: bool, posPrev2: nat, backPrev2: nat)

  /** Links point strictly backwards; a flagged node stands for literal + rep0, perhaps after a match. */
  predicate Linked(o: Optimal, n: nat) {
    && o.posPrev < n
    && (o.prev1IsChar ==> o.posPrev >= 1 && (o.prev2 ==> o.posPrev2 < o.posPrev - 1))
  }

  predicate AllLinked(opts: seq<Optimal>, n: nat) {
    n < |opts| && forall i :: 1 <= i <= n ==> Linked(opts[i], i)
  }

  /** The choices on the way from 0 to position n. */
  function Steps(opts: seq<Optimal>, n: nat): seq<Decision>
    requires AllLinked(opts, n)
    decreases n, 1
  {
    if n == 0 then [] else StepsOf(opts, opts[n], n)
  }

  /** The same when `o` stands in for the node at n. */
  function StepsOf(opts: seq<Optimal>, o: Optimal, n: nat): seq<Decision>
    requires n >= 1 && AllLinked(opts, n - 1) && Linked(o, n)
    decreases n, 0, 1
  {
    Prior(opts, o, n) + [Decision(n - o.posPrev, o.backPrev)]
  }

  /** All but the last step: a flagged node has a literal there, and perhaps a match before it. */
  function Prior(opts: seq<Optimal>, o: Optimal, n: nat): seq<Decision>
    requires n >= 1 && AllLinked(opts, n - 1) && Linked(o, n)
    decreases n, 0, 0
  {
    if !o.prev1IsChar then Steps(opts, o.posPrev)
    else
      var q := o.posPrev - 1;
      (if o.prev2 then Steps(opts, o.posPrev2) + [Decision(q - o.posPrev2, o.backPrev2)] else Steps(opts, q))
      + [Decision(1, LITERAL_BACK)]
  }

  predicate Positive(steps: seq<Decision>) {
    forall i :: 0 <= i < |steps| ==> steps[i].len >= 1
  }

  function TotalLength(steps: seq<Decision>): nat {
    if steps == [] then 0 else TotalLength(steps[..|steps| - 1]) + steps[|steps| - 1].len
  }

  lemma TotalSnoc(steps: seq<Decision>, d: Decision)
    ensures TotalLength(steps + [d]) == TotalLength(steps) + d.len
  {
    assert (steps + [d])[..|steps|] == steps;
  }

  /** The steps to n are non-empty pieces of length n in all. */
  lemma {:induction false} StepsReach(opts: seq<Optimal>, n: nat)
    requires AllLinked(opts, n)
    ensures TotalLength(Steps(opts, n)) == n && Positive(Steps(opts, n))
    decreases n, 1
  {
    if n > 0 {
      PriorReaches(opts, opts[n], n);
      TotalSnoc(Prior(opts, opts[n], n), Decision(n - opts[n].posPrev, opts[n].backPrev));
    }
  }

  lemma {:induction false} PriorReaches(opts: seq<Optimal>, o: Optimal, n: nat)
    requires n >= 1 && AllLinked(opts, n - 1) && Linked(o, n)
    ensures TotalLength(Prior(opts, o, n)) == o.posPrev && Positive(Prior(opts, o, n))
    decreases n, 0
  {
    hide TotalLength;
    var q := o.posPrev - 1;
    if !o.prev1IsChar {
      StepsReach(opts, o.posPrev);
    } else if o.prev2 {
      var first := Steps(opts, o.posPrev2);
      StepsReach(opts, o.posPrev2);
      TotalSnoc(first, Decision(q - o.posPrev2, o.backPrev2));
      TotalSnoc(first + [Decision(q - o.posPrev2, o.backPrev2)], Decision(1, LITERAL_BACK));
    } else {
      StepsReach(opts, q);
      TotalSnoc(Steps(opts, q), Decision(1, LITERAL_BACK));
    }
  }

  /** Only the nodes up to n matter. */
  lemma {:induction false} StepsLocal(opts: seq<Optimal>, more: seq<Optimal>, n: nat)
    requires AllLinked(opts, n) && n < |more| && more[..n + 1] == opts[..n + 1]
    ensures AllLinked(more, n) && Steps(more, n) == Steps(opts, n)
    decreases n, 1
  {
    forall i | 0 <= i <= n
      ensures more[i] == opts[i]
    {
      assert more[i] == more[..n + 1][i] && opts[i] == opts[..n + 1][i];
    }
    if n > 0 {
      assert more[..n] == more[..n + 1][..n] == opts[..n];
      PriorLocal(opts, more, opts[n], n);
    }
  }

  lemma {:induction false} PriorLocal(opts: seq<Optimal>, more: seq<Optimal>, o: Optimal, n: nat)
    requires n >= 1 && AllLinked(opts, n - 1) && Linked(o, n) && n <= |more| && more[..n] == opts[..n]
    ensures AllLinked(more, n - 1) && Prior(more, o, n) == Prior(opts, o, n)
    decreases n, 0
  {
    var k := if !o.prev1IsChar then o.posPrev else if o.prev2 then o.posPrev2 else o.posPrev - 1;
    forall i | 0 <= i < n
      ensures more[i] == opts[i]
    {
      assert more[i] == more[..n][i] && opts[i] == opts[..n][i];
    }
    assert more[..k + 1] == more[..n][..k + 1] == opts[..k + 1];
    StepsLocal(opts, more, k);
  }

  lemma PlainStep(opts: seq<Optimal>, n: nat)
    requires 1 <= n < |opts| && !opts[n].prev1IsChar && opts[n].posPrev < n && AllLinked(opts, opts[n].posPrev)
    requires forall i :: opts[n].posPrev < i < n ==> Linked(opts[i], i)
    ensures AllLinked(opts, n)
    ensures Steps(opts, n) == Steps(opts, opts[n].posPrev) + [Decision(n - opts[n].posPrev, opts[n].backPrev)]
  {
    assert Prior(opts, opts[n], n) == Steps(opts, opts[n].posPrev);
  }

  /** Following forward links from `from` to `to` gives these choices. */
  ghost predicate Forward(opts: seq<Optimal>, from: nat, to: nat, steps: seq<Decision>)
    decreases |steps|
  {
    if steps == [] then from == to
    else
      && from < |opts| && from < opts[from].posPrev <= to
      && steps[0] == Decision(opts[from].posPrev - from, opts[from].backPrev)
      && Forward(opts, opts[from].posPrev, to, steps[1..])
  }

  /** Forward links are not disturbed by changes before them. */
  lemma {:induction false} ForwardLocal(opts: seq<Optimal>, more: seq<Optimal>, from: nat, to: nat, steps: seq<Decision>)
    requires Forward(opts, from, to, steps) && |more| == |opts|
    requires forall i :: from <= i < |opts| ==> more[i] == opts[i]
    ensures Forward(more, from, to, steps)
    decreases |steps|
  {
    if steps != [] {
      ForwardLocal(opts, more, opts[from].posPrev, to, steps[1..]);
    }
  }

  class Parser {
    const opt: array<Optimal>
    var optimumEndIndex: nat
    var optimumCurrentIndex: nat

    /** The choices still to be handed out. */
    ghost predicate Planned(steps: seq<Decision>)
      reads this, opt
    {
      Forward(opt[..], optimumCurrentIndex, optimumEndIndex, steps)
    }

    constructor (opt: array<Optimal>)
      ensures this.opt == opt && Planned([])
    {
      this.opt, optimumEndIndex, optimumCurrentIndex := opt, 0, 0;
    }

    /** Writes out the two compressed forms as nodes of their own. */
    method Expand(cur: nat, posMem: nat)
      requires cur < opt.Length && 1 <= cur && AllLinked(opt[..], cur - 1) && Linked(opt[cur].(posPrev := posMem), cur)
      modifies opt
      ensures AllLinked(opt[..], posMem) && forall i :: cur <= i < opt.Length ==> opt[i] == old(opt[i])
      ensures Steps(opt[..], posMem) == old(Prior(opt[..], opt[cur].(posPrev := posMem), cur))
    {
      ghost var was, o := opt[..], opt[cur].(posPrev := posMem);
      assert !o.prev1IsChar ==> Prior(was, o, cur) == Steps(was, posMem);
      if opt[cur].prev1IsChar {
        opt[posMem] := opt[posMem].(backPrev := LITERAL_BACK, prev1IsChar := false);
        opt[posMem] := opt[posMem].(posPrev := posMem - 1);
        if opt[cur].prev2 {
          opt[posMem - 1] := opt[posMem - 1].(prev1IsChar := false);
          opt[posMem - 1] := opt[posMem - 1].(posPrev := opt[cur].posPrev2);
          opt[posMem - 1] := opt[posMem - 1].(backPrev := opt[cur].backPrev2);
          StepsLocal(was, opt[..], o.posPrev2);
          PlainStep(opt[..], posMem - 1);
        } else {
          StepsLocal(was, opt[..], posMem - 1);
        }
        PlainStep(opt[..], posMem);
      }
    }

    /** Turns the link into posPrev around, and gives the one it had. */
    method Flip(posPrev: nat, cur: nat, backCur: nat, ghost end: nat, ghost done: seq<Decision>)
      returns (posMem: nat, backMem: nat)
      requires posPrev < cur <= end < opt.Length && AllLinked(opt[..], posPrev) && Forward(opt[..], cur, end, done)
      modifies opt
      ensures Forward(opt[..], posPrev, end, [Decision(cur - posPrev, backCur)] + done)
      ensures posPrev > 0 ==> AllLinked(opt[..], posPrev - 1) && Linked(opt[posPrev].(posPrev := posMem), posPrev)
                              && StepsOf(opt[..], opt[posPrev].(posPrev := posMem, backPrev := backMem), posPrev)
                                 == old(Steps(opt[..], posPrev))
    {
      hide Prior;
      ghost var was := opt[..];
      backMem := opt[posPrev].backPrev;
      posMem := opt[posPrev].posPrev;
      opt[posPrev] := opt[posPrev].(backPrev := backCur);
      opt[posPrev] := opt[posPrev].(posPrev := cur);
      ForwardLocal(was, opt[..], cur, end, done);
      if posPrev > 0 {
        assert opt[posPrev].(posPrev := posMem, backPrev := backMem) == was[posPrev];
        PriorLocal(was, opt[..], was[posPrev], posPrev);
      }
    }

    /** Backward: afterwards the links lead from 0 to cur by the steps that the back-links told. */
    method Backward(cur: nat) returns (len: nat, back: nat)
      requires 1 <= cur < opt.Length && AllLinked(opt[..], cur)
      modifies this, opt
      ensures var steps := Steps(old(opt[..]), cur);
              steps != [] && Decision(len, back) == steps[0] && Planned(steps[1..])
    {
      hide Prior, AllLinked;
      ghost var end, steps := cur, Steps(opt[..], cur);
      assert AllLinked(opt[..], cur - 1) && Linked(opt[..][cur], cur) by {
        AllButLast(opt[..], cur);
      }
      var i := cur;
      var posMem, backMem := opt[i].posPrev, opt[i].backPrev;
      optimumEndIndex := i;
      ghost var done: seq<Decision> := [];
      while true
        invariant 1 <= i <= end < opt.Length && AllLinked(opt[..], i - 1)
        invariant Linked(opt[i].(posPrev := posMem), i) && optimumEndIndex == end
        invariant StepsOf(opt[..], opt[i].(posPrev := posMem, backPrev := backMem), i) + done == steps
        invariant Forward(opt[..], i, end, done)
        decreases i
      {
        ghost var before := opt[..];
        Regroup(before, opt[i].(posPrev := posMem), backMem, i, done);
        Expand(i, posMem);
        ForwardLocal(before, opt[..], i, end, done);
        var posPrev, backCur := posMem, backMem;
        posMem, backMem := Flip(posPrev, i, backCur, end, done);
        done := [Decision(i - posPrev, backCur)] + done;
        i := posPrev;
        if i == 0 {
          break;
        }
      }
      back := opt[0].backPrev;
      optimumCurrentIndex := opt[0].posPrev;
      len := optimumCurrentIndex;
    }

    lemma Regroup(opts: seq<Optimal>, o: Optimal, back: nat, n: nat, done: seq<Decision>)
      requires n >= 1 && AllLinked(opts, n - 1) && Linked(o, n)
      ensures StepsOf(opts, o.(backPrev := back), n) + done == Prior(opts, o, n) + ([Decision(n - o.posPrev, back)] + done)
    {
      assert Prior(opts, o.(backPrev := back), n) == Prior(opts, o, n);
    }

    lemma AllButLast(opts: seq<Optimal>, n: nat)
      requires n >= 1 && AllLinked(opts, n)
      ensures AllLinked(opts, n - 1) && Linked(opts[n], n)
    {
    }

    /** The head of GetOptimum: while choices are left from the last plan, the next one. */
    method NextOptimum(ghost steps: seq<Decision>) returns (planned: bool, len: nat, back: nat)
      requires Planned(steps)
      modifies this`optimumCurrentIndex
      ensures planned <==> steps != []
      ensures if planned then Decision(len, back) == steps[0] && Planned(steps[1..]) else Planned(steps)
    {
      planned, len, back := optimumEndIndex != optimumCurrentIndex, 0, 0;
      if planned {
        len := opt[optimumCurrentIndex].posPrev - optimumCurrentIndex;
        back := opt[optimumCurrentIndex].backPrev;
        optimumCurrentIndex := opt[optimumCurrentIndex].posPrev;
      }
    }

    /** One plan handed out to its end: exactly the choices that the back-links told, in order. */
    method HandOut(cur: nat) returns (decisions: seq<Decision>)
      requires 1 <= cur < opt.Length && AllLinked(opt[..], cur)
      modifies this, opt
      ensures decisions == Steps(old(opt[..]), cur) && TotalLength(decisions) == cur && Positive(decisions)
      ensures Planned([])
    {
      hide Steps, AllLinked, TotalLength;
      StepsReach(opt[..], cur);
      ghost var steps := Steps(opt[..], cur);
      var len, back := Backward(cur);
      decisions := [Decision(len, back)];
      var planned;
      planned, len, back := NextOptimum(steps[1..]);
      while planned
        invariant |decisions| <= |steps| && decisions == steps[..|decisions|]
        invariant planned <==> |decisions| < |steps|
        invariant planned ==> Decision(len, back) == steps[|decisions|] && Planned(steps[|decisions| + 1..])
        invariant !planned ==> Planned([])
        decreases |steps| - |decisions|
      {
        decisions := decisions + [Decision(len, back)];
        planned, len, back := NextOptimum(steps[|decisions|..]);
      }
    }
  }
}
