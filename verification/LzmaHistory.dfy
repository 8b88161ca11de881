// What the state shared by coder and decoder tells of the symbols so far: the state number
// the kinds of the last ones, and the four distances the copies made last.

module LzmaHistories {
  import opened LzmaModel

  // ----- the state number

  /** How many literals came last. */
  function Trailing(syms: seq<Symbol>): (n: nat)
    ensures n <= |syms| && forall i :: |syms| - n <= i < |syms| ==> syms[i].Literal?
    ensures n < |syms| ==> !syms[|syms| - n - 1].Literal?
  {
    if syms == [] || !syms[|syms| - 1].Literal? then 0 else 1 + Trailing(syms[..|syms| - 1])
  }

  /** Symbol k and the one before it are both copies. */
  predicate TwoCopies(syms: seq<Symbol>, k: nat)
    requires k < |syms|
  {
    k > 0 && !syms[k - 1].Literal? && !syms[k].Literal?
  }

  /** A match, a repeat, or a single byte repeated; after a copy the last two are not told apart. */
  function KindOf(syms: seq<Symbol>, k: nat): nat
    requires k < |syms|
  {
    if syms[k].Match? then 0 else if syms[k].Rep? || TwoCopies(syms, k) then 1 else 2
  }

  /**
   * The state number tells the kind of the last copy, whether it came right after another
   * one, and how many literals have followed it, up to three.
   */
  lemma {:induction false} StateTells(syms: seq<Symbol>)
    requires Playable(START, syms)
    ensures var state, n := Run(START, syms).state, Trailing(syms);
            if n == |syms| || n >= 3 then state == 0
            else
              var k := |syms| - n - 1;
              match n
              case 0 => state == if TwoCopies(syms, k) then 10 + KindOf(syms, k) else 7 + KindOf(syms, k)
              case 1 => state == 4 + KindOf(syms, k)
              case 2 => state == 1 + KindOf(syms, k)
              case _ => true
  {
    hide Run, Playable;
    if syms == [] {
      RunNone();
    } else {
      RunLast(syms);
      StateTells(syms[..|syms| - 1]);
    }
  }

  // ----- the distances

  predicate NoTwo(s: seq<int>) {
    forall i, j :: 0 <= i < j < |s| ==> s[i] != s[j]
  }

  /** The place of an entry, or the end. */
  function Place(s: seq<int>, x: int): (i: nat)
    ensures i <= |s| && (i < |s| ==> s[i] == x) && (x in s <==> i < |s|)
  {
    if s == [] || s[0] == x then 0 else 1 + Place(s[1..], x)
  }

  /** Brought to the front, from wherever it was. */
  function Fronted(s: seq<int>, x: int): seq<int> {
    var i := Place(s, x);
    [x] + s[..i] + if i < |s| then s[i + 1..] else []
  }

  /** The entries used, each once. */
  function Newest(uses: seq<int>): seq<int> {
    if uses == [] then [] else Fronted(Newest(uses[..|uses| - 1]), uses[|uses| - 1])
  }

  lemma NewestSnoc(uses: seq<int>, x: int)
    ensures Newest([]) == [] && Newest(uses + [x]) == Fronted(Newest(uses), x)
  {
    assert (uses + [x])[..|uses|] == uses;
  }

  lemma FrontedShape(s: seq<int>, x: int)
    requires NoTwo(s)
    ensures |Fronted(s, x)| == (if Place(s, x) < |s| then |s| else |s| + 1) && Fronted(s, x)[0] == x
    ensures NoTwo(Fronted(s, x)) && forall y :: y in Fronted(s, x) <==> y == x || y in s
  {
    hide Place;
    var r, i := Fronted(s, x), Place(s, x);
    forall y | y in s && y != x
      ensures y in r
    {
      var j :| 0 <= j < |s| && s[j] == y;
      assert r[if j < i then j + 1 else j] == y;
    }
  }

  lemma FrontedAt(s: seq<int>, x: int, j: nat)
    requires 0 < j < |Fronted(s, x)|
    ensures |Fronted(s, x)| == (if Place(s, x) < |s| then |s| else |s| + 1)
    ensures Fronted(s, x)[j] == if j <= Place(s, x) then s[j - 1] else s[j]
  {
  }

  /** The place of the last use. */
  function LastUse(uses: seq<int>, x: int): (k: int)
    ensures -1 <= k < |uses| && (k >= 0 <==> x in uses) && (k >= 0 ==> uses[k] == x)
    ensures forall i :: k < i < |uses| ==> uses[i] != x
  {
    if uses == [] then -1 else if uses[|uses| - 1] == x then |uses| - 1 else LastUse(uses[..|uses| - 1], x)
  }

  lemma LastUseSnoc(uses: seq<int>, x: int, y: int)
    ensures LastUse(uses + [x], y) == if x == y then |uses| else LastUse(uses, y)
  {
    assert (uses + [x])[..|uses|] == uses;
  }

  lemma FrontedLater(uses: seq<int>, x: int, s: seq<int>, i: nat, j: nat)
    requires NoTwo(s) && i < j < |Fronted(s, x)| && forall y :: y in s ==> y in uses
    requires forall i, j :: 0 <= i < j < |s| ==> LastUse(uses, s[i]) > LastUse(uses, s[j])
    ensures LastUse(uses + [x], Fronted(s, x)[i]) > LastUse(uses + [x], Fronted(s, x)[j])
  {
    hide Fronted, LastUse, Place;
    FrontedShape(s, x);
    var r := Fronted(s, x);
    LastUseSnoc(uses, x, r[i]);
    LastUseSnoc(uses, x, r[j]);
    FrontedAt(s, x, j);
    if i > 0 {
      FrontedAt(s, x, i);
    }
  }

  /** They stand in the order of their last uses, the latest first. */
  lemma {:induction false} NewestOrder(uses: seq<int>)
    ensures NoTwo(Newest(uses)) && forall x :: x in Newest(uses) <==> x in uses
    ensures forall i, j :: 0 <= i < j < |Newest(uses)| ==> LastUse(uses, Newest(uses)[i]) > LastUse(uses, Newest(uses)[j])
  {
    hide Newest, Fronted, LastUse, Place;
    if uses == [] {
      NewestSnoc([], 0);
    } else {
      var before, x := uses[..|uses| - 1], uses[|uses| - 1];
      assert before + [x] == uses;
      NewestOrder(before);
      NewestSnoc(before, x);
      FrontedShape(Newest(before), x);
      forall i, j | 0 <= i < j < |Newest(uses)|
        ensures LastUse(uses, Newest(uses)[i]) > LastUse(uses, Newest(uses)[j])
      {
        FrontedLater(before, x, Newest(before), i, j);
      }
    }
  }

  function EntryAt(s: seq<int>, i: nat): int {
    if i < |s| then s[i] else 0
  }

  /** The match that the distance of a copy comes from; n symbols come before it. */
  function UsedBy(s: Symbol, n: nat, uses: seq<int>): int {
    match s
    case Rep(i, _) => EntryAt(Newest(uses), i)
    case ShortRep => EntryAt(Newest(uses), 0)
    case _ => n
  }

  /**
   * The copies so far, each told by the match that its distance comes from.  The four
   * distances of the start are -4 to -1.
   */
  function Uses(syms: seq<Symbol>): (uses: seq<int>) {
    if syms == [] then [-4, -3, -2, -1]
    else
      var n := |syms| - 1;
      var before := Uses(syms[..n]);
      if syms[n].Literal? then before else before + [UsedBy(syms[n], n, before)]
  }

  lemma {:induction false} UsesShape(syms: seq<Symbol>)
    ensures |Newest(Uses(syms))| >= 4 && NoTwo(Newest(Uses(syms)))
    ensures forall e :: e in Newest(Uses(syms)) ==> -4 <= e < |syms|
  {
    hide Newest, Fronted;
    if syms == [] {
      StartEntries();
    } else {
      var n := |syms| - 1;
      UsesShape(syms[..n]);
      if !syms[n].Literal? {
        var before := Uses(syms[..n]);
        NewestSnoc(before, UsedBy(syms[n], n, before));
        FrontedShape(Newest(before), UsedBy(syms[n], n, before));
      }
    }
  }

  lemma StartEntries()
    ensures Newest([-4, -3, -2, -1]) == [-1, -2, -3, -4]
  {
    hide Newest;
    NewestSnoc([], -4);
    NewestSnoc([-4], -3);
    NewestSnoc([-4, -3], -2);
    NewestSnoc([-4, -3, -2], -1);
    assert [] + [-4] == [-4] && [-4] + [-3] == [-4, -3];
    assert [-4, -3] + [-2] == [-4, -3, -2] && [-4, -3, -2] + [-1] == [-4, -3, -2, -1];
    assert Fronted([-3, -4], -2) == [-2, -3, -4];
    assert Fronted([-2, -3, -4], -1) == [-1, -2, -3, -4];
  }

  /** The distance of a match, and of the entries of the start. */
  function DistanceOf(syms: seq<Symbol>, e: int): nat {
    if 0 <= e < |syms| && syms[e].Match? then syms[e].distance else 0
  }

  /** The four distances kept are those of the four matches used last, the latest first. */
  lemma {:induction false} RepsTell(syms: seq<Symbol>)
    requires Playable(START, syms)
    ensures forall i :: 0 <= i < 4 ==> Run(START, syms).reps[i] == DistanceOf(syms, EntryAt(Newest(Uses(syms)), i))
  {
    hide Newest, Fronted;
    if syms == [] {
      StartEntries();
    } else {
      var n := |syms| - 1;
      RepsTell(syms[..n]);
      if !syms[n].Literal? {
        RepsStep(syms);
      }
    }
  }

  lemma RepsStep(syms: seq<Symbol>)
    requires Playable(START, syms) && syms != [] && !syms[|syms| - 1].Literal?
    requires var before := syms[..|syms| - 1];
             forall i :: 0 <= i < 4 ==> Run(START, before).reps[i] == DistanceOf(before, EntryAt(Newest(Uses(before)), i))
    ensures forall i :: 0 <= i < 4 ==> Run(START, syms).reps[i] == DistanceOf(syms, EntryAt(Newest(Uses(syms)), i))
  {
    hide Newest, Fronted, LastUse, Run, Playable, Place;
    var n := |syms| - 1;
    var before := Uses(syms[..n]);
    var s, used := Newest(before), UsedBy(syms[n], n, before);
    RunLast(syms);
    UsesShape(syms[..n]);
    NewestSnoc(before, used);
    FrontedShape(s, used);
    assert forall e :: e in s ==> DistanceOf(syms, e) == DistanceOf(syms[..n], e);
    assert Newest(Uses(syms)) == Fronted(s, used);
    var k := if syms[n].Match? then |s| else if syms[n].Rep? then syms[n].index else 0;
    assert Place(s, used) == k;
    forall i | 0 <= i < 4
      ensures Run(START, syms).reps[i] == DistanceOf(syms, EntryAt(Newest(Uses(syms)), i))
    {
      if i > 0 {
        FrontedAt(s, used, i);
      }
    }
  }

  lemma RunNone()
    ensures Playable(START, []) && Run(START, []) == START
  {
  }

  lemma RunLast(syms: seq<Symbol>)
    requires Playable(START, syms) && syms != []
    ensures var n := |syms| - 1;
            && Playable(START, syms[..n]) && ValidSymbol(syms[n]) && Refers(Run(START, syms[..n]), syms[n])
            && Run(START, syms) == Apply(Run(START, syms[..n]), syms[n])
  {
  }
}
