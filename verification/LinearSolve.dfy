// Elimination on values: what one step of dgefa does to a vector, why a sequence of steps
// neither adds nor loses solutions, and the back substitution of a triangular system.

module LinearSolve {
  type Vec = seq<real>

  predicate Square(v: seq<Vec>, n: nat) {
    |v| == n && forall j :: 0 <= j < n ==> |v[j]| == n
  }

  /** Rows k and l of a vector change places. */
  function Swap(v: Vec, k: nat, l: nat): (r: Vec)
    requires k < |v| && l < |v|
    ensures |r| == |v|
  {
    v[k := v[l]][l := v[k]]
  }

  /** One elimination step: the interchange, and the multiples m[i] of row k added to the rows below. */
  function Eliminate(v: Vec, k: nat, l: nat, m: Vec): (r: Vec)
    requires k < |v| && l < |v| && |m| == |v|
    ensures |r| == |v|
    ensures forall i :: 0 <= i < |v| ==> r[i] == if i > k then Swap(v, k, l)[i] + Swap(v, k, l)[k] * m[i] else Swap(v, k, l)[i]
  {
    var s := Swap(v, k, l);
    seq(|v|, i requires 0 <= i < |v| => if i > k then s[i] + s[k] * m[i] else s[i])
  }

  predicate Pivots(p: seq<nat>, k: nat, n: nat) {
    k <= |p| && k <= n && forall j :: 0 <= j < k ==> j <= p[j] < n
  }

  /** The first k steps, with multipliers and pivots as dgefa leaves them. */
  function Steps(m: seq<Vec>, p: seq<nat>, k: nat, v: Vec): (r: Vec)
    requires Square(m, |v|) && Pivots(p, k, |v|)
    ensures |r| == |v|
  {
    if k == 0 then v else Eliminate(Steps(m, p, k - 1, v), k - 1, p[k - 1], m[k - 1])
  }

  /** Only the first k columns and pivots matter. */
  lemma {:induction false} StepsLocal(m: seq<Vec>, p: seq<nat>, m': seq<Vec>, p': seq<nat>, k: nat, v: Vec)
    requires Square(m, |v|) && Square(m', |v|) && Pivots(p, k, |v|) && Pivots(p', k, |v|)
    requires forall j :: 0 <= j < k ==> m[j] == m'[j] && p[j] == p'[j]
    ensures Steps(m, p, k, v) == Steps(m', p', k, v)
  {
    if k > 0 {
      StepsLocal(m, p, m', p', k - 1, v);
    }
  }

  /** A step can be undone. */
  lemma EliminateInjective(u: Vec, v: Vec, k: nat, l: nat, m: Vec)
    requires k < |u| == |v| == |m| && k <= l < |u|
    requires Eliminate(u, k, l, m) == Eliminate(v, k, l, m)
    ensures u == v
  {
    var s, t := Swap(u, k, l), Swap(v, k, l);
    assert s[k] == Eliminate(u, k, l, m)[k] == Eliminate(v, k, l, m)[k] == t[k];
    forall i | 0 <= i < |u|
      ensures s[i] == t[i]
    {
      assert Eliminate(u, k, l, m)[i] == Eliminate(v, k, l, m)[i];
    }
    forall i | 0 <= i < |u|
      ensures u[i] == v[i]
    {
      assert u[i] == s[if i == k then l else if i == l then k else i];
      assert v[i] == t[if i == k then l else if i == l then k else i];
    }
  }

  lemma {:induction false} StepsInjective(m: seq<Vec>, p: seq<nat>, k: nat, u: Vec, v: Vec)
    requires |u| == |v| && Square(m, |u|) && Pivots(p, k, |u|) && Steps(m, p, k, u) == Steps(m, p, k, v)
    ensures u == v
  {
    hide Eliminate;
    if k > 0 {
      EliminateInjective(Steps(m, p, k - 1, u), Steps(m, p, k - 1, v), k - 1, p[k - 1], m[k - 1]);
      StepsInjective(m, p, k - 1, u, v);
    }
  }

  // ----- products

  /** Row i of the columns from `from` on, times x. */
  function Tail(v: seq<Vec>, x: Vec, i: nat, from: nat): real
    requires Square(v, |x|) && i < |x| && from <= |x|
    decreases |x| - from
  {
    if from == |x| then 0.0 else x[from] * v[from][i] + Tail(v, x, i, from + 1)
  }

  /** The product of a matrix, given by columns, and a vector. */
  function Product(v: seq<Vec>, x: Vec): (r: Vec)
    requires Square(v, |x|)
    ensures |r| == |x|
  {
    seq(|x|, i requires 0 <= i < |x| => Tail(v, x, i, 0))
  }

  function EliminateAll(v: seq<Vec>, n: nat, k: nat, l: nat, m: Vec): (r: seq<Vec>)
    requires Square(v, n) && k < n && l < n && |m| == n
    ensures Square(r, n)
  {
    seq(n, j requires 0 <= j < n => Eliminate(v[j], k, l, m))
  }

  /** A step on every column is a step on the product, row by row. */
  lemma {:induction false} TailEliminated(v: seq<Vec>, x: Vec, k: nat, l: nat, m: Vec, i: nat, from: nat)
    requires Square(v, |x|) && k < |x| && l < |x| && |m| == |x| && i < |x| && from <= |x|
    ensures var w := EliminateAll(v, |x|, k, l, m);
            var row := if i == k then l else if i == l then k else i;
            Tail(w, x, i, from) == Tail(v, x, row, from) + if i > k then Tail(v, x, l, from) * m[i] else 0.0
    decreases |x| - from
  {
    hide Eliminate, EliminateAll;
    if from < |x| {
      var row := if i == k then l else if i == l then k else i;
      TailEliminated(v, x, k, l, m, i, from + 1);
      EntryEliminated(v, |x|, k, l, m, from, i);
      if i > k {
        Distribute(x[from], v[from][row], v[from][l], m[i], Tail(v, x, row, from + 1), Tail(v, x, l, from + 1));
      }
    } else {
      Distribute(0.0, 0.0, 0.0, m[i], 0.0, 0.0);
    }
  }

  lemma EntryEliminated(v: seq<Vec>, n: nat, k: nat, l: nat, m: Vec, j: nat, i: nat)
    requires Square(v, n) && k < n && l < n && |m| == n && j < n && i < n
    ensures var row := if i == k then l else if i == l then k else i;
            EliminateAll(v, n, k, l, m)[j][i] == if i > k then v[j][row] + v[j][l] * m[i] else v[j][row]
  {
  }

  lemma Distribute(x: real, a: real, b: real, m: real, s: real, t: real)
    ensures x * (a + b * m) + (s + t * m) == (x * a + s) + (x * b + t) * m
  {
    assert x * (a + b * m) == x * a + x * (b * m);
    assert x * (b * m) == (x * b) * m;
  }

  lemma EliminateProduct(v: seq<Vec>, x: Vec, k: nat, l: nat, m: Vec)
    requires Square(v, |x|) && k < |x| && k <= l < |x| && |m| == |x|
    ensures Product(EliminateAll(v, |x|, k, l, m), x) == Eliminate(Product(v, x), k, l, m)
  {
    hide Tail;
    var w := EliminateAll(v, |x|, k, l, m);
    forall i | 0 <= i < |x|
      ensures Product(w, x)[i] == Eliminate(Product(v, x), k, l, m)[i]
    {
      TailEliminated(v, x, k, l, m, i, 0);
      TailEliminated(v, x, k, l, m, k, 0);
    }
  }

  /** All columns after k steps. */
  function StepsAll(m: seq<Vec>, p: seq<nat>, k: nat, v: seq<Vec>, n: nat): (r: seq<Vec>)
    requires Square(m, n) && Pivots(p, k, n) && Square(v, n)
    ensures Square(r, n)
  {
    seq(n, j requires 0 <= j < n => Steps(m, p, k, v[j]))
  }

  /** The steps on every column are the steps on the product. */
  lemma {:induction false} StepsProduct(m: seq<Vec>, p: seq<nat>, k: nat, v: seq<Vec>, x: Vec)
    requires Square(m, |x|) && Pivots(p, k, |x|) && Square(v, |x|)
    ensures Product(StepsAll(m, p, k, v, |x|), x) == Steps(m, p, k, Product(v, x))
  {
    hide Eliminate, Product;
    if k == 0 {
      assert StepsAll(m, p, k, v, |x|) == v;
    } else {
      var w := StepsAll(m, p, k - 1, v, |x|);
      StepsProduct(m, p, k - 1, v, x);
      EliminateProduct(w, x, k - 1, p[k - 1], m[k - 1]);
      assert EliminateAll(w, |x|, k - 1, p[k - 1], m[k - 1]) == StepsAll(m, p, k, v, |x|);
    }
  }

  /** Eliminating matrix and right-hand side alike keeps exactly the solutions. */
  lemma SameSolutions(m: seq<Vec>, p: seq<nat>, k: nat, v: seq<Vec>, x: Vec, b: Vec)
    requires |b| == |x| && Square(m, |x|) && Pivots(p, k, |x|) && Square(v, |x|)
    ensures Product(StepsAll(m, p, k, v, |x|), x) == Steps(m, p, k, b) <==> Product(v, x) == b
  {
    StepsProduct(m, p, k, v, x);
    if Steps(m, p, k, Product(v, x)) == Steps(m, p, k, b) {
      StepsInjective(m, p, k, Product(v, x), b);
    }
  }

  // ----- back substitution

  predicate UpperTriangular(u: seq<Vec>, n: nat)
    requires Square(u, n)
  {
    forall j, i :: 0 <= j < i < n ==> u[j][i] == 0.0
  }

  lemma {:induction false} TailLocal(u: seq<Vec>, x: Vec, x': Vec, i: nat, from: nat)
    requires |x| == |x'| && Square(u, |x|) && i < |x| && from <= |x|
    requires forall j :: from <= j < |x| ==> x[j] == x'[j]
    ensures Tail(u, x, i, from) == Tail(u, x', i, from)
    decreases |x| - from
  {
    if from < |x| {
      TailLocal(u, x, x', i, from + 1);
    }
  }

  /** Entries from k on are solved for; those before it have the solved part taken off. */
  ghost predicate Solved(u: seq<Vec>, x: Vec, y: Vec, k: nat) {
    && |x| == |y| && Square(u, |x|) && k <= |x|
    && forall i :: 0 <= i < |x| ==> (if i < k then x[i] else 0.0) + Tail(u, x, i, k) == y[i]
  }

  /** One unknown more. */
  lemma BackStep(u: seq<Vec>, x: Vec, x': Vec, y: Vec, k: nat)
    requires Solved(u, x, y, k + 1) && |x'| == |x| && k < |x| && UpperTriangular(u, |x|) && u[k][k] != 0.0
    requires x'[k] == x[k] / u[k][k] && forall j :: k < j < |x| ==> x'[j] == x[j]
    requires forall i :: 0 <= i < k ==> x'[i] == x[i] + -x'[k] * u[k][i]
    ensures Solved(u, x', y, k)
  {
    hide Tail;
    forall i | 0 <= i < |x|
      ensures (if i < k then x'[i] else 0.0) + Tail(u, x', i, k) == y[i]
    {
      TailLocal(u, x, x', i, k + 1);
      TailUnfold(u, x', i, k);
      Cancel(x'[k], u[k][i], x[i]);
      assert x'[k] * u[k][k] == x[k];
      assert i > k ==> x'[k] * u[k][i] == 0.0;
    }
  }

  lemma TailUnfold(u: seq<Vec>, x: Vec, i: nat, k: nat)
    requires Square(u, |x|) && i < |x| && k < |x|
    ensures Tail(u, x, i, k) == x[k] * u[k][i] + Tail(u, x, i, k + 1)
  {
  }

  lemma Cancel(x: real, u: real, b: real)
    ensures (b + -x * u) + x * u == b
  {
  }

  lemma SolvedAll(u: seq<Vec>, x: Vec, y: Vec)
    requires Solved(u, x, y, 0)
    ensures Product(u, x) == y
  {
    forall i | 0 <= i < |x|
      ensures Product(u, x)[i] == y[i]
    {
    }
  }

  lemma {:induction false} SolvedNone(u: seq<Vec>, y: Vec)
    requires Square(u, |y|)
    ensures Solved(u, y, y, |y|)
  {
  }

  // ----- which systems have one solution

  function Zeros(n: nat): (r: Vec)
    ensures |r| == n && forall i :: 0 <= i < n ==> r[i] == 0.0
  {
    seq(n, i => 0.0)
  }

  /** Only the zero vector is taken to zero. */
  ghost predicate Nonsingular(v: seq<Vec>, n: nat)
    requires Square(v, n)
  {
    forall x: Vec :: |x| == n && Product(v, x) == Zeros(n) ==> x == Zeros(n)
  }

  lemma {:induction false} StepsOfZeros(m: seq<Vec>, p: seq<nat>, k: nat, n: nat)
    requires Square(m, n) && Pivots(p, k, n)
    ensures Steps(m, p, k, Zeros(n)) == Zeros(n)
  {
    if k > 0 {
      StepsOfZeros(m, p, k - 1, n);
      var s := Swap(Zeros(n), k - 1, p[k - 1]);
      assert forall i :: 0 <= i < n ==> s[i] == 0.0;
    }
  }

  /** The steps neither make a matrix singular nor cure it. */
  lemma StepsKeepSingular(m: seq<Vec>, p: seq<nat>, k: nat, v: seq<Vec>, n: nat)
    requires Square(m, n) && Pivots(p, k, n) && Square(v, n)
    ensures Nonsingular(v, n) <==> Nonsingular(StepsAll(m, p, k, v, n), n)
  {
    hide Product, Steps, StepsAll, Pivots, Nonsingular, SameAtZero;
    var w := StepsAll(m, p, k, v, n);
    forall x: Vec | |x| == n
      ensures SameAtZero(v, w, n, x)
    {
      KeptAtZero(m, p, k, v, n, x);
    }
    EqualKernels(v, w, n);
  }

  /** x is taken to zero by both matrices or by neither. */
  ghost predicate SameAtZero(v: seq<Vec>, w: seq<Vec>, n: nat, x: Vec)
    requires Square(v, n) && Square(w, n) && |x| == n
  {
    Product(v, x) == Zeros(n) <==> Product(w, x) == Zeros(n)
  }

  lemma KeptAtZero(m: seq<Vec>, p: seq<nat>, k: nat, v: seq<Vec>, n: nat, x: Vec)
    requires |x| == n && Square(m, n) && Pivots(p, k, n) && Square(v, n)
    ensures SameAtZero(v, StepsAll(m, p, k, v, n), n, x)
  {
    hide Product, Steps, StepsAll;
    StepsOfZeros(m, p, k, |x|);
    SameSolutions(m, p, k, v, x, Zeros(|x|));
  }

  /** Matrices that take the same vectors to zero are nonsingular together. */
  lemma EqualKernels(v: seq<Vec>, w: seq<Vec>, n: nat)
    requires Square(v, n) && Square(w, n) && forall x: Vec :: |x| == n ==> SameAtZero(v, w, n, x)
    ensures Nonsingular(v, n) <==> Nonsingular(w, n)
  {
    hide Product, Nonsingular, Square, SameAtZero;
    forall x: Vec | |x| == n
      ensures SameAtZero(w, v, n, x)
    {
      SameSwapped(v, w, n, x);
    }
    if Nonsingular(v, n) {
      SameKernel(v, w, n);
    }
    if Nonsingular(w, n) {
      SameKernel(w, v, n);
    }
  }

  lemma SameSwapped(v: seq<Vec>, w: seq<Vec>, n: nat, x: Vec)
    requires Square(v, n) && Square(w, n) && |x| == n
    ensures SameAtZero(v, w, n, x) <==> SameAtZero(w, v, n, x)
  {
  }

  lemma SameKernel(v: seq<Vec>, w: seq<Vec>, n: nat)
    requires Square(v, n) && Square(w, n) && Nonsingular(v, n)
    requires forall x: Vec :: |x| == n ==> SameAtZero(v, w, n, x)
    ensures Nonsingular(w, n)
  {
    hide Product, Square;
    forall x: Vec | |x| == n && Product(w, x) == Zeros(n)
      ensures x == Zeros(n)
    {
      assert SameAtZero(v, w, n, x);
    }
  }

  /** A row of an upper triangle starts at its diagonal entry. */
  lemma {:induction false} TailFromDiagonal(u: seq<Vec>, x: Vec, i: nat, from: nat)
    requires Square(u, |x|) && UpperTriangular(u, |x|) && from <= i < |x|
    ensures Tail(u, x, i, from) == Tail(u, x, i, i)
    decreases i - from
  {
    if from < i {
      TailFromDiagonal(u, x, i, from + 1);
      assert x[from] * u[from][i] == 0.0;
    }
  }

  lemma {:induction false} TailOfZeros(u: seq<Vec>, x: Vec, i: nat, from: nat)
    requires Square(u, |x|) && i < |x| && from <= |x| && forall j :: from <= j < |x| ==> x[j] == 0.0
    ensures Tail(u, x, i, from) == 0.0
    decreases |x| - from
  {
    if from < |x| {
      TailOfZeros(u, x, i, from + 1);
    }
  }

  /** Without a zero on the diagonal, a triangle takes only the zero vector to zero. */
  lemma {:induction false} OnlyZeros(u: seq<Vec>, x: Vec, k: nat)
    requires Square(u, |x|) && UpperTriangular(u, |x|) && k <= |x| && Product(u, x) == Zeros(|x|)
    requires forall c :: 0 <= c < |x| ==> u[c][c] != 0.0
    ensures forall j :: k <= j < |x| ==> x[j] == 0.0
    decreases |x| - k
  {
    hide Tail;
    if k < |x| {
      OnlyZeros(u, x, k + 1);
      assert Product(u, x)[k] == Tail(u, x, k, 0);
      TailFromDiagonal(u, x, k, 0);
      TailUnfold(u, x, k, k);
      TailOfZeros(u, x, k, k + 1);
      assert x[k] * u[k][k] == 0.0;
    }
  }

  /** Entry c is 1; the entries before it are chosen, from k on, to make their rows vanish. */
  function Kernel(u: seq<Vec>, n: nat, c: nat, k: nat): (x: Vec)
    requires Square(u, n) && k <= c < n && forall j :: 0 <= j < c ==> u[j][j] != 0.0
    ensures |x| == n && x[c] == 1.0
    decreases c - k
  {
    if k == c then Zeros(n)[c := 1.0]
    else
      var x := Kernel(u, n, c, k + 1);
      x[k := -Tail(u, x, k, k + 1) / u[k][k]]
  }

  lemma {:induction false} KernelVanishes(u: seq<Vec>, n: nat, c: nat, k: nat, i: nat)
    requires Square(u, n) && UpperTriangular(u, n) && k <= c < n && u[c][c] == 0.0 && k <= i < n
    requires forall j :: 0 <= j < c ==> u[j][j] != 0.0
    ensures Tail(u, Kernel(u, n, c, k), i, k) == 0.0
    decreases c - k
  {
    hide Tail;
    var x := Kernel(u, n, c, k);
    TailUnfold(u, x, i, k);
    if k == c {
      TailOfZeros(u, x, i, c + 1);
      assert x[c] * u[c][i] == 0.0;
    } else {
      var y := Kernel(u, n, c, k + 1);
      TailLocal(u, x, y, i, k + 1);
      if i > k {
        KernelVanishes(u, n, c, k + 1, i);
        assert x[k] * u[k][i] == 0.0;
      } else {
        assert x[k] * u[k][k] == -Tail(u, y, k, k + 1);
      }
    }
  }

  lemma FirstZero(u: seq<Vec>, n: nat, c: nat) returns (d: nat)
    requires Square(u, n) && c < n && u[c][c] == 0.0
    ensures d <= c && u[d][d] == 0.0 && forall j :: 0 <= j < d ==> u[j][j] != 0.0
  {
    d := 0;
    while u[d][d] != 0.0
      invariant d <= c && forall j :: 0 <= j < d ==> u[j][j] != 0.0
      decreases c - d
    {
      d := d + 1;
    }
  }

  /** A triangle is nonsingular exactly when there is no zero on its diagonal. */
  lemma TriangleNonsingular(u: seq<Vec>, n: nat)
    requires Square(u, n) && UpperTriangular(u, n)
    ensures Nonsingular(u, n) <==> forall c :: 0 <= c < n ==> u[c][c] != 0.0
  {
    hide Tail, Kernel;
    if c :| 0 <= c < n && u[c][c] == 0.0 {
      var d := FirstZero(u, n, c);
      var x := Kernel(u, n, d, 0);
      forall i | 0 <= i < n
        ensures Product(u, x)[i] == 0.0
      {
        KernelVanishes(u, n, d, 0, i);
      }
      assert Product(u, x) == Zeros(n);
    } else {
      forall x: Vec | |x| == n && Product(u, x) == Zeros(n)
        ensures x == Zeros(n)
      {
        OnlyZeros(u, x, 0);
      }
    }
  }

  // ----- a first column of zeros

  /** Without the first row and the first column. */
  function Minor(v: seq<Vec>, n: nat): (r: seq<Vec>)
    requires n >= 1 && Square(v, n)
    ensures Square(r, n - 1)
    ensures forall j, i :: 0 <= j < n - 1 && 0 <= i < n - 1 ==> r[j][i] == v[j + 1][i + 1]
  {
    seq(n - 1, j requires 0 <= j < n - 1 => v[j + 1][1..])
  }

  lemma {:induction false} TailMinor(v: seq<Vec>, y: Vec, i: nat, from: nat)
    requires Square(v, |y| + 1) && i < |y| && from <= |y|
    ensures Tail(Minor(v, |y| + 1), y, i, from) == Tail(v, [0.0] + y, i + 1, from + 1)
    decreases |y| - from
  {
    if from < |y| {
      TailMinor(v, y, i, from + 1);
    }
  }

  /** Rows but the first of a product, when the first unknown is zero. */
  lemma ProductMinor(v: seq<Vec>, y: Vec)
    requires Square(v, |y| + 1)
    ensures Product(Minor(v, |y| + 1), y) == Product(v, [0.0] + y)[1..]
  {
    hide Minor;
    var x := [0.0] + y;
    forall i | 0 <= i < |y|
      ensures Product(Minor(v, |y| + 1), y)[i] == Product(v, x)[1..][i]
    {
      TailMinor(v, y, i, 0);
      assert Product(v, x)[i + 1] == Tail(v, x, i + 1, 0) == x[0] * v[0][i + 1] + Tail(v, x, i + 1, 1);
    }
  }

  /** The first step does nothing: no interchange, and multipliers of zero. */
  predicate IdleFirst(m: seq<Vec>, p: seq<nat>, k: nat, n: nat)
    requires Square(m, n)
  {
    n >= 1 && (k > 0 ==> |p| >= 1 && p[0] == 0) && forall i :: 0 <= i < n ==> m[0][i] == 0.0
  }

  /** Then no step mixes the first row with the others. */
  lemma {:induction false} StepsBelow(m: seq<Vec>, p: seq<nat>, k: nat, v: Vec)
    requires Square(m, |v|) && Pivots(p, k, |v|) && IdleFirst(m, p, k, |v|)
    ensures Steps(m, p, k, v)[0] == v[0] && Steps(m, p, k, v[0 := 0.0])[1..] == Steps(m, p, k, v)[1..]
  {
    if k > 0 {
      StepsBelow(m, p, k - 1, v);
      var a, b := Steps(m, p, k - 1, v), Steps(m, p, k - 1, v[0 := 0.0]);
      if k == 1 {
        IdleStep(m[0], a);
        IdleStep(m[0], b);
      } else {
        StepBelow(a, b, k - 1, p[k - 1], m[k - 1]);
      }
    }
  }

  /** A later step leaves the first row alone and does not look at it. */
  lemma StepBelow(a: Vec, b: Vec, k: nat, l: nat, mult: Vec)
    requires 1 <= k < |a| == |b| == |mult| && k <= l < |a| && a[1..] == b[1..]
    ensures Eliminate(a, k, l, mult)[0] == a[0] && Eliminate(a, k, l, mult)[1..] == Eliminate(b, k, l, mult)[1..]
  {
    assert forall i :: 1 <= i < |a| ==> a[i] == a[1..][i - 1] == b[1..][i - 1] == b[i];
    var s, t := Swap(a, k, l), Swap(b, k, l);
    assert forall i :: 1 <= i < |a| ==> s[i] == t[i];
  }

  lemma IdleStep(mult: Vec, v: Vec)
    requires |mult| == |v| >= 1 && forall i :: 0 <= i < |v| ==> mult[i] == 0.0
    ensures Eliminate(v, 0, 0, mult) == v
  {
    forall i | 0 <= i < |v|
      ensures Eliminate(v, 0, 0, mult)[i] == v[i]
    {
      assert v[0] * mult[i] == 0.0;
    }
  }

  /** So they take zeros below the first row to zeros there, and nothing else. */
  lemma StepsZeroBelow(m: seq<Vec>, p: seq<nat>, k: nat, v: Vec)
    requires Square(m, |v|) && Pivots(p, k, |v|) && IdleFirst(m, p, k, |v|)
    ensures v[1..] == Zeros(|v| - 1) <==> Steps(m, p, k, v)[1..] == Zeros(|v| - 1)
  {
    hide Steps;
    var z := v[0 := 0.0];
    StepsBelow(m, p, k, v);
    StepsBelow(m, p, k, z);
    StepsOfZeros(m, p, k, |v|);
    assert z[0 := 0.0] == z;
    if v[1..] == Zeros(|v| - 1) {
      assert z == Zeros(|v|) by {
        assert forall i :: 1 <= i < |v| ==> v[i] == v[1..][i - 1];
      }
      assert Zeros(|v|)[1..] == Zeros(|v| - 1);
    }
    if Steps(m, p, k, v)[1..] == Zeros(|v| - 1) {
      var r := Steps(m, p, k, z);
      assert forall i :: 1 <= i < |v| ==> r[i] == r[1..][i - 1];
      assert r == Zeros(|v|);
      StepsInjective(m, p, k, z, Zeros(|v|));
      assert v[1..] == z[1..];
      assert Zeros(|v|)[1..] == Zeros(|v| - 1);
    }
  }

  /** With an idle first step, the steps neither make the rest of the matrix singular nor cure it. */
  lemma StepsKeepMinor(m: seq<Vec>, p: seq<nat>, k: nat, v: seq<Vec>, n: nat)
    requires n >= 1 && Square(m, n) && Pivots(p, k, n) && Square(v, n) && IdleFirst(m, p, k, n)
    ensures Nonsingular(Minor(v, n), n - 1) <==> Nonsingular(Minor(StepsAll(m, p, k, v, n), n), n - 1)
  {
    hide Product, Steps, StepsAll, Pivots, Nonsingular, Minor, SameAtZero, IdleFirst;
    var a, b := Minor(v, n), Minor(StepsAll(m, p, k, v, n), n);
    forall y: Vec | |y| == n - 1
      ensures SameAtZero(a, b, n - 1, y)
    {
      MinorAtZero(m, p, k, v, n, y);
    }
    EqualKernels(a, b, n - 1);
  }

  lemma MinorAtZero(m: seq<Vec>, p: seq<nat>, k: nat, v: seq<Vec>, n: nat, y: Vec)
    requires n >= 1 && |y| == n - 1 && Square(m, n) && Pivots(p, k, n) && Square(v, n) && IdleFirst(m, p, k, n)
    ensures SameAtZero(Minor(v, n), Minor(StepsAll(m, p, k, v, n), n), n - 1, y)
  {
    hide Product, Steps, StepsAll, Minor;
    var x := [0.0] + y;
    ProductMinor(v, y);
    ProductMinor(StepsAll(m, p, k, v, |x|), y);
    StepsProduct(m, p, k, v, x);
    StepsZeroBelow(m, p, k, Product(v, x));
  }
}
