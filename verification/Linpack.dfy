// linpack.c: LU factorization with partial pivoting in place (dgefa) and the solution of a
// system from the factors (dgesl with job 0), over exact reals.  As the source explains,
// a[j][i] is column j, row i; it is a matrix of n columns of lda >= n entries.

module Linpack {
  import opened LinearSolve

  function Abs(x: real): real { if x < 0.0 then -x else x }

  ghost predicate Sized(a: array2<real>, n: nat) {
    a.Length0 == n && a.Length1 >= n
  }

  ghost function Column(a: array2<real>, n: nat, j: nat): (r: Vec)
    requires Sized(a, n) && j < n
    reads a
    ensures |r| == n && forall i :: 0 <= i < n ==> r[i] == a[j, i]
  {
    seq(n, i requires 0 <= i < n && Sized(a, n) && j < n reads a => a[j, i])
  }

  ghost function Columns(a: array2<real>, n: nat): (r: seq<Vec>)
    requires Sized(a, n)
    reads a
    ensures Square(r, n) && forall j :: 0 <= j < n ==> r[j] == Column(a, n, j)
  {
    seq(n, j requires 0 <= j < n && Sized(a, n) reads a => Column(a, n, j))
  }

  // ----- what the array holds after k steps

  /** A column with zeros below the diagonal. */
  function Upper(c: Vec, j: nat): (r: Vec)
    ensures |r| == |c| && forall i :: 0 <= i < |c| ==> r[i] == if i <= j then c[i] else 0.0
  {
    seq(|c|, i requires 0 <= i < |c| => if i <= j then c[i] else 0.0)
  }

  /** Column j as eliminated so far: finished columns hold multipliers where the zeros belong. */
  function Reduced(m: seq<Vec>, k: nat, j: nat): Vec
    requires j < |m|
  {
    if j < k then Upper(m[j], j) else m[j]
  }

  ghost predicate Bounded(m: seq<Vec>, n: nat, k: nat)
    requires Square(m, n)
  {
    forall j, i :: 0 <= j < k && j < i < n ==> Abs(m[j][i]) <= 1.0
  }

  /** k steps with the stored multipliers turn the original columns v into the stored ones. */
  ghost predicate Factored(v: seq<Vec>, m: seq<Vec>, p: seq<nat>, k: nat, n: nat) {
    && Square(v, n) && Square(m, n) && Pivots(p, k, n) && k <= n
    && (forall j :: 0 <= j < n ==> Steps(m, p, k, v[j]) == Reduced(m, k, j))
    && Bounded(m, n, k)
  }

  /** One more step. */
  lemma StepDone(v: seq<Vec>, m: seq<Vec>, p: seq<nat>, m': seq<Vec>, p': seq<nat>, k: nat, n: nat)
    requires Factored(v, m, p, k, n) && k < n && Square(m', n) && Pivots(p', k + 1, n)
    requires forall j :: 0 <= j < k ==> m'[j] == m[j] && p'[j] == p[j]
    requires forall j :: k <= j < n ==> Eliminate(m[j], k, p'[k], m'[k]) == Reduced(m', k + 1, j)
    requires forall i :: k < i < n ==> Abs(m'[k][i]) <= 1.0
    ensures Factored(v, m', p', k + 1, n)
  {
    hide Abs;
    forall j | 0 <= j < n
      ensures Steps(m', p', k + 1, v[j]) == Reduced(m', k + 1, j)
    {
      StepsLocal(m, p, m', p', k, v[j]);
      assert Steps(m, p, k, v[j]) == Reduced(m, k, j);
      if j < k {
        Untouched(m[j], j, k, p'[k], m'[k]);
      }
    }
  }

  /** A finished column has zeros in the rows of the step. */
  lemma Untouched(c: Vec, j: nat, k: nat, l: nat, mult: Vec)
    requires j < k < |c| && k <= l < |c| && |mult| == |c|
    ensures Eliminate(Upper(c, j), k, l, mult) == Upper(c, j)
  {
  }

  // ----- the basic vector operations, with unit increments

  /** idamax on n entries of column k from row `from` on: the first of largest absolute value. */
  method Idamax(n: int, a: array2<real>, k: nat, from: nat) returns (itemp: int)
    requires k < a.Length0 && from + n <= a.Length1
    ensures n < 1 ==> itemp == -1
    ensures n >= 1 ==> 0 <= itemp < n
    ensures forall r :: from <= r < from + n ==> Abs(a[k, r]) <= Abs(a[k, from + itemp])
    ensures forall r :: from <= r < from + itemp ==> Abs(a[k, r]) < Abs(a[k, from + itemp])
  {
    if n < 1 {
      return -1;
    }
    if n == 1 {
      return 0;
    }
    itemp := 0;
    var dmax := Abs(a[k, from]);
    for i := 1 to n
      invariant 0 <= itemp < i && dmax == Abs(a[k, from + itemp])
      invariant forall r :: from <= r < from + i ==> Abs(a[k, r]) <= dmax
      invariant forall r :: from <= r < from + itemp ==> Abs(a[k, r]) < dmax
    {
      if Abs(a[k, from + i]) > dmax {
        itemp := i;
        dmax := Abs(a[k, from + i]);
      }
    }
  }

  function Scaled(da: real, x: real): real { da * x }

  function Added(y: real, da: real, x: real): real { y + da * x }

  lemma AddedNothing()
    ensures forall y, x :: Added(y, 0.0, x) == y
  {
  }

  /** n entries of column k from row `from` on, scaled by da; `roll` selects one of two equal loops. */
  method Dscal(n: int, da: real, a: array2<real>, k: nat, from: nat, roll: bool)
    requires k < a.Length0 && from + n <= a.Length1
    modifies a
    ensures forall c, r :: 0 <= c < a.Length0 && 0 <= r < a.Length1 ==>
              a[c, r] == if c == k && from <= r < from + n then Scaled(da, old(a[c, r])) else old(a[c, r])
  {
    hide Scaled;
    if n <= 0 {
      return;
    }
    var m := if roll then n else n % 5;
    var i := 0;
    while i < m
      invariant 0 <= i <= m
      invariant forall c, r :: 0 <= c < a.Length0 && 0 <= r < a.Length1 ==>
                  a[c, r] == if c == k && from <= r < from + i then Scaled(da, old(a[c, r])) else old(a[c, r])
    {
      a[k, from + i] := Scaled(da, a[k, from + i]);
      i := i + 1;
    }
    while i < n
      invariant m <= i <= n && (n - i) % 5 == 0
      invariant forall c, r :: 0 <= c < a.Length0 && 0 <= r < a.Length1 ==>
                  a[c, r] == if c == k && from <= r < from + i then Scaled(da, old(a[c, r])) else old(a[c, r])
    {
      a[k, from + i] := Scaled(da, a[k, from + i]);
      a[k, from + i + 1] := Scaled(da, a[k, from + i + 1]);
      a[k, from + i + 2] := Scaled(da, a[k, from + i + 2]);
      a[k, from + i + 3] := Scaled(da, a[k, from + i + 3]);
      a[k, from + i + 4] := Scaled(da, a[k, from + i + 4]);
      i := i + 5;
    }
  }

  /** da times column k added to column j, from row `from` on. */
  method DaxpyColumn(n: int, da: real, a: array2<real>, k: nat, j: nat, from: nat, roll: bool)
    requires k < a.Length0 && j < a.Length0 && k != j && from + n <= a.Length1
    modifies a
    ensures forall c, r :: 0 <= c < a.Length0 && 0 <= r < a.Length1 ==>
              a[c, r] == if c == j && from <= r < from + n then Added(old(a[j, r]), da, old(a[k, r])) else old(a[c, r])
  {
    AddedNothing();
    hide Added;
    if n <= 0 || da == 0.0 {
      return;
    }
    var m := if roll then n else n % 4;
    var i := 0;
    while i < m
      invariant 0 <= i <= m
      invariant forall c, r :: 0 <= c < a.Length0 && 0 <= r < a.Length1 ==>
                  a[c, r] == if c == j && from <= r < from + i then Added(old(a[j, r]), da, old(a[k, r])) else old(a[c, r])
    {
      a[j, from + i] := Added(a[j, from + i], da, a[k, from + i]);
      i := i + 1;
    }
    while i < n
      invariant m <= i <= n && (n - i) % 4 == 0
      invariant forall c, r :: 0 <= c < a.Length0 && 0 <= r < a.Length1 ==>
                  a[c, r] == if c == j && from <= r < from + i then Added(old(a[j, r]), da, old(a[k, r])) else old(a[c, r])
    {
      a[j, from + i] := Added(a[j, from + i], da, a[k, from + i]);
      a[j, from + i + 1] := Added(a[j, from + i + 1], da, a[k, from + i + 1]);
      a[j, from + i + 2] := Added(a[j, from + i + 2], da, a[k, from + i + 2]);
      a[j, from + i + 3] := Added(a[j, from + i + 3], da, a[k, from + i + 3]);
      i := i + 4;
    }
  }

  /** da times column k of the matrix added to the vector b, from row `from` on. */
  method DaxpyVector(n: int, da: real, a: array2<real>, k: nat, b: array<real>, from: nat, roll: bool)
    requires k < a.Length0 && from + n <= a.Length1 && from + n <= b.Length
    modifies b
    ensures forall r :: 0 <= r < b.Length ==>
              b[r] == if from <= r < from + n then Added(old(b[r]), da, a[k, r]) else old(b[r])
  {
    AddedNothing();
    hide Added;
    if n <= 0 || da == 0.0 {
      return;
    }
    var m := if roll then n else n % 4;
    var i := 0;
    while i < m
      invariant 0 <= i <= m
      invariant forall r :: 0 <= r < b.Length ==>
                  b[r] == if from <= r < from + i then Added(old(b[r]), da, a[k, r]) else old(b[r])
    {
      b[from + i] := Added(b[from + i], da, a[k, from + i]);
      i := i + 1;
    }
    while i < n
      invariant m <= i <= n && (n - i) % 4 == 0
      invariant forall r :: 0 <= r < b.Length ==>
                  b[r] == if from <= r < from + i then Added(old(b[r]), da, a[k, r]) else old(b[r])
    {
      b[from + i] := Added(b[from + i], da, a[k, from + i]);
      b[from + i + 1] := Added(b[from + i + 1], da, a[k, from + i + 1]);
      b[from + i + 2] := Added(b[from + i + 2], da, a[k, from + i + 2]);
      b[from + i + 3] := Added(b[from + i + 3], da, a[k, from + i + 3]);
      i := i + 4;
    }
  }

  // ----- factorization

  /** The multiplier of a row clears its entry, and is at most 1 in size under partial pivoting. */
  lemma Clears(pivot: real, x: real)
    requires pivot != 0.0
    ensures x + pivot * Scaled(-1.0 / pivot, x) == 0.0
    ensures Abs(x) <= Abs(pivot) ==> Abs(Scaled(-1.0 / pivot, x)) <= 1.0
  {
    var t := -1.0 / pivot;
    var u := t * x;
    assert pivot * t == -1.0;
    assert pivot * (t * x) == (pivot * t) * x;
    if Abs(x) <= Abs(pivot) {
      if u > 1.0 {
        LargerProduct(u, pivot);
      } else if u < -1.0 {
        LargerProduct(-u, pivot);
        assert pivot * -u == -(pivot * u);
      }
    }
  }

  lemma LargerProduct(u: real, p: real)
    requires u > 1.0 && p != 0.0
    ensures Abs(p * u) > Abs(p)
  {
    if p > 0.0 {
      assert p * u > p * 1.0;
    } else {
      assert (-p) * u > (-p) * 1.0;
      assert (-p) * u == -(p * u);
    }
  }

  /** A column of interchanged entries and multipliers is what the step makes of the pivot column. */
  lemma PivotSpec(c0: Vec, k: nat, l: nat, c1: Vec)
    requires k <= l < |c0| == |c1| && c0[l] != 0.0
    requires forall r :: k <= r < |c0| ==> Abs(c0[r]) <= Abs(c0[l])
    requires forall i :: 0 <= i < |c0| ==>
               c1[i] == if i > k then Scaled(-1.0 / c0[l], Swap(c0, k, l)[i]) else Swap(c0, k, l)[i]
    ensures Eliminate(c0, k, l, c1) == Upper(c1, k)
    ensures forall i :: k < i < |c1| ==> Abs(c1[i]) <= 1.0
  {
    hide Scaled, Abs;
    var s := Swap(c0, k, l);
    forall i | 0 <= i < |c0|
      ensures Eliminate(c0, k, l, c1)[i] == Upper(c1, k)[i] && (i > k ==> Abs(c1[i]) <= 1.0)
    {
      if i > k {
        Clears(s[k], s[i]);
      }
    }
  }

  /** Interchange in the pivot column, and the multipliers below the diagonal. */
  method PivotColumn(a: array2<real>, n: nat, k: nat, l: nat, roll: bool)
    requires Sized(a, n) && k <= l < n && a[k, l] != 0.0
    requires forall r :: k <= r < n ==> Abs(a[k, r]) <= Abs(a[k, l])
    modifies a
    ensures forall c, r :: 0 <= c < n && 0 <= r < a.Length1 && c != k ==> a[c, r] == old(a[c, r])
    ensures Eliminate(old(Column(a, n, k)), k, l, Column(a, n, k)) == Upper(Column(a, n, k), k)
    ensures forall i :: k < i < n ==> Abs(a[k, i]) <= 1.0
    ensures a[k, k] != 0.0
  {
    hide Scaled, Abs, Eliminate, Upper;
    ghost var c0 := Column(a, n, k);
    if l != k {
      var t := a[k, l];
      a[k, l] := a[k, k];
      a[k, k] := t;
    }
    assert forall r :: 0 <= r < n ==> a[k, r] == Swap(c0, k, l)[r];
    var t := -1.0 / a[k, k];
    Dscal(n - (k + 1), t, a, k, k + 1, roll);
    PivotSpec(c0, k, l, Column(a, n, k));
  }

  /** The same step on a column to the right: interchange, and the multiples added. */
  method EliminateColumn(a: array2<real>, n: nat, k: nat, l: nat, j: nat, roll: bool)
    requires Sized(a, n) && k <= l < n && k < j < n
    modifies a
    ensures forall c, r :: 0 <= c < n && 0 <= r < a.Length1 && c != j ==> a[c, r] == old(a[c, r])
    ensures Column(a, n, j) == Eliminate(old(Column(a, n, j)), k, l, old(Column(a, n, k)))
  {
    hide Added, Eliminate;
    ghost var c0 := Column(a, n, j);
    ghost var s := Swap(c0, k, l);
    var t := a[j, l];
    if l != k {
      a[j, l] := a[j, k];
      a[j, k] := t;
    }
    assert t == s[k];
    assert forall r :: 0 <= r < n ==> a[j, r] == s[r];
    DaxpyColumn(n - (k + 1), t, a, k, j, k + 1, roll);
    ColumnSpec(c0, k, l, old(Column(a, n, k)), Column(a, n, j));
  }

  /** A column of interchanged entries with the multiples added is what the step makes of it. */
  lemma ColumnSpec(c0: Vec, k: nat, l: nat, m: Vec, c1: Vec)
    requires k <= l < |c0| == |c1| == |m|
    requires forall i :: 0 <= i < |c0| ==>
               c1[i] == if i > k then Added(Swap(c0, k, l)[i], Swap(c0, k, l)[k], m[i]) else Swap(c0, k, l)[i]
    ensures c1 == Eliminate(c0, k, l, m)
  {
  }

  /** Where dgefa reports a zero on the diagonal: the last one, or 0 if there is none. */
  ghost predicate Reports(a: array2<real>, k: nat, info: int)
    requires k <= a.Length0 && k <= a.Length1
    reads a
  {
    && (info == 0 || (0 < info < k && a[info, info] == 0.0))
    && forall c :: info < c < k ==> a[c, c] != 0.0
  }

  /** The diagonal that dgesl divides by. */
  ghost predicate NonZeroDiagonal(a: array2<real>, n: nat)
    requires Sized(a, n)
    reads a
  {
    forall c :: 0 <= c < n ==> a[c, c] != 0.0
  }

  /** Rows eliminated with column k as pivot column, column by column. */
  method EliminateColumns(a: array2<real>, n: nat, k: nat, l: nat, roll: bool)
    requires Sized(a, n) && k <= l < n && a[k, l] != 0.0
    requires forall r :: k <= r < n ==> Abs(a[k, r]) <= Abs(a[k, l])
    modifies a
    ensures forall c, r :: 0 <= c < k && 0 <= r < a.Length1 ==> a[c, r] == old(a[c, r])
    ensures forall c :: 0 <= c < k ==> Column(a, n, c) == old(Columns(a, n))[c]
    ensures Eliminate(old(Column(a, n, k)), k, l, Column(a, n, k)) == Upper(Column(a, n, k), k)
    ensures forall c :: k < c < n ==> Column(a, n, c) == Eliminate(old(Columns(a, n))[c], k, l, Column(a, n, k))
    ensures forall i :: k < i < n ==> Abs(a[k, i]) <= 1.0
    ensures a[k, k] != 0.0
  {
    hide Eliminate, Upper, Abs;
    ghost var m := Columns(a, n);
    PivotColumn(a, n, k, l, roll);
    ghost var pivoted := Column(a, n, k);
    for j := k + 1 to n
      invariant forall c, r :: 0 <= c < k && 0 <= r < a.Length1 ==> a[c, r] == old(a[c, r])
      invariant forall r :: 0 <= r < n ==> a[k, r] == pivoted[r]
      invariant forall c :: k < c < j ==> Column(a, n, c) == Eliminate(m[c], k, l, pivoted)
      invariant forall c, r :: j <= c < n && 0 <= r < n ==> a[c, r] == m[c][r]
    {
      ghost var before := Columns(a, n);
      assert Column(a, n, j) == m[j] && Column(a, n, k) == pivoted;
      EliminateColumn(a, n, k, l, j, roll);
      assert forall c :: k < c < j ==> Column(a, n, c) == before[c];
    }
    assert Column(a, n, k) == pivoted;
  }

  /** With nothing but zeros from the diagonal down, the step is the identity. */
  lemma ZeroPivot(m: seq<Vec>, n: nat, k: nat)
    requires Square(m, n) && k < n && forall r :: k <= r < n ==> m[k][r] == 0.0
    ensures forall j :: k <= j < n ==> Eliminate(m[j], k, k, m[k]) == Reduced(m, k + 1, j)
  {
    forall j | k <= j < n
      ensures Eliminate(m[j], k, k, m[k]) == Reduced(m, k + 1, j)
    {
      forall i | 0 <= i < n
        ensures Eliminate(m[j], k, k, m[k])[i] == Reduced(m, k + 1, j)[i]
      {
        assert i > k ==> m[j][k] * m[k][i] == 0.0;
      }
    }
  }

  /** Step k of dgefa. */
  method FactorStep(a: array2<real>, n: nat, ipvt: array<nat>, k: nat, info0: int, roll: bool, ghost v: seq<Vec>)
    returns (info: int)
    requires Sized(a, n) && ipvt.Length == n && k + 1 < n
    requires Factored(v, Columns(a, n), ipvt[..], k, n) && Reports(a, k, info0)
    modifies a, ipvt
    ensures Factored(v, Columns(a, n), ipvt[..], k + 1, n) && Reports(a, k + 1, info)
    ensures forall c :: 0 <= c < k ==> Column(a, n, c) == old(Columns(a, n))[c] && ipvt[c] == old(ipvt[c])
    ensures (forall r :: k <= r < n ==> old(a[k, r]) == 0.0) ==> ipvt[k] == k && Column(a, n, k) == old(Column(a, n, k))
  {
    hide Steps, Eliminate, Upper, Factored;
    Shape(v, Columns(a, n), ipvt[..], k, n);
    info := info0;
    ghost var m, p := Columns(a, n), ipvt[..];
    var index := Idamax(n - k, a, k, k);
    var l: nat := index + k;
    ipvt[k] := l;
    if a[k, l] != 0.0 {
      EliminateColumns(a, n, k, l, roll);
    } else {
      info := k;
      ZeroPivot(m, n, k);
      assert Columns(a, n) == m;
    }
    StepDone(v, m, p, Columns(a, n), ipvt[..], k, n);
  }

  lemma Shape(v: seq<Vec>, m: seq<Vec>, p: seq<nat>, k: nat, n: nat)
    requires Factored(v, m, p, k, n)
    ensures Square(v, n) && Square(m, n) && Pivots(p, k, n)
  {
  }

  /**
   * dgefa: the stored multipliers and pivots take the original columns to the stored upper
   * triangle, singular or not, and no multiplier is larger than 1.
   */
  method Dgefa(a: array2<real>, n: nat, ipvt: array<nat>, roll: bool) returns (info: int)
    requires n >= 1 && Sized(a, n) && ipvt.Length == n
    modifies a, ipvt
    ensures Factored(old(Columns(a, n)), Columns(a, n), ipvt[..], n - 1, n)
    ensures Reports(a, n, info)
    ensures NonZeroDiagonal(a, n) <==> Nonsingular(old(Columns(a, n)), n)
    ensures NonZeroDiagonal(a, n) <==> info == 0 && a[0, 0] != 0.0
    ensures old(Columns(a, n))[0] != Zeros(n) ==> (info == 0 <==> Nonsingular(old(Columns(a, n)), n))
    ensures old(Columns(a, n))[0] == Zeros(n) ==>
              !NonZeroDiagonal(a, n) && (info == 0 <==> Nonsingular(Minor(old(Columns(a, n)), n), n - 1))
  {
    hide Steps, Factored, Nonsingular;
    info := 0;
    ghost var v := Columns(a, n);
    Nothing(v, ipvt[..], n);
    for k := 0 to n - 1
      invariant Factored(v, Columns(a, n), ipvt[..], k, n) && Reports(a, k, info)
      invariant v[0] == Zeros(n) ==> Column(a, n, 0) == Zeros(n) && (k > 0 ==> ipvt[0] == 0)
    {
      info := FactorStep(a, n, ipvt, k, info, roll, v);
    }
    ghost var p := ipvt[..];
    ipvt[n - 1] := n - 1;
    LastPivot(v, Columns(a, n), p, ipvt[..], n);
    if a[n - 1, n - 1] == 0.0 {
      info := n - 1;
    }
    DiagonalTells(v, Columns(a, n), ipvt[..], n);
    FirstColumn(v, Columns(a, n), ipvt[..], n);
    if v[0] == Zeros(n) {
      MinorTells(v, Columns(a, n), ipvt[..], n);
    }
    assert forall c :: 0 <= c < n ==> Columns(a, n)[c][c] == a[c, c];
  }

  /** Where the factor has no zero on the diagonal, the matrix was nonsingular, and only there. */
  lemma DiagonalTells(v: seq<Vec>, m: seq<Vec>, p: seq<nat>, n: nat)
    requires n >= 1 && Factored(v, m, p, n - 1, n)
    ensures Square(v, n) && Square(m, n)
    ensures Nonsingular(v, n) <==> forall c :: 0 <= c < n ==> m[c][c] != 0.0
  {
    hide Steps, Nonsingular;
    TriangleReached(v, m, p, n);
    StepsKeepSingular(m, p, n - 1, v, n);
    TriangleNonsingular(Triangle(m, n), n);
    assert forall c :: 0 <= c < n ==> Triangle(m, n)[c][c] == m[c][c];
  }

  /** The first pivot is zero exactly when the whole first column was. */
  lemma FirstColumn(v: seq<Vec>, m: seq<Vec>, p: seq<nat>, n: nat)
    requires n >= 1 && Factored(v, m, p, n - 1, n)
    ensures m[0][0] == 0.0 <==> v[0] == Zeros(n)
  {
    hide Steps, Upper;
    assert Steps(m, p, n - 1, v[0]) == Reduced(m, n - 1, 0);
    StepsOfZeros(m, p, n - 1, n);
    if m[0][0] == 0.0 {
      assert Reduced(m, n - 1, 0) == Zeros(n);
      StepsInjective(m, p, n - 1, v[0], Zeros(n));
    }
  }

  /** With a first column of zeros the rest of the diagonal tells about the rest of the matrix. */
  lemma MinorTells(v: seq<Vec>, m: seq<Vec>, p: seq<nat>, n: nat)
    requires n >= 1 && Factored(v, m, p, n - 1, n) && IdleFirst(m, p, n - 1, n)
    ensures Nonsingular(Minor(v, n), n - 1) <==> forall c :: 1 <= c < n ==> m[c][c] != 0.0
  {
    hide Steps, Nonsingular;
    TriangleReached(v, m, p, n);
    StepsKeepMinor(m, p, n - 1, v, n);
    var u := Minor(Triangle(m, n), n);
    TriangleNonsingular(u, n - 1);
    assert forall c :: 0 <= c < n - 1 ==> u[c][c] == m[c + 1][c + 1];
    forall c | 1 <= c < n
      ensures m[c][c] == u[c - 1][c - 1]
    {
    }
  }

  lemma Nothing(v: seq<Vec>, p: seq<nat>, n: nat)
    requires Square(v, n)
    ensures Factored(v, v, p, 0, n)
  {
  }

  lemma LastPivot(v: seq<Vec>, m: seq<Vec>, p: seq<nat>, p': seq<nat>, n: nat)
    requires n >= 1 && |p| == |p'| == n && Factored(v, m, p, n - 1, n) && p' == p[n - 1 := n - 1]
    ensures Factored(v, m, p', n - 1, n)
  {
    forall j | 0 <= j < n
      ensures Steps(m, p', n - 1, v[j]) == Reduced(m, n - 1, j)
    {
      StepsLocal(m, p, m, p', n - 1, v[j]);
      assert Steps(m, p, n - 1, v[j]) == Reduced(m, n - 1, j);
    }
  }

  // ----- solution

  /** One step of dgesl's first loop. */
  method ForwardStep(a: array2<real>, n: nat, l: nat, b: array<real>, k: nat, roll: bool)
    requires Sized(a, n) && b.Length == n && k <= l < n
    modifies b
    ensures b[..] == Eliminate(old(b[..]), k, l, Column(a, n, k))
  {
    ghost var b0 := b[..];
    var t := b[l];
    if l != k {
      b[l] := b[k];
      b[k] := t;
    }
    assert b[..] == Swap(b0, k, l);
    DaxpyVector(n - (k + 1), t, a, k, b, k + 1, roll);
    forall i | 0 <= i < n
      ensures b[i] == Eliminate(b0, k, l, Column(a, n, k))[i]
    {
      assert i > k ==> b[i] == Swap(b0, k, l)[i] + Swap(b0, k, l)[k] * a[k, i];
    }
  }

  /** The upper triangle that dgefa leaves, column by column. */
  ghost function Triangle(m: seq<Vec>, n: nat): (u: seq<Vec>)
    requires Square(m, n)
    ensures Square(u, n) && UpperTriangular(u, n)
    ensures forall j, i :: 0 <= i <= j < n ==> u[j][i] == m[j][i]
  {
    seq(n, j requires 0 <= j < n => Upper(m[j], j))
  }

  lemma TriangleReached(v: seq<Vec>, m: seq<Vec>, p: seq<nat>, n: nat)
    requires n >= 1 && Factored(v, m, p, n - 1, n)
    ensures StepsAll(m, p, n - 1, v, n) == Triangle(m, n)
  {
    hide Steps;
    forall j | 0 <= j < n
      ensures StepsAll(m, p, n - 1, v, n)[j] == Triangle(m, n)[j]
    {
      assert Steps(m, p, n - 1, v[j]) == Reduced(m, n - 1, j);
      if j == n - 1 {
        assert Upper(m[j], j) == m[j];
      }
    }
  }

  /** One step of dgesl's second loop. */
  method BackwardStep(a: array2<real>, n: nat, b: array<real>, k: nat, roll: bool, ghost y: Vec)
    requires Sized(a, n) && b.Length == n && k < n && NonZeroDiagonal(a, n)
    requires Solved(Triangle(Columns(a, n), n), b[..], y, k + 1)
    modifies b
    ensures Solved(Triangle(Columns(a, n), n), b[..], y, k)
  {
    hide Solved, Triangle, Scaled;
    ghost var b0 := b[..];
    b[k] := b[k] / a[k, k];
    var t := -b[k];
    DaxpyVector(k, t, a, k, b, 0, roll);
    BackStep(Triangle(Columns(a, n), n), b0, b[..], y, k);
  }

  /** dgesl with job 0, for factors without a zero on the diagonal: the solution of the original system. */
  method Dgesl(a: array2<real>, n: nat, ipvt: array<nat>, b: array<real>, roll: bool, ghost v: seq<Vec>)
    requires n >= 1 && Sized(a, n) && ipvt.Length == n && b.Length == n
    requires Factored(v, Columns(a, n), ipvt[..], n - 1, n) && NonZeroDiagonal(a, n)
    modifies b
    ensures |b[..]| == n && Square(v, n) && Product(v, b[..]) == old(b[..])
  {
    hide Eliminate, Solved, Triangle, Product, Tail, NonZeroDiagonal, Factored;
    ghost var m, p, b0 := Columns(a, n), ipvt[..], b[..];
    Shape(v, m, p, n - 1, n);
    for k := 0 to n - 1
      invariant b[..] == Steps(m, p, k, b0)
    {
      var l := ipvt[k];
      ForwardStep(a, n, l, b, k, roll);
    }
    ghost var y := b[..];
    SolvedNone(Triangle(m, n), y);
    for kb := 0 to n
      invariant Solved(Triangle(m, n), b[..], y, n - kb)
    {
      BackwardStep(a, n, b, n - (kb + 1), roll, y);
    }
    SolvedAll(Triangle(m, n), b[..], y);
    TriangleReached(v, m, p, n);
    SameSolutions(m, p, n - 1, v, b[..], b0);
  }

  /**
   * Factor and solve: exactly when the matrix is nonsingular no diagonal entry of the factor
   * is zero, and the vector returned satisfies the original system; else it is left alone.
   */
  method Solve(a: array2<real>, n: nat, ipvt: array<nat>, b: array<real>, roll: bool) returns (solved: bool)
    requires n >= 1 && Sized(a, n) && ipvt.Length == n && b.Length == n
    modifies a, ipvt, b
    ensures solved == NonZeroDiagonal(a, n) == Nonsingular(old(Columns(a, n)), n)
    ensures if solved then Product(old(Columns(a, n)), b[..]) == old(b[..]) else b[..] == old(b[..])
  {
    hide Factored, Product, Nonsingular;
    ghost var v := Columns(a, n);
    var info := Dgefa(a, n, ipvt, roll);
    solved := info == 0 && a[0, 0] != 0.0;
    if solved {
      Dgesl(a, n, ipvt, b, roll, v);
    }
  }

  /** Why info alone does not tell: a matrix of zeros, which is singular, is reported as 0, like success. */
  method InfoMisleads() returns (info: int, diagonal: real)
    ensures info == 0 && diagonal == 0.0
  {
    hide Factored, Nonsingular;
    var a := new real[1, 1]((i, j) => 0.0);
    var ipvt := new nat[1](i => 0);
    assert Columns(a, 1)[0] == Zeros(1);
    info := Dgefa(a, 1, ipvt, true);
    diagonal := a[0, 0];
  }
}
