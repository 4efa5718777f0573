/**
 * gaussian_rref: in-place Gauss–Jordan reduction of [A | v] with partial
 * pivoting and a magnitude threshold eps, followed by the classification
 * of the reduced system.
 *
 * The reduction is first defined on rows (PivotRow, EliminateFrom,
 * ColumnStep, Reduce) and its properties are proved there; the array
 * methods are then proved to compute exactly that reduction on the flat
 * row-major buffer.
 */
module Rref {

  import opened Linalg

  /** The three outcomes gaussian_rref reports. */
  datatype RrefResult = Ok | FreeVars | BadMatrix

  /** A system after reduction, with the number of pivot rows found. */
  datatype Reduced = Reduced(s: System, p: nat)

  // ---------------------------------------------------------------------
  // Specification on rows
  // ---------------------------------------------------------------------

  /**
   * The pivot search from row i on, the best row so far being `best`: a row
   * replaces the best only when its magnitude in column c is strictly larger.
   */
  function ArgMaxFrom(m: seq<seq<real>>, c: nat, i: nat, best: nat): (r: nat)
    requires IsMatrix(m, |m|) && c < |m| && best < i <= |m|
    ensures r < |m| && (r == best || i <= r)
    decreases |m| - i
  {
    if i == |m| then best
    else if Abs(m[best][c]) < Abs(m[i][c]) then ArgMaxFrom(m, c, i + 1, i)
    else ArgMaxFrom(m, c, i + 1, best)
  }

  function PivotRow(m: seq<seq<real>>, c: nat, p: nat): nat
    requires IsMatrix(m, |m|) && c < |m| && p < |m|
  {
    ArgMaxFrom(m, c, p + 1, p)
  }

  lemma {:induction false} ArgMaxFromIsFirstMax(m: seq<seq<real>>, c: nat, p: nat, i: nat, best: nat)
    requires IsMatrix(m, |m|) && c < |m| && p <= best < i <= |m|
    requires forall k :: p <= k < i ==> Abs(m[k][c]) <= Abs(m[best][c])
    requires forall k :: p <= k < best ==> Abs(m[k][c]) < Abs(m[best][c])
    ensures var q := ArgMaxFrom(m, c, i, best);
      && p <= q
      && (forall k :: p <= k < |m| ==> Abs(m[k][c]) <= Abs(m[q][c]))
      && (forall k :: p <= k < q ==> Abs(m[k][c]) < Abs(m[q][c]))
    decreases |m| - i
  {
    if i < |m| {
      if Abs(m[best][c]) < Abs(m[i][c]) {
        ArgMaxFromIsFirstMax(m, c, p, i + 1, i);
      } else {
        ArgMaxFromIsFirstMax(m, c, p, i + 1, best);
      }
    }
  }

  /** The pivot is the first row at or below p of largest magnitude in column c. */
  lemma PivotRowIsFirstMax(m: seq<seq<real>>, c: nat, p: nat)
    requires IsMatrix(m, |m|) && c < |m| && p < |m|
    ensures var q := PivotRow(m, c, p);
      && p <= q < |m|
      && (forall k :: p <= k < |m| ==> Abs(m[k][c]) <= Abs(m[q][c]))
      && (forall k :: p <= k < q ==> Abs(m[k][c]) < Abs(m[q][c]))
  {
    ArgMaxFromIsFirstMax(m, c, p, p + 1, p);
  }

  /**
   * The elimination sweep of column c against pivot row p, over rows i..:
   * every other row whose entry in column c is not below eps in magnitude
   * has that entry times the pivot row subtracted from it.
   */
  function EliminateFrom(s: System, c: nat, p: nat, eps: real, i: nat): (t: System)
    requires Square(s) && c < |s.m| && p < |s.m| && i <= |s.m|
    ensures Square(t) && |t.m| == |s.m|
    decreases |s.m| - i
  {
    if i == |s.m| then s
    else if i == p || Abs(s.m[i][c]) < eps then EliminateFrom(s, c, p, eps, i + 1)
    else EliminateFrom(SubtractRow(s, i, p, s.m[i][c]), c, p, eps, i + 1)
  }

  /** One iteration of the column loop: pivot search, then swap, scale and eliminate. */
  function ColumnStep(s: System, c: nat, p: nat, eps: real): (r: Reduced)
    requires Square(s) && c < |s.m| && p < |s.m| && 0.0 < eps
    ensures Square(r.s) && |r.s.m| == |s.m| && (r.p == p || r.p == p + 1)
  {
    var q := PivotRow(s.m, c, p);
    if Abs(s.m[q][c]) < eps then Reduced(s, p)
    else
      var s1 := if q != p then SwapRows(s, p, q) else s;
      var s2 := DivideRow(s1, p, s1.m[p][c]);
      Reduced(EliminateFrom(s2, c, p, eps, 0), p + 1)
  }

  /** The column loop from column c with pivot row p on, while both are below n. */
  function ReduceFrom(s: System, c: nat, p: nat, eps: real): (r: Reduced)
    requires Square(s) && c <= |s.m| && p <= |s.m| && 0.0 < eps
    ensures Square(r.s) && |r.s.m| == |s.m| && p <= r.p <= |s.m|
    decreases |s.m| - c
  {
    if c < |s.m| && p < |s.m| then
      var r := ColumnStep(s, c, p, eps);
      ReduceFrom(r.s, c + 1, r.p, eps)
    else Reduced(s, p)
  }

  /** The whole reduction: the pivot count never exceeds n. */
  function Reduce(s: System, eps: real): (r: Reduced)
    requires Square(s) && 0.0 < eps
    ensures Square(r.s) && |r.s.m| == |s.m| && r.p <= |s.m|
  {
    ReduceFrom(s, 0, 0, eps)
  }

  /** Row i reads 0 == non-zero: every coefficient is below eps, the right-hand side is not. */
  predicate Inconsistent(s: System, i: nat, eps: real)
    requires Square(s) && i < |s.m|
  {
    (forall j :: 0 <= j < |s.m| ==> Abs(s.m[i][j]) < eps) && !(Abs(s.b[i]) < eps)
  }

  predicate HasInconsistentRow(s: System, eps: real)
    requires Square(s)
  {
    exists i :: 0 <= i < |s.m| && Inconsistent(s, i, eps)
  }

  // ---------------------------------------------------------------------
  // Properties of the reduction
  // ---------------------------------------------------------------------

  lemma {:induction false} EliminateFromPreserves(s: System, c: nat, p: nat, eps: real, i: nat, x: seq<real>)
    requires Square(s) && c < |s.m| && p < |s.m| && i <= |s.m| && |x| == |s.m|
    ensures Satisfies(EliminateFrom(s, c, p, eps, i), x) <==> Satisfies(s, x)
    decreases |s.m| - i
  {
    if i < |s.m| {
      if i == p || Abs(s.m[i][c]) < eps {
        EliminateFromPreserves(s, c, p, eps, i + 1, x);
      } else {
        var t := SubtractRow(s, i, p, s.m[i][c]);
        SubtractRowPreserves(s, i, p, s.m[i][c], x);
        EliminateFromPreserves(t, c, p, eps, i + 1, x);
      }
    }
  }

  /**
   * With a unit pivot, the sweep leaves the pivot row and the rows before i
   * alone, leaves a row whose entry is below eps alone, and zeroes column c
   * of every other row.
   */
  lemma {:induction false} EliminateFromClears(s: System, c: nat, p: nat, eps: real, i: nat)
    requires Square(s) && c < |s.m| && p < |s.m| && i <= |s.m| && s.m[p][c] == 1.0
    ensures var t := EliminateFrom(s, c, p, eps, i);
      && t.m[p] == s.m[p] && t.b[p] == s.b[p]
      && (forall k :: 0 <= k < i ==> t.m[k] == s.m[k] && t.b[k] == s.b[k])
      && (forall k :: i <= k < |s.m| && k != p && Abs(s.m[k][c]) < eps ==> t.m[k] == s.m[k] && t.b[k] == s.b[k])
      && (forall k :: i <= k < |s.m| && k != p && !(Abs(s.m[k][c]) < eps) ==> t.m[k][c] == 0.0)
    decreases |s.m| - i
  {
    if i < |s.m| {
      if i == p || Abs(s.m[i][c]) < eps {
        EliminateFromClears(s, c, p, eps, i + 1);
      } else {
        var u := SubtractRow(s, i, p, s.m[i][c]);
        assert u.m[i][c] == 0.0;
        EliminateFromClears(u, c, p, eps, i + 1);
      }
    }
  }

  lemma DivSelf(x: real)
    requires x != 0.0
    ensures x / x == 1.0
  {
  }

  /**
   * A column step either finds no entry of magnitude eps at or below row p
   * and changes nothing, or it leaves a 1 at the pivot and every other
   * entry of column c below eps.
   */
  lemma ColumnStepOutcome(s: System, c: nat, p: nat, eps: real)
    requires Square(s) && c < |s.m| && p < |s.m| && 0.0 < eps
    ensures var r := ColumnStep(s, c, p, eps);
      && (r.p == p <==> forall k :: p <= k < |s.m| ==> Abs(s.m[k][c]) < eps)
      && (r.p == p ==> r.s == s)
      && (r.p == p + 1 ==> r.s.m[p][c] == 1.0 && forall k :: 0 <= k < |s.m| && k != p ==> Abs(r.s.m[k][c]) < eps)
  {
    var q := PivotRow(s.m, c, p);
    PivotRowIsFirstMax(s.m, c, p);
    if !(Abs(s.m[q][c]) < eps) {
      var s1 := if q != p then SwapRows(s, p, q) else s;
      var piv := s1.m[p][c];
      assert piv == s.m[q][c] && piv != 0.0;
      var s2 := DivideRow(s1, p, piv);
      DivSelf(piv);
      EliminateFromClears(s2, c, p, eps, 0);
    }
  }

  lemma ColumnStepPreserves(s: System, c: nat, p: nat, eps: real, x: seq<real>)
    requires Square(s) && c < |s.m| && p < |s.m| && 0.0 < eps && |x| == |s.m|
    ensures Satisfies(ColumnStep(s, c, p, eps).s, x) <==> Satisfies(s, x)
  {
    var q := PivotRow(s.m, c, p);
    if !(Abs(s.m[q][c]) < eps) {
      var s1 := if q != p then SwapRows(s, p, q) else s;
      if q != p {
        SwapRowsPreserves(s, p, q, x);
      }
      var s2 := DivideRow(s1, p, s1.m[p][c]);
      DivideRowPreserves(s1, p, s1.m[p][c], x);
      EliminateFromPreserves(s2, c, p, eps, 0, x);
    }
  }

  lemma {:induction false} ReduceFromPreserves(s: System, c: nat, p: nat, eps: real, x: seq<real>)
    requires Square(s) && c <= |s.m| && p <= |s.m| && 0.0 < eps && |x| == |s.m|
    ensures Satisfies(ReduceFrom(s, c, p, eps).s, x) <==> Satisfies(s, x)
    decreases |s.m| - c
  {
    if c < |s.m| && p < |s.m| {
      var r := ColumnStep(s, c, p, eps);
      ColumnStepPreserves(s, c, p, eps, x);
      ReduceFromPreserves(r.s, c + 1, r.p, eps, x);
    }
  }

  /** The reduced system has exactly the solutions of the original one. */
  lemma ReducePreserves(s: System, eps: real, x: seq<real>)
    requires Square(s) && 0.0 < eps && |x| == |s.m|
    ensures Satisfies(Reduce(s, eps).s, x) <==> Satisfies(s, x)
  {
    ReduceFromPreserves(s, 0, 0, eps, x);
  }

  lemma {:induction false} DotZeroRow(r: seq<real>, x: seq<real>, k: nat)
    requires k <= |r| && k <= |x| && forall j :: 0 <= j < |r| ==> r[j] == 0.0
    ensures DotTo(r, x, k) == 0.0
  {
    if k > 0 {
      DotZeroRow(r, x, k - 1);
    }
  }

  /**
   * A reduced row whose coefficients are all exactly zero but whose
   * right-hand side is not shows that the original system has no solution.
   */
  lemma ReducedZeroRowUnsolvable(s: System, eps: real, i: nat, x: seq<real>)
    requires Square(s) && 0.0 < eps && |x| == |s.m| && i < |s.m|
    requires forall j :: 0 <= j < |s.m| ==> Reduce(s, eps).s.m[i][j] == 0.0
    requires Reduce(s, eps).s.b[i] != 0.0
    ensures !Satisfies(s, x)
  {
    var t := Reduce(s, eps).s;
    DotZeroRow(t.m[i], x, |x|);
    assert !Satisfies(t, x);
    ReducePreserves(s, eps, x);
  }

  predicate IsIdentity(m: seq<seq<real>>)
    requires IsMatrix(m, |m|)
  {
    forall i, j :: 0 <= i < |m| && 0 <= j < |m| ==> m[i][j] == if i == j then 1.0 else 0.0
  }

  lemma {:induction false} DotUnitRow(r: seq<real>, x: seq<real>, i: nat, k: nat)
    requires k <= |r| && k <= |x|
    requires forall j :: 0 <= j < |r| ==> r[j] == if j == i then 1.0 else 0.0
    ensures DotTo(r, x, k) == if i < k then x[i] else 0.0
  {
    if k > 0 {
      DotUnitRow(r, x, i, k - 1);
    }
  }

  /** A system whose matrix is the identity is solved by its right-hand side and nothing else. */
  lemma IdentitySolves(s: System, x: seq<real>)
    requires Square(s) && IsIdentity(s.m) && |x| == |s.m|
    ensures Satisfies(s, x) <==> x == s.b
  {
    forall i | 0 <= i < |s.m|
      ensures Dot(s.m[i], x) == x[i]
    {
      DotUnitRow(s.m[i], x, i, |x|);
    }
  }

  // ---------------------------------------------------------------------
  // The in-place algorithm on the flat buffers
  // ---------------------------------------------------------------------

  /** The system that the buffers A (row-major, n*n) and v (n) hold. */
  ghost function Held(a: seq<real>, b: seq<real>, n: nat): System
    requires |a| == n * n
  {
    System(ToRows(a, n), b)
  }

  /** The pivot search of one column: the row and the magnitude it settles on. */
  method FindPivot(A: array<real>, n: nat, c: nat, p: nat) returns (q: nat, curMax: real)
    requires A.Length == n * n && c < n && p < n
    ensures q == PivotRow(ToRows(A[..], n), c, p)
    ensures q < n && curMax == Abs(A[Idx(q, c, n)])
  {
    ghost var m := ToRows(A[..], n);
    q := p;
    curMax := Abs(A[Idx(p, c, n)]);
    for i := p + 1 to n
      invariant q < i && curMax == Abs(A[Idx(q, c, n)])
      invariant ArgMaxFrom(m, c, i, q) == PivotRow(m, c, p)
    {
      var mag := Abs(A[Idx(i, c, n)]);
      assert mag == Abs(m[i][c]) && curMax == Abs(m[q][c]);
      ghost var best := q;
      if curMax < mag {
        curMax := mag;
        q := i;
      }
      assert ArgMaxFrom(m, c, i, best) == ArgMaxFrom(m, c, i + 1, q);
    }
  }

  /** The swap loop of gaussian_rref on two disjoint stretches of n entries. */
  method SwapStretch(A: array<real>, base: nat, qbase: nat, n: nat)
    requires base + n <= A.Length && qbase + n <= A.Length
    requires base + n <= qbase || qbase + n <= base
    modifies A
    ensures forall x :: base <= x < base + n ==> A[x] == old(A[x - base + qbase])
    ensures forall x :: qbase <= x < qbase + n ==> A[x] == old(A[x - qbase + base])
    ensures forall x :: 0 <= x < A.Length && !(base <= x < base + n) && !(qbase <= x < qbase + n) ==>
      A[x] == old(A[x])
  {
    for j := 0 to n
      invariant forall x :: base <= x < base + j ==> A[x] == old(A[x - base + qbase])
      invariant forall x :: qbase <= x < qbase + j ==> A[x] == old(A[x - qbase + base])
      invariant forall x :: 0 <= x < A.Length && !(base <= x < base + j) && !(qbase <= x < qbase + j) ==>
        A[x] == old(A[x])
    {
      var tmp := A[base + j];
      A[base + j] := A[qbase + j];
      A[qbase + j] := tmp;
    }
  }

  /** What SwapStretch leaves in the buffer, entry by entry. */
  lemma SwappedEntry(a0: seq<real>, a: seq<real>, n: nat, r: nat, q: nat, base: nat, qbase: nat, l: nat, k: nat)
    requires |a0| == n * n && |a| == n * n && r < n && q < n && r != q && l < n && k < n
    requires base == Idx(r, 0, n) && qbase == Idx(q, 0, n) && base + n <= n * n && qbase + n <= n * n
    requires forall x :: base <= x < base + n ==> a[x] == a0[x - base + qbase]
    requires forall x :: qbase <= x < qbase + n ==> a[x] == a0[x - qbase + base]
    requires forall x :: 0 <= x < |a| && !(base <= x < base + n) && !(qbase <= x < qbase + n) ==> a[x] == a0[x]
    ensures a[Idx(l, k, n)] ==
      if l == r then a0[Idx(q, k, n)] else if l == q then a0[Idx(r, k, n)] else a0[Idx(l, k, n)]
  {
    IdxInRow(l, k, n);
    if l == r {
      IdxInRow(q, k, n);
    } else if l == q {
      IdxInRow(r, k, n);
    } else {
      RowsApart(l, r, n);
      RowsApart(l, q, n);
      RowSpan(l, n);
    }
  }

  /** What SwapStretch leaves in the buffer, read back as rows. */
  lemma SwappedRows(a0: seq<real>, a: seq<real>, n: nat, r: nat, q: nat, base: nat, qbase: nat)
    requires |a0| == n * n && |a| == n * n && r < n && q < n && r != q
    requires base == Idx(r, 0, n) && qbase == Idx(q, 0, n) && base + n <= n * n && qbase + n <= n * n
    requires forall x :: base <= x < base + n ==> a[x] == a0[x - base + qbase]
    requires forall x :: qbase <= x < qbase + n ==> a[x] == a0[x - qbase + base]
    requires forall x :: 0 <= x < |a| && !(base <= x < base + n) && !(qbase <= x < qbase + n) ==> a[x] == a0[x]
    ensures ToRows(a, n) == ToRows(a0, n)[r := ToRows(a0, n)[q]][q := ToRows(a0, n)[r]]
  {
    var m0 := ToRows(a0, n);
    var m := m0[r := m0[q]][q := m0[r]];
    forall l, k | 0 <= l < n && 0 <= k < n
      ensures a[Idx(l, k, n)] == m[l][k]
    {
      SwappedEntry(a0, a, n, r, q, base, qbase, l, k);
    }
    ToRowsExt(a, n, m);
  }

  /** Exchanges rows r and q of [A | v]; gaussian_rref does so only when they differ. */
  method SwapRowsInPlace(A: array<real>, v: array<real>, n: nat, r: nat, q: nat)
    requires A != v
    requires A.Length == n * n && v.Length == n && r < n && q < n && r != q
    modifies A, v
    ensures Held(A[..], v[..], n) == SwapRows(Held(old(A[..]), old(v[..]), n), r, q)
  {
    ghost var s0 := Held(A[..], v[..], n);
    ghost var t := SwapRows(s0, r, q);
    ghost var a0 := A[..];
    var tmpv := v[r];
    v[r] := v[q];
    v[q] := tmpv;
    assert v[..] == t.b;
    var base := Idx(r, 0, n);
    var qbase := Idx(q, 0, n);
    RowSpan(r, n);
    RowSpan(q, n);
    RowsApart(r, q, n);
    SwapStretch(A, base, qbase, n);
    SwappedRows(a0, A[..], n, r, q, base, qbase);
  }

  /** The division loop of gaussian_rref on a stretch of n entries. */
  method DivideStretch(A: array<real>, base: nat, n: nat, piv: real)
    requires base + n <= A.Length && piv != 0.0
    modifies A
    ensures forall x :: base <= x < base + n ==> A[x] == old(A[x]) / piv
    ensures forall x :: 0 <= x < A.Length && !(base <= x < base + n) ==> A[x] == old(A[x])
  {
    for j := 0 to n
      invariant forall x :: base <= x < base + j ==> A[x] == old(A[x]) / piv
      invariant forall x :: 0 <= x < A.Length && !(base <= x < base + j) ==> A[x] == old(A[x])
    {
      A[base + j] := A[base + j] / piv;
    }
  }

  /** What DivideStretch leaves in the buffer, entry by entry. */
  lemma DividedEntry(a0: seq<real>, a: seq<real>, n: nat, r: nat, piv: real, base: nat, l: nat, k: nat)
    requires |a0| == n * n && |a| == n * n && r < n && l < n && k < n && piv != 0.0
    requires base == Idx(r, 0, n) && base + n <= n * n
    requires forall x :: base <= x < base + n ==> a[x] == a0[x] / piv
    requires forall x :: 0 <= x < |a| && !(base <= x < base + n) ==> a[x] == a0[x]
    ensures a[Idx(l, k, n)] == if l == r then a0[Idx(r, k, n)] / piv else a0[Idx(l, k, n)]
  {
    IdxInRow(l, k, n);
    if l != r {
      RowsApart(l, r, n);
      RowSpan(l, n);
    }
  }

  /** What DivideStretch leaves in the buffer, read back as rows. */
  lemma DividedRows(a0: seq<real>, a: seq<real>, n: nat, r: nat, piv: real, base: nat)
    requires |a0| == n * n && |a| == n * n && r < n && piv != 0.0
    requires base == Idx(r, 0, n) && base + n <= n * n
    requires forall x :: base <= x < base + n ==> a[x] == a0[x] / piv
    requires forall x :: 0 <= x < |a| && !(base <= x < base + n) ==> a[x] == a0[x]
    ensures ToRows(a, n) == ToRows(a0, n)[r := ScaledRow(ToRows(a0, n)[r], piv)]
  {
    var m0 := ToRows(a0, n);
    var m := m0[r := ScaledRow(m0[r], piv)];
    forall l, k | 0 <= l < n && 0 <= k < n
      ensures a[Idx(l, k, n)] == m[l][k]
    {
      DividedEntry(a0, a, n, r, piv, base, l, k);
    }
    ToRowsExt(a, n, m);
  }

  /** Divides row r of [A | v] by its pivot. */
  method DivideRowInPlace(A: array<real>, v: array<real>, n: nat, r: nat, piv: real)
    requires A != v
    requires A.Length == n * n && v.Length == n && r < n && piv != 0.0
    modifies A, v
    ensures Held(A[..], v[..], n) == DivideRow(Held(old(A[..]), old(v[..]), n), r, piv)
  {
    ghost var s0 := Held(A[..], v[..], n);
    ghost var t := DivideRow(s0, r, piv);
    ghost var a0 := A[..];
    var base := Idx(r, 0, n);
    RowSpan(r, n);
    DivideStretch(A, base, n, piv);
    DividedRows(a0, A[..], n, r, piv, base);
    v[r] := v[r] / piv;
    assert v[..] == t.b;
  }

  /** x - f * y, the update of one entry of an eliminated row. */
  function Less(x: real, f: real, y: real): real
  {
    x - f * y
  }

  /** The inner loop of the elimination: a[base + k] -= f * a[rbase + k] for every k < n. */
  method SubtractStretch(A: array<real>, base: nat, rbase: nat, n: nat, f: real)
    requires base + n <= A.Length && rbase + n <= A.Length
    requires base + n <= rbase || rbase + n <= base
    modifies A
    ensures forall q :: base <= q < base + n ==> A[q] == Less(old(A[q]), f, old(A[q - base + rbase]))
    ensures forall q :: 0 <= q < A.Length && !(base <= q < base + n) ==> A[q] == old(A[q])
  {
    for j := 0 to n
      invariant forall q :: base <= q < base + j ==> A[q] == Less(old(A[q]), f, old(A[q - base + rbase]))
      invariant forall q :: 0 <= q < A.Length && !(base <= q < base + j) ==> A[q] == old(A[q])
    {
      A[base + j] := Less(A[base + j], f, A[rbase + j]);
    }
  }

  /** What SubtractStretch leaves in the buffer, read back as rows. */
  lemma SubtractedRows(a0: seq<real>, a: seq<real>, n: nat, i: nat, r: nat, f: real, base: nat, rbase: nat)
    requires |a0| == n * n && |a| == n * n && i < n && r < n && i != r
    requires base == Idx(i, 0, n) && rbase == Idx(r, 0, n) && base + n <= n * n && rbase + n <= n * n
    requires forall q :: base <= q < base + n ==> a[q] == Less(a0[q], f, a0[q - base + rbase])
    requires forall q :: 0 <= q < |a| && !(base <= q < base + n) ==> a[q] == a0[q]
    ensures ToRows(a, n) == ToRows(a0, n)[i := DifferenceRow(ToRows(a0, n)[i], ToRows(a0, n)[r], f)]
  {
    var m0 := ToRows(a0, n);
    var m := m0[i := DifferenceRow(m0[i], m0[r], f)];
    forall l, k | 0 <= l < n && 0 <= k < n
      ensures a[Idx(l, k, n)] == m[l][k]
    {
      SubtractedEntry(a0, a, n, i, r, f, base, rbase, l, k);
    }
    ToRowsExt(a, n, m);
  }

  lemma SubtractedEntry(a0: seq<real>, a: seq<real>, n: nat, i: nat, r: nat, f: real, base: nat, rbase: nat,
                        l: nat, k: nat)
    requires |a0| == n * n && |a| == n * n && i < n && r < n && i != r && l < n && k < n
    requires base == Idx(i, 0, n) && rbase == Idx(r, 0, n) && base + n <= n * n && rbase + n <= n * n
    requires forall q :: base <= q < base + n ==> a[q] == Less(a0[q], f, a0[q - base + rbase])
    requires forall q :: 0 <= q < |a| && !(base <= q < base + n) ==> a[q] == a0[q]
    ensures a[Idx(l, k, n)] == if l == i then a0[Idx(i, k, n)] - f * a0[Idx(r, k, n)] else a0[Idx(l, k, n)]
  {
    IdxInRow(l, k, n);
    if l == i {
      IdxInRow(r, k, n);
      assert a[Idx(l, k, n)] == Less(a0[Idx(l, k, n)], f, a0[rbase + k]);
    } else {
      RowsApart(l, i, n);
      RowSpan(l, n);
    }
  }

  method SubtractRowInPlace(A: array<real>, v: array<real>, n: nat, i: nat, r: nat, f: real)
    requires A != v
    requires A.Length == n * n && v.Length == n && i < n && r < n && i != r
    modifies A, v
    ensures Held(A[..], v[..], n) == SubtractRow(Held(old(A[..]), old(v[..]), n), i, r, f)
  {
    ghost var s0 := Held(A[..], v[..], n);
    ghost var t := SubtractRow(s0, i, r, f);
    ghost var a0 := A[..];
    v[i] := v[i] - f * v[r];
    assert |t.b| == n;
    assert t.b[i] == v[i];
    assert forall k :: 0 <= k < n && k != i ==> t.b[k] == v[k];
    assert v[..] == t.b;
    var base := Idx(i, 0, n);
    var rbase := Idx(r, 0, n);
    RowSpan(i, n);
    RowSpan(r, n);
    RowsApart(i, r, n);
    SubtractStretch(A, base, rbase, n, f);
    SubtractedRows(a0, A[..], n, i, r, f, base, rbase);
  }

  method EliminateColumn(A: array<real>, v: array<real>, n: nat, c: nat, p: nat, eps: real)
    requires A != v
    requires A.Length == n * n && v.Length == n && c < n && p < n
    modifies A, v
    ensures Held(A[..], v[..], n) == EliminateFrom(Held(old(A[..]), old(v[..]), n), c, p, eps, 0)
  {
    ghost var s0 := Held(A[..], v[..], n);
    for i := 0 to n
      invariant EliminateFrom(Held(A[..], v[..], n), c, p, eps, i) == EliminateFrom(s0, c, p, eps, 0)
    {
      EliminateRow(A, v, n, c, p, eps, i);
    }
  }

  /** One pass of the elimination loop: what is left of the sweep from row i + 1 is the sweep from row i before. */
  method EliminateRow(A: array<real>, v: array<real>, n: nat, c: nat, p: nat, eps: real, i: nat)
    requires A != v
    requires A.Length == n * n && v.Length == n && c < n && p < n && i < n
    modifies A, v
    ensures EliminateFrom(Held(A[..], v[..], n), c, p, eps, i + 1)
         == EliminateFrom(Held(old(A[..]), old(v[..]), n), c, p, eps, i)
  {
    if i == p {
      return;
    }
    var factor := A[Idx(i, c, n)];
    if Abs(factor) < eps {
      return;
    }
    SubtractRowInPlace(A, v, n, i, p, factor);
  }

  /** The final scan for a row that reads 0 == non-zero, then the rank test. */
  method ClassifyRows(A: array<real>, v: array<real>, n: nat, eps: real, p: nat) returns (res: RrefResult)
    requires A.Length == n * n && v.Length == n
    ensures res == BadMatrix <==> HasInconsistentRow(Held(A[..], v[..], n), eps)
    ensures res == Ok <==> !HasInconsistentRow(Held(A[..], v[..], n), eps) && p == n
  {
    ghost var s := Held(A[..], v[..], n);
    for i := 0 to n
      invariant forall k :: 0 <= k < i ==> !Inconsistent(s, k, eps)
    {
      var allZero := true;
      var j := 0;
      while j < n
        invariant j <= n && allZero
        invariant forall l :: 0 <= l < j ==> Abs(s.m[i][l]) < eps
      {
        if !(Abs(A[Idx(i, j, n)]) < eps) {
          allZero := false;
          break;
        }
        j := j + 1;
      }
      if allZero && !(Abs(v[i]) < eps) {
        assert Inconsistent(s, i, eps);
        return BadMatrix;
      }
    }
    if p == n {
      return Ok;
    }
    return FreeVars;
  }

  /** One pass of the column loop: the in-place counterpart of ColumnStep. */
  method ReduceColumn(A: array<real>, v: array<real>, n: nat, c: nat, p: nat, eps: real) returns (p': nat)
    requires A != v
    requires A.Length == n * n && v.Length == n && c < n && p < n && 0.0 < eps
    modifies A, v
    ensures var r := ColumnStep(Held(old(A[..]), old(v[..]), n), c, p, eps);
      Held(A[..], v[..], n) == r.s && p' == r.p
    ensures p' <= n
    ensures ReduceFrom(Held(A[..], v[..], n), c + 1, p', eps) == ReduceFrom(Held(old(A[..]), old(v[..]), n), c, p, eps)
  {
    ghost var s := Held(A[..], v[..], n);
    var q, curMax := FindPivot(A, n, c, p);
    if curMax < eps {
      return p;
    }
    if q != p {
      SwapRowsInPlace(A, v, n, p, q);
    }
    ghost var s1 := Held(A[..], v[..], n);
    var piv := A[Idx(p, c, n)];
    assert piv == s1.m[p][c] == s.m[q][c];
    DivideRowInPlace(A, v, n, p, piv);
    EliminateColumn(A, v, n, c, p, eps);
    p' := p + 1;
  }

  /** The column loop of gaussian_rref: the buffers end up holding Reduce, p its pivot count. */
  method ReduceInPlace(A: array<real>, v: array<real>, n: nat, eps: real) returns (p: nat)
    requires A != v
    requires A.Length == n * n && v.Length == n && 0.0 < eps
    modifies A, v
    ensures var r := Reduce(Held(old(A[..]), old(v[..]), n), eps);
      Held(A[..], v[..], n) == r.s && p == r.p
  {
    ghost var s0 := Held(A[..], v[..], n);
    p := 0;
    var c: nat := 0;
    while c < n && p < n
      invariant c <= n && p <= n
      invariant ReduceFrom(Held(A[..], v[..], n), c, p, eps) == Reduce(s0, eps)
      decreases n - c
    {
      p := ReduceColumn(A, v, n, c, p, eps);
      c := c + 1;
    }
  }

  /**
   * gaussian_rref: reduces [A | v] in place to the system Reduce specifies,
   * then reports BadMatrix exactly when that system has a row 0 == non-zero,
   * Ok when it does not and every column produced a pivot, FreeVars otherwise.
   */
  method GaussianRref(n: nat, A: array<real>, v: array<real>, eps: real) returns (res: RrefResult)
    requires A != v
    requires A.Length == n * n && v.Length == n && 0.0 < eps
    modifies A, v
    ensures var r := Reduce(Held(old(A[..]), old(v[..]), n), eps);
      && Held(A[..], v[..], n) == r.s
      && (res == BadMatrix <==> HasInconsistentRow(r.s, eps))
      && (res == Ok <==> !HasInconsistentRow(r.s, eps) && r.p == n)
  {
    var p := ReduceInPlace(A, v, n, eps);
    res := ClassifyRows(A, v, n, eps, p);
  }

  // ---------------------------------------------------------------------
  // Ok as documented: a unique solution
  // ---------------------------------------------------------------------

  /** A reduction that ends at the identity leaves the one solution of the original system in b. */
  lemma IdentityReductionUnique(s: System, eps: real, x: seq<real>)
    requires Square(s) && 0.0 < eps && |x| == |s.m| && IsIdentity(Reduce(s, eps).s.m)
    ensures Satisfies(s, x) <==> x == Reduce(s, eps).s.b
  {
    ReducePreserves(s, eps, x);
    IdentitySolves(Reduce(s, eps).s, x);
  }

  /** Whether the buffer A holds the n-by-n identity matrix exactly. */
  method HoldsIdentity(A: array<real>, n: nat) returns (b: bool)
    requires A.Length == n * n
    ensures b <==> IsIdentity(ToRows(A[..], n))
  {
    ghost var m := ToRows(A[..], n);
    for i := 0 to n
      invariant forall k, j :: 0 <= k < i && 0 <= j < n ==> m[k][j] == if k == j then 1.0 else 0.0
    {
      for j := 0 to n
        invariant forall l :: 0 <= l < j ==> m[i][l] == if i == l then 1.0 else 0.0
      {
        if A[Idx(i, j, n)] != (if i == j then 1.0 else 0.0) {
          assert m[i][j] != if i == j then 1.0 else 0.0;
          return false;
        }
      }
    }
    return true;
  }

  /** The final classification with the identity test the documentation of Ok promises. */
  method ClassifyRowsExact(A: array<real>, v: array<real>, n: nat, eps: real, p: nat) returns (res: RrefResult)
    requires A.Length == n * n && v.Length == n
    ensures res == BadMatrix <==> HasInconsistentRow(Held(A[..], v[..], n), eps)
    ensures res == Ok <==>
      !HasInconsistentRow(Held(A[..], v[..], n), eps) && p == n && IsIdentity(Held(A[..], v[..], n).m)
  {
    res := ClassifyRows(A, v, n, eps, p);
    if res == Ok {
      var id := HoldsIdentity(A, n);
      if !id {
        res := FreeVars;
      }
    }
  }

  /**
   * gaussian_rref with Ok as documented: the same reduction, but Ok only
   * when A became the identity, and then v is the one solution of the
   * system the buffers held.
   */
  method GaussianRrefExact(n: nat, A: array<real>, v: array<real>, eps: real) returns (res: RrefResult)
    requires A != v
    requires A.Length == n * n && v.Length == n && 0.0 < eps
    modifies A, v
    ensures var r := Reduce(Held(old(A[..]), old(v[..]), n), eps);
      && Held(A[..], v[..], n) == r.s
      && (res == BadMatrix <==> HasInconsistentRow(r.s, eps))
      && (res == Ok <==> !HasInconsistentRow(r.s, eps) && r.p == n && IsIdentity(r.s.m))
    ensures res == Ok ==> forall x :: |x| == n ==>
      (Satisfies(Held(old(A[..]), old(v[..]), n), x) <==> x == v[..])
  {
    ghost var s0 := Held(A[..], v[..], n);
    var p := ReduceInPlace(A, v, n, eps);
    res := ClassifyRowsExact(A, v, n, eps, p);
    if res == Ok {
      forall x | |x| == n
        ensures Satisfies(s0, x) <==> x == v[..]
      {
        IdentityReductionUnique(s0, eps, x);
      }
    }
  }
}
