/**
 * Dense square systems [A | v] as the DC solver builds and reduces them.
 *
 * The solver stores A row-major in a flat buffer of n*n numbers addressed
 * by idx_2_to_1; the specification reads the same buffer as n rows
 * (ToRows). The three elementary row operations of Gauss–Jordan
 * reduction are defined on rows, and each is proved to keep exactly the
 * same solution set.
 */
module Linalg {

  import opened Arith

  function Abs(x: real): (r: real)
    ensures r >= 0.0 && (r == x || r == -x)
  {
    if x < 0.0 then -x else x
  }

  lemma IdxBound(i: nat, j: nat, n: nat)
    requires i < n && j < n
    ensures i * n + j < n * n
  {
    MulDiffAtLeast(n, i, n);
  }

  /** idx_2_to_1: the flat position of entry (i, j) of an n-by-n row-major buffer. */
  function Idx(i: nat, j: nat, n: nat): (r: nat)
    requires i < n && j < n
    ensures r < n * n
  {
    IdxBound(i, j, n);
    i * n + j
  }

  /** Row and column can be read back from a flat position. */
  lemma IdxInverse(i: nat, j: nat, n: nat)
    requires i < n && j < n
    ensures Idx(i, j, n) / n == i && Idx(i, j, n) % n == j
  {
    DivModUnique(i * n + j, n, i, j);
  }

  /** Different entries have different flat positions. */
  lemma IdxInjective(i: nat, j: nat, k: nat, l: nat, n: nat)
    requires i < n && j < n && k < n && l < n && (i, j) != (k, l)
    ensures Idx(i, j, n) != Idx(k, l, n)
  {
    IdxInverse(i, j, n);
    IdxInverse(k, l, n);
  }

  /** Row i of the flat buffer is the n positions from Idx(i, 0, n). */
  lemma RowSpan(i: nat, n: nat)
    requires i < n
    ensures Idx(i, 0, n) + n <= n * n
  {
    MulDiffAtLeast(n, i, n);
  }

  lemma IdxInRow(i: nat, k: nat, n: nat)
    requires i < n && k < n
    ensures Idx(i, k, n) == Idx(i, 0, n) + k
  {
  }

  /** Two different rows occupy disjoint stretches of the buffer. */
  lemma RowsApart(i: nat, r: nat, n: nat)
    requires i < n && r < n && i != r
    ensures Idx(i, 0, n) + n <= Idx(r, 0, n) || Idx(r, 0, n) + n <= Idx(i, 0, n)
  {
    if i < r {
      MulDiffAtLeast(r, i, n);
    } else {
      MulDiffAtLeast(i, r, n);
    }
  }

  predicate IsMatrix(m: seq<seq<real>>, n: nat)
  {
    |m| == n && forall i :: 0 <= i < n ==> |m[i]| == n
  }

  function Row(a: seq<real>, n: nat, i: nat): (r: seq<real>)
    requires |a| == n * n && i < n
    ensures |r| == n && forall j :: 0 <= j < n ==> r[j] == a[Idx(i, j, n)]
  {
    seq(n, j requires 0 <= j < n => a[Idx(i, j, n)])
  }

  /** The rows of a row-major n-by-n buffer. */
  function ToRows(a: seq<real>, n: nat): (m: seq<seq<real>>)
    requires |a| == n * n
    ensures IsMatrix(m, n)
    ensures forall i, j :: 0 <= i < n && 0 <= j < n ==> m[i][j] == a[Idx(i, j, n)]
  {
    seq(n, i requires 0 <= i < n => Row(a, n, i))
  }

  /** A buffer holds matrix m exactly when every entry agrees. */
  lemma ToRowsExt(a: seq<real>, n: nat, m: seq<seq<real>>)
    requires |a| == n * n && IsMatrix(m, n)
    requires forall i, j :: 0 <= i < n && 0 <= j < n ==> a[Idx(i, j, n)] == m[i][j]
    ensures ToRows(a, n) == m
  {
    var r := ToRows(a, n);
    forall i | 0 <= i < n
      ensures r[i] == m[i]
    {
    }
  }

  // ---------------------------------------------------------------------
  // Solutions
  // ---------------------------------------------------------------------

  /** The sum of r[j] * x[j] over j < k. */
  function DotTo(r: seq<real>, x: seq<real>, k: nat): real
    requires k <= |r| && k <= |x|
  {
    if k == 0 then 0.0 else DotTo(r, x, k - 1) + r[k - 1] * x[k - 1]
  }

  function Dot(r: seq<real>, x: seq<real>): real
    requires |r| == |x|
  {
    DotTo(r, x, |r|)
  }

  /** The augmented system [m | b]. */
  datatype System = System(m: seq<seq<real>>, b: seq<real>)

  predicate Square(s: System)
  {
    IsMatrix(s.m, |s.m|) && |s.b| == |s.m|
  }

  /** x solves the system: every row's dot product with x equals its right-hand side. */
  predicate Satisfies(s: System, x: seq<real>)
    requires Square(s) && |x| == |s.m|
  {
    forall i :: 0 <= i < |s.m| ==> Dot(s.m[i], x) == s.b[i]
  }

  // ---------------------------------------------------------------------
  // Row operations
  // ---------------------------------------------------------------------

  function ScaledRow(r: seq<real>, piv: real): (t: seq<real>)
    requires piv != 0.0
    ensures |t| == |r| && forall j :: 0 <= j < |r| ==> t[j] == r[j] / piv
  {
    seq(|r|, j requires 0 <= j < |r| => r[j] / piv)
  }

  function DifferenceRow(r: seq<real>, s: seq<real>, f: real): (t: seq<real>)
    requires |r| == |s|
    ensures |t| == |r| && forall j :: 0 <= j < |r| ==> t[j] == r[j] - f * s[j]
  {
    seq(|r|, j requires 0 <= j < |r| => r[j] - f * s[j])
  }

  /** Exchanges rows r and q of [m | b]. */
  function SwapRows(s: System, r: nat, q: nat): (t: System)
    requires Square(s) && r < |s.m| && q < |s.m|
    ensures Square(t) && |t.m| == |s.m|
    ensures t.m[r] == s.m[q] && t.m[q] == s.m[r] && t.b[r] == s.b[q] && t.b[q] == s.b[r]
    ensures forall i :: 0 <= i < |s.m| && i != r && i != q ==> t.m[i] == s.m[i]
    ensures forall i :: 0 <= i < |s.m| && i != r && i != q ==> t.b[i] == s.b[i]
  {
    System(s.m[r := s.m[q]][q := s.m[r]], s.b[r := s.b[q]][q := s.b[r]])
  }

  /** Divides row r of [m | b] by piv. */
  function DivideRow(s: System, r: nat, piv: real): (t: System)
    requires Square(s) && r < |s.m| && piv != 0.0
    ensures Square(t) && |t.m| == |s.m|
    ensures forall j :: 0 <= j < |s.m| ==> t.m[r][j] == s.m[r][j] / piv
    ensures t.b[r] == s.b[r] / piv
    ensures forall i :: 0 <= i < |s.m| && i != r ==> t.m[i] == s.m[i]
    ensures forall i :: 0 <= i < |s.m| && i != r ==> t.b[i] == s.b[i]
  {
    System(s.m[r := ScaledRow(s.m[r], piv)], s.b[r := s.b[r] / piv])
  }

  /** Subtracts f times row r from row i of [m | b]. */
  function SubtractRow(s: System, i: nat, r: nat, f: real): (t: System)
    requires Square(s) && i < |s.m| && r < |s.m|
    ensures Square(t) && |t.m| == |s.m|
    ensures forall j :: 0 <= j < |s.m| ==> t.m[i][j] == s.m[i][j] - f * s.m[r][j]
    ensures t.b[i] == s.b[i] - f * s.b[r]
    ensures forall k :: 0 <= k < |s.m| && k != i ==> t.m[k] == s.m[k]
    ensures forall k :: 0 <= k < |s.m| && k != i ==> t.b[k] == s.b[k]
  {
    System(s.m[i := DifferenceRow(s.m[i], s.m[r], f)], s.b[i := s.b[i] - f * s.b[r]])
  }

  lemma {:induction false} DotScaled(r: seq<real>, x: seq<real>, piv: real, k: nat)
    requires piv != 0.0 && k <= |r| && k <= |x|
    ensures DotTo(ScaledRow(r, piv), x, k) == DotTo(r, x, k) / piv
  {
    if k > 0 {
      DotScaled(r, x, piv, k - 1);
      var a := DotTo(r, x, k - 1);
      assert ScaledRow(r, piv)[k - 1] == r[k - 1] / piv;
      assert a / piv + (r[k - 1] / piv) * x[k - 1] == (a + r[k - 1] * x[k - 1]) / piv;
    }
  }

  lemma {:induction false} DotDifference(r: seq<real>, s: seq<real>, x: seq<real>, f: real, k: nat)
    requires |r| == |s| && k <= |r| && k <= |x|
    ensures DotTo(DifferenceRow(r, s, f), x, k) == DotTo(r, x, k) - f * DotTo(s, x, k)
  {
    if k > 0 {
      DotDifference(r, s, x, f, k - 1);
      assert DifferenceRow(r, s, f)[k - 1] == r[k - 1] - f * s[k - 1];
    }
  }

  /** Exchanging two rows keeps exactly the same solutions. */
  lemma SwapRowsPreserves(s: System, r: nat, q: nat, x: seq<real>)
    requires Square(s) && r < |s.m| && q < |s.m| && |x| == |s.m|
    ensures Satisfies(SwapRows(s, r, q), x) <==> Satisfies(s, x)
  {
    var t := SwapRows(s, r, q);
    if Satisfies(s, x) {
      forall i | 0 <= i < |t.m|
        ensures Dot(t.m[i], x) == t.b[i]
      {
        if i == r {
          assert Dot(s.m[q], x) == s.b[q];
        } else if i == q {
          assert Dot(s.m[r], x) == s.b[r];
        }
      }
    }
    if Satisfies(t, x) {
      forall i | 0 <= i < |s.m|
        ensures Dot(s.m[i], x) == s.b[i]
      {
        if i == r {
          assert Dot(t.m[q], x) == t.b[q];
        } else if i == q {
          assert Dot(t.m[r], x) == t.b[r];
        } else {
          assert Dot(t.m[i], x) == t.b[i];
        }
      }
    }
  }

  /** Dividing a row by a non-zero pivot keeps exactly the same solutions. */
  lemma DivideRowPreserves(s: System, r: nat, piv: real, x: seq<real>)
    requires Square(s) && r < |s.m| && piv != 0.0 && |x| == |s.m|
    ensures Satisfies(DivideRow(s, r, piv), x) <==> Satisfies(s, x)
  {
    var t := DivideRow(s, r, piv);
    DotScaled(s.m[r], x, piv, |x|);
    assert t.m[r] == ScaledRow(s.m[r], piv);
    var a := Dot(s.m[r], x);
    assert a / piv == s.b[r] / piv <==> a == s.b[r];
    if Satisfies(s, x) {
      forall i | 0 <= i < |t.m|
        ensures Dot(t.m[i], x) == t.b[i]
      {
        if i != r {
          assert Dot(s.m[i], x) == s.b[i];
        }
      }
    }
    if Satisfies(t, x) {
      forall i | 0 <= i < |s.m|
        ensures Dot(s.m[i], x) == s.b[i]
      {
        assert Dot(t.m[i], x) == t.b[i];
      }
    }
  }

  /** Subtracting a multiple of another row keeps exactly the same solutions. */
  lemma SubtractRowPreserves(s: System, i: nat, r: nat, f: real, x: seq<real>)
    requires Square(s) && i < |s.m| && r < |s.m| && i != r && |x| == |s.m|
    ensures Satisfies(SubtractRow(s, i, r, f), x) <==> Satisfies(s, x)
  {
    var t := SubtractRow(s, i, r, f);
    DotDifference(s.m[i], s.m[r], x, f, |x|);
    assert t.m[i] == DifferenceRow(s.m[i], s.m[r], f);
    assert t.m[r] == s.m[r] && t.b[r] == s.b[r];
    if Satisfies(s, x) {
      forall k | 0 <= k < |t.m|
        ensures Dot(t.m[k], x) == t.b[k]
      {
        assert Dot(s.m[k], x) == s.b[k];
        assert Dot(s.m[r], x) == s.b[r];
      }
    }
    if Satisfies(t, x) {
      forall k | 0 <= k < |s.m|
        ensures Dot(s.m[k], x) == s.b[k]
      {
        assert Dot(t.m[k], x) == t.b[k];
        assert Dot(t.m[r], x) == t.b[r];
      }
    }
  }
}
