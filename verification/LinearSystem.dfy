// Linear systems over GF(2^8), as the decoder meets them: n rows whose first n + 1
// entries are the coefficients and the right-hand side.  A candidate solution x is
// written y = x + [1], so that a row holds exactly when its product with y is zero.
module LinearSystem {
  import opened Algebra
  import opened GaloisField

  type Row = seq<bv8>
  type Matrix = seq<Row>

  // The product of r and y over the columns from t on; r may be wider than y.
  function Dot(r: Row, y: Row, t: nat): bv8
    requires t <= |y| <= |r|
    decreases |y| - t
  {
    if t == |y| then 0 else Add28(Multiply28(r[t], y[t]), Dot(r, y, t + 1))
  }

  ghost predicate Wide(A: Matrix, w: nat) {
    forall k | 0 <= k < |A| :: |A[k]| >= w
  }

  // y solves every row of A.
  ghost predicate Solves(A: Matrix, y: Row) {
    Wide(A, |y|) && forall k | 0 <= k < |A| :: Dot(A[k], y, 0) == 0
  }

  ghost predicate SameSolutions(A: Matrix, B: Matrix, w: nat) {
    forall y: Row | |y| == w :: Solves(A, y) <==> Solves(B, y)
  }

  // No nonzero vector is mapped to zero by the coefficients: y has a zero in the last place.
  ghost predicate TrivialKernel(A: Matrix) {
    forall y: Row | |y| == |A| + 1 && y[|A|] == 0 && Solves(A, y) :: AllZero(ByteField(), y)
  }

  // ----- the product

  lemma {:induction false} DotAgree(r: Row, s: Row, y: Row, t: nat)
    requires t <= |y| <= |r| && |y| <= |s|
    requires forall j | t <= j < |y| :: r[j] == s[j]
    ensures Dot(r, y, t) == Dot(s, y, t)
    decreases |y| - t
  {
    if t < |y| {
      DotAgree(r, s, y, t + 1);
    }
  }

  lemma {:induction false} DotVectorAgree(r: Row, y: Row, z: Row, t: nat)
    requires t <= |y| == |z| <= |r|
    requires forall j | t <= j < |y| :: y[j] == z[j]
    ensures Dot(r, y, t) == Dot(r, z, t)
    decreases |y| - t
  {
    if t < |y| {
      DotVectorAgree(r, y, z, t + 1);
    }
  }

  lemma {:induction false} DotVanishes(r: Row, y: Row, t: nat)
    requires t <= |y| <= |r|
    requires forall j | t <= j < |y| :: r[j] == 0 || y[j] == 0
    ensures Dot(r, y, t) == 0
    decreases |y| - t
  {
    if t < |y| {
      DotVanishes(r, y, t + 1);
      MultiplyZero(r[t]);
      MultiplyZero(y[t]);
      AddLaws(0, 0, 0);
    }
  }

  // Leading zeros of a row do not count.
  lemma {:induction false} DotSkip(r: Row, y: Row, t: nat, u: nat)
    requires t <= u <= |y| <= |r|
    requires forall j | t <= j < u :: r[j] == 0
    ensures Dot(r, y, t) == Dot(r, y, u)
    decreases u - t
  {
    hide Add28, Multiply28;
    if t < u {
      DotSkip(r, y, t + 1, u);
      MultiplyZero(y[t]);
      AddLaws(0, Dot(r, y, t + 1), 0);
      AddLaws(Dot(r, y, t + 1), 0, 0);
    }
  }

  // s is r plus c times p, in the columns that y has.
  ghost predicate RowSum(s: Row, r: Row, c: bv8, p: Row, w: nat) {
    && |s| >= w && |r| >= w && |p| >= w
    && forall j | 0 <= j < w :: s[j] == Add28(r[j], Multiply28(c, p[j]))
  }

  lemma {:induction false} DotRowSum(s: Row, r: Row, c: bv8, p: Row, y: Row, t: nat)
    requires t <= |y| && RowSum(s, r, c, p, |y|)
    ensures Dot(s, y, t) == Add28(Dot(r, y, t), Multiply28(c, Dot(p, y, t)))
    decreases |y| - t
  {
    hide Add28, Multiply28;
    if t == |y| {
      MultiplyZero(c);
      AddLaws(0, 0, 0);
    } else {
      DotRowSum(s, r, c, p, y, t + 1);
      var a, b, e := r[t], Multiply28(c, p[t]), y[t];
      MultiplyCommutes(Add28(a, b), e);
      MultiplyDistributes(e, a, b);
      MultiplyCommutes(e, a);
      MultiplyCommutes(e, b);
      MultiplyAssociates(c, p[t], e);
      MultiplyDistributes(c, Multiply28(p[t], e), Dot(p, y, t + 1));
      AddSwap(Multiply28(a, e), Multiply28(b, e), Dot(r, y, t + 1), Multiply28(c, Dot(p, y, t + 1)));
    }
  }

  // The product is additive in the vector too.
  lemma {:induction false} DotVectorSum(r: Row, y: Row, z: Row, s: Row, t: nat)
    requires t <= |y| == |z| == |s| <= |r|
    requires forall j | 0 <= j < |y| :: s[j] == Add28(y[j], z[j])
    ensures Dot(r, s, t) == Add28(Dot(r, y, t), Dot(r, z, t))
    decreases |y| - t
  {
    hide Add28, Multiply28;
    if t == |y| {
      AddLaws(0, 0, 0);
    } else {
      DotVectorSum(r, y, z, s, t + 1);
      MultiplyDistributes(r[t], y[t], z[t]);
      AddSwap(Multiply28(r[t], y[t]), Multiply28(r[t], z[t]), Dot(r, y, t + 1), Dot(r, z, t + 1));
    }
  }

  // A vector with one entry c, the rest zero, picks c times the entry of the row.
  lemma {:induction false} DotUnit(r: Row, y: Row, t: nat, j: nat, c: bv8)
    requires t <= j < |y| <= |r| && y[j] == c
    requires forall h | 0 <= h < |y| && h != j :: y[h] == 0
    ensures Dot(r, y, t) == Multiply28(r[j], c)
    decreases |y| - t
  {
    hide Add28, Multiply28;
    MultiplyZero(r[t]);
    if t < j {
      DotUnit(r, y, t + 1, j, c);
      AddLaws(0, Dot(r, y, t + 1), 0);
      AddLaws(Dot(r, y, t + 1), 0, 0);
    } else {
      DotVanishes(r, y, t + 1);
      AddLaws(Multiply28(r[t], c), 0, 0);
    }
  }

  // With a trivial kernel there is at most one solution.
  lemma SolutionIsUnique(A: Matrix, y: Row, z: Row)
    requires TrivialKernel(A) && |y| == |z| == |A| + 1
    requires y[|A|] == 1 && z[|A|] == 1
    requires Solves(A, y) && Solves(A, z)
    ensures y == z
  {
    hide Add28, Multiply28;
    var s := seq(|y|, j requires 0 <= j < |y| => Add28(y[j], z[j]));
    AddLaws(1, 1, 1);
    AddLaws(0, 0, 0);
    forall k | 0 <= k < |A| ensures Dot(A[k], s, 0) == 0 {
      DotVectorSum(A[k], y, z, s, 0);
    }
    assert Solves(A, s);
    forall j | 0 <= j < |y| ensures y[j] == z[j] {
      assert s[j] == 0;
      AddLaws(y[j], z[j], z[j]);
      AddLaws(y[j], 0, 0);
      AddLaws(z[j], 0, 0);
    }
  }

  // ----- one elimination step

  // Below the diagonal, the first i columns are zero.
  ghost predicate Upper(A: Matrix, i: nat)
    requires Wide(A, |A| + 1)
  {
    forall k, j | 0 <= j < k < |A| && j < i :: A[k][j] == 0
  }

  // B is A with rows i and r exchanged in the columns i..|A|.
  ghost predicate Exchanged(A: Matrix, B: Matrix, i: nat, r: nat) {
    && |A| == |B| && i <= r < |A|
    && Wide(A, |A| + 1) && Wide(B, |A| + 1)
    && (forall k | 0 <= k < |A| && k != i && k != r :: A[k] == B[k])
    && (forall j | i <= j <= |A| :: B[i][j] == A[r][j] && B[r][j] == A[i][j])
    && (forall j | 0 <= j < i :: B[i][j] == A[i][j] && B[r][j] == A[r][j])
  }

  lemma ExchangeRow(A: Matrix, B: Matrix, i: nat, r: nat, y: Row)
    requires Exchanged(A, B, i, r) && Upper(A, i) && |y| == |A| + 1
    ensures Dot(B[i], y, 0) == Dot(A[r], y, 0)
    ensures Dot(B[r], y, 0) == Dot(A[i], y, 0)
  {
    hide Dot;
    forall j | 0 <= j < |y| ensures B[i][j] == A[r][j] && B[r][j] == A[i][j] {
      if j < i {
        assert A[i][j] == 0;
        assert A[r][j] == 0;
      }
    }
    DotAgree(B[i], A[r], y, 0);
    DotAgree(B[r], A[i], y, 0);
  }

  // Exchanging only the columns from i on is exchanging the rows.
  lemma ExchangeKeepsSolutions(A: Matrix, B: Matrix, i: nat, r: nat)
    requires Exchanged(A, B, i, r) && Upper(A, i)
    ensures SameSolutions(A, B, |A| + 1)
    ensures Upper(B, i)
  {
    hide Dot;
    forall y: Row | |y| == |A| + 1 ensures Solves(A, y) <==> Solves(B, y) {
      ExchangeRow(A, B, i, r, y);
    }
  }

  // B is A with c times row i taken from row k, in the columns i..|A|.
  ghost predicate Reduced(A: Matrix, B: Matrix, i: nat, k: nat, c: bv8) {
    && |A| == |B| && i < k < |A|
    && Wide(A, |A| + 1) && Wide(B, |A| + 1)
    && (forall h | 0 <= h < |A| && h != k :: A[h] == B[h])
    && (forall j | i <= j <= |A| :: B[k][j] == Sub28(A[k][j], Multiply28(c, A[i][j])))
    && (forall j | 0 <= j < i :: B[k][j] == A[k][j])
  }

  lemma ReduceKeepsSolutions(A: Matrix, B: Matrix, i: nat, k: nat, c: bv8)
    requires Reduced(A, B, i, k, c) && Upper(A, i)
    ensures SameSolutions(A, B, |A| + 1)
    ensures Upper(B, i)
  {
    hide Multiply28, Dot;
    var w := |A| + 1;
    forall j | 0 <= j < w ensures B[k][j] == Add28(A[k][j], Multiply28(c, A[i][j])) {
      if j < i {
        assert A[i][j] == 0;
        MultiplyZero(c);
        AddLaws(A[k][j], 0, 0);
      }
    }
    hide Add28;
    forall y: Row | |y| == w ensures Solves(A, y) <==> Solves(B, y) {
      DotRowSum(B[k], A[k], c, A[i], y, 0);
      MultiplyZero(c);
      AddLaws(Dot(A[k], y, 0), 0, 0);
    }
  }

  // ----- triangular systems

  // Extends a vector that solves the rows from t on by entries t-1, ..., 0.
  lemma {:induction false} ExtendKernel(A: Matrix, i: nat, t: nat, y: Row) returns (z: Row)
    requires Wide(A, |A| + 1) && Upper(A, |A|) && t <= i < |A| == |y| - 1
    requires forall h | 0 <= h < i :: A[h][h] != 0
    requires forall h | t <= h < |A| :: Dot(A[h], y, 0) == 0
    ensures |z| == |y| && (forall j | t <= j < |y| :: z[j] == y[j]) && Solves(A, z)
    decreases t
  {
    if t == 0 {
      z := y;
    } else {
      var u := t - 1;
      var rest := Dot(A[u], y, t);
      var v := Multiply28(rest, Inv28(A[u][u]));
      var next := y[u := v];
      forall h | u <= h < |A| ensures Dot(A[h], next, 0) == 0 {
        if h == u {
          SolveDiagonal(A[u], next, u, rest, y);
        } else {
          DotSkip(A[h], next, 0, t);
          DotSkip(A[h], y, 0, t);
          DotVectorAgree(A[h], next, y, t);
        }
      }
      z := ExtendKernel(A, i, u, next);
    }
  }

  // Dividing what the later columns leave by the diagonal entry makes row u hold.
  lemma SolveDiagonal(r: Row, x: Row, u: nat, rest: bv8, y: Row)
    requires u < |x| == |y| <= |r| && r[u] != 0
    requires forall j | 0 <= j < u :: r[j] == 0
    requires forall j | u < j < |x| :: x[j] == y[j]
    requires rest == Dot(r, y, u + 1) && x[u] == Multiply28(rest, Inv28(r[u]))
    ensures Dot(r, x, 0) == 0
  {
    hide Add28, Multiply28, Inv28;
    DotSkip(r, x, 0, u);
    DotVectorAgree(r, x, y, u + 1);
    MultiplyInverse(r[u]);
    MultiplyCommutes(rest, Inv28(r[u]));
    MultiplyAssociates(r[u], Inv28(r[u]), rest);
    MultiplyOne(rest);
    AddLaws(rest, rest, rest);
  }

  // A zero at place i of the diagonal leaves column i free: a kernel vector has a 1 there.
  lemma FreeColumn(A: Matrix, i: nat) returns (z: Row)
    requires Wide(A, |A| + 1) && Upper(A, |A|) && i < |A|
    requires forall h | 0 <= h < i :: A[h][h] != 0
    requires A[i][i] == 0
    ensures |z| == |A| + 1 && z[i] == 1 && z[|A|] == 0 && Solves(A, z)
  {
    var y: Row := seq(|A| + 1, j => if j == i then 1 else 0);
    forall h | i <= h < |A| ensures Dot(A[h], y, 0) == 0 {
      DotVanishes(A[h], y, 0);
    }
    z := ExtendKernel(A, i, i, y);
  }

  // A triangular system with trivial kernel has no zero on its diagonal.
  lemma DiagonalNonzero(A: Matrix, i: nat)
    requires Wide(A, |A| + 1) && Upper(A, |A|) && TrivialKernel(A) && i < |A|
    requires forall h | 0 <= h < i :: A[h][h] != 0
    ensures A[i][i] != 0
  {
    if A[i][i] == 0 {
      var z := FreeColumn(A, i);
      assert false;
    }
  }

  lemma {:induction false} DiagonalsNonzero(A: Matrix, i: nat)
    requires Wide(A, |A| + 1) && Upper(A, |A|) && TrivialKernel(A) && i <= |A|
    ensures forall h | 0 <= h < i :: A[h][h] != 0
  {
    if i > 0 {
      DiagonalsNonzero(A, i - 1);
      DiagonalNonzero(A, i - 1);
    }
  }
}
