// The erasure decoder: Gaussian elimination over the surviving symbols.
module Decoder {
  import opened Algebra
  import opened GaloisField
  import opened CodeDistance
  import opened Encoder
  import opened Sequences
  import opened LinearSystem

  // ----- gaussElimination

  predicate AtMost(x: bv8, y: bv8) {
    x <= y
  }

  lemma AtMostTransitive(x: bv8, y: bv8, z: bv8)
    ensures AtMost(x, y) && AtMost(y, z) ==> AtMost(x, z)
    ensures AtMost(x, x)
    ensures AtMost(x, y) <==> !(x > y)
    ensures AtMost(x, y) || AtMost(y, x)
  {
  }

  // The first row at or below i with the largest entry in column i.
  method PivotRow(M: array<Row>, i: nat) returns (maxRow: nat)
    requires i < M.Length && Wide(M[..], M.Length + 1)
    ensures i <= maxRow < M.Length
    ensures forall k | i <= k < M.Length :: AtMost(M[k][i], M[maxRow][i])
    ensures forall k | i <= k < maxRow :: !AtMost(M[maxRow][i], M[k][i])
  {
    hide AtMost;
    forall k | 0 <= k < M.Length ensures |M[k]| > M.Length {
      assert M[..][k] == M[k];
    }
    var max := M[i][i];
    maxRow := i;
    AtMostTransitive(max, max, max);
    for k := i + 1 to M.Length
      invariant i <= maxRow < M.Length && max == M[maxRow][i]
      invariant forall h | i <= h < k :: AtMost(M[h][i], max)
      invariant forall h | i <= h < maxRow :: !AtMost(max, M[h][i])
    {
      AtMostTransitive(M[k][i], max, max);
      if M[k][i] > max {
        forall h | i <= h < k ensures AtMost(M[h][i], M[k][i]) && !AtMost(M[k][i], M[h][i]) {
          AtMostTransitive(M[h][i], max, M[k][i]);
          AtMostTransitive(M[k][i], M[h][i], max);
          AtMostTransitive(M[k][i], max, max);
        }
        max := M[k][i];
        maxRow := k;
        AtMostTransitive(max, max, max);
      }
    }
  }

  method SwapRows(M: array<Row>, i: nat, maxRow: nat)
    requires i <= maxRow < M.Length && Wide(M[..], M.Length + 1)
    modifies M
    ensures Exchanged(old(M[..]), M[..], i, maxRow)
  {
    var n := M.Length;
    ghost var A := M[..];
    for k := i to n + 1
      invariant forall h | 0 <= h < n && h != i && h != maxRow :: M[h] == A[h]
      invariant |M[i]| == |A[i]| && |M[maxRow]| == |A[maxRow]|
      invariant forall j | i <= j < k :: M[i][j] == A[maxRow][j] && M[maxRow][j] == A[i][j]
      invariant forall j | 0 <= j <= n && (j < i || k <= j) :: M[i][j] == A[i][j] && M[maxRow][j] == A[maxRow][j]
    {
      var tmp := M[maxRow][k];
      M[maxRow] := M[maxRow][k := M[i][k]];
      M[i] := M[i][k := tmp];
    }
  }

  // Takes from row k the multiple of row i that clears its entry in column i.
  method EliminateRow(M: array<Row>, i: nat, k: nat)
    requires i < k < M.Length && Wide(M[..], M.Length + 1)
    requires AtMost(M[k][i], M[i][i])
    modifies M
    ensures exists c :: Reduced(old(M[..]), M[..], i, k, c)
    ensures Wide(M[..], M.Length + 1) && M[k][i] == 0
    ensures forall h | 0 <= h < M.Length && h != k :: M[h] == old(M[h])
  {
    hide AtMost, Multiply28, Sub28, Inv28;
    var n := M.Length;
    ghost var A := M[..];
    var c := Multiply28(M[k][i], Inv28(M[i][i]));
    PivotClears(M[k][i], M[i][i]);
    for j := i to n + 1
      invariant forall h | 0 <= h < n && h != k :: M[h] == A[h]
      invariant |M[k]| == |A[k]|
      invariant forall h | 0 <= h <= n && (h < i || j <= h) :: M[k][h] == A[k][h]
      invariant forall h | i <= h < j :: M[k][h] == Sub28(A[k][h], Multiply28(c, A[i][h]))
      invariant i < j ==> M[k][i] == 0
    {
      if i == j {
        M[k] := M[k][j := 0];
      } else {
        M[k] := M[k][j := Sub28(M[k][j], Multiply28(c, M[i][j]))];
      }
    }
    assert Reduced(A, M[..], i, k, c);
  }

  // The entry that the code sets to zero is what the subtraction would leave, even
  // when the pivot is zero: the pivot is the maximum, so then the entry is zero too.
  lemma PivotClears(entry: bv8, pivot: bv8)
    requires AtMost(entry, pivot)
    ensures Sub28(entry, Multiply28(Multiply28(entry, Inv28(pivot)), pivot)) == 0
  {
    MultiplyZero(Inv28(pivot));
    MultiplyZero(pivot);
    hide Multiply28, Inv28;
    if pivot != 0 {
      MultiplyAssociates(entry, Inv28(pivot), pivot);
      MultiplyCommutes(Inv28(pivot), pivot);
      MultiplyInverse(pivot);
      MultiplyOne(entry);
    }
    assert Sub28(entry, entry) == 0;
  }

  method EliminateBelow(M: array<Row>, i: nat)
    requires i < M.Length && Wide(M[..], M.Length + 1)
    requires Upper(M[..], i)
    requires forall k | i <= k < M.Length :: AtMost(M[k][i], M[i][i])
    modifies M
    ensures Wide(M[..], M.Length + 1)
    ensures SameSolutions(old(M[..]), M[..], M.Length + 1)
    ensures Upper(M[..], i + 1)
  {
    hide AtMost, Solves, Dot, Reduced;
    var n := M.Length;
    ghost var A := M[..];
    for k := i + 1 to n
      invariant Wide(M[..], n + 1)
      invariant SameSolutions(A, M[..], n + 1)
      invariant Upper(M[..], i)
      invariant forall h | i < h < k :: M[h][i] == 0
      invariant forall h | 0 <= h < n && !(i < h < k) :: M[h] == A[h]
    {
      ghost var B := M[..];
      assert B[k] == A[k] && B[i] == A[i];
      EliminateRow(M, i, k);
      ghost var c :| Reduced(B, M[..], i, k, c);
      ReduceKeepsSolutions(B, M[..], i, k, c);
    }
  }

  // Moves the term of the known x[i] to the right-hand sides of the rows above.
  method SubtractColumn(M: array<Row>, i: nat, xi: bv8)
    requires i < M.Length && Wide(M[..], M.Length + 1)
    modifies M
    ensures forall k | 0 <= k < i :: |old(M[k])| > M.Length &&
              M[k] == old(M[k])[M.Length := Sub28(old(M[k])[M.Length], Multiply28(xi, old(M[k])[i]))]
    ensures forall k | i <= k < M.Length :: M[k] == old(M[k])
  {
    hide Sub28, Multiply28;
    var n := M.Length;
    ghost var A := M[..];
    for k := i downto 0
      invariant forall h | k <= h < i :: M[h] == A[h][n := Sub28(A[h][n], Multiply28(xi, A[h][i]))]
      invariant forall h | 0 <= h < n && !(k <= h < i) :: M[h] == A[h]
    {
      M[k] := M[k][n := Sub28(M[k][n], Multiply28(xi, M[k][i]))];
    }
  }

  // What back substitution has achieved once the unknowns from i on are known.
  ghost predicate BackSolved(U: Matrix, M: Matrix, y: Row, i: nat) {
    && |U| == |M| == |y| - 1 && i <= |U| && y[|U|] == 1
    && Wide(U, |U| + 1) && Wide(M, |U| + 1) && Upper(U, |U|)
    && (forall k, j | 0 <= k < |U| && 0 <= j < |U| :: M[k][j] == U[k][j])
    && (forall k | 0 <= k < i :: M[k][|U|] == Dot(U[k], y, i))
    && ((forall h | 0 <= h < |U| :: U[h][h] != 0) ==> forall k | i <= k < |U| :: Dot(U[k], y, 0) == 0)
  }

  lemma BackSolveStart(U: Matrix, y: Row)
    requires Wide(U, |U| + 1) && Upper(U, |U|) && |y| == |U| + 1 && y[|U|] == 1
    ensures BackSolved(U, U, y, |U|)
  {
    hide Add28, Multiply28;
    forall k | 0 <= k < |U| ensures U[k][|U|] == Dot(U[k], y, |U|) {
      assert Dot(U[k], y, |U| + 1) == 0;
      MultiplyOne(U[k][|U|]);
      AddLaws(U[k][|U|], 0, 0);
    }
  }

  lemma BackSolveStep(U: Matrix, M: Matrix, y: Row, i: nat, N: Matrix, xi: bv8)
    requires BackSolved(U, M, y, i + 1) && |N| == |U|
    requires xi == Multiply28(M[i][|U|], Inv28(M[i][i]))
    requires forall k | 0 <= k < i :: N[k] == M[k][|U| := Sub28(M[k][|U|], Multiply28(xi, M[k][i]))]
    requires forall k | i <= k < |U| :: N[k] == M[k]
    ensures BackSolved(U, N, y[i := xi], i)
  {
    hide Multiply28, Inv28;
    var z := y[i := xi];
    forall k | 0 <= k < i ensures N[k][|U|] == Dot(U[k], z, i) {
      DotVectorAgree(U[k], z, y, i + 1);
      MultiplyCommutes(xi, U[k][i]);
      AddLaws(M[k][|U|], Multiply28(xi, U[k][i]), 0);
    }
    if forall h | 0 <= h < |U| :: U[h][h] != 0 {
      forall k | i <= k < |U| ensures Dot(U[k], z, 0) == 0 {
        if k == i {
          SolveDiagonal(U[i], z, i, M[i][|U|], y);
        } else {
          DotSkip(U[k], z, 0, i + 1);
          DotSkip(U[k], y, 0, i + 1);
          DotVectorAgree(U[k], z, y, i + 1);
        }
      }
    }
  }

  lemma BackSolvedShape(U: Matrix, M: Matrix, y: Row, i: nat)
    requires BackSolved(U, M, y, i)
    ensures |U| == |M| == |y| - 1 && i <= |U| && Wide(U, |U| + 1) && Wide(M, |U| + 1)
  {
  }

  lemma BackSolveEnd(U: Matrix, M: Matrix, y: Row)
    requires BackSolved(U, M, y, 0)
    ensures (forall h | 0 <= h < |U| :: |U[h]| > |U|)
    ensures (forall h | 0 <= h < |U| :: U[h][h] != 0) ==> Solves(U, y)
  {
  }

  // Each unknown is what its row says, given the ones after it; it is 0 where the pivot is,
  // as InverseOfZero says.
  ghost predicate RowByRow(U: Matrix, y: Row, i: nat) {
    |y| == |U| + 1 && Wide(U, |U| + 1) &&
    forall k | i <= k < |U| :: y[k] == Multiply28(Dot(U[k], y, k + 1), Inv28(U[k][k]))
  }

  lemma RowByRowStep(U: Matrix, M: Matrix, y: Row, i: nat, xi: bv8)
    requires BackSolved(U, M, y, i + 1) && RowByRow(U, y, i + 1)
    requires xi == Multiply28(M[i][|U|], Inv28(M[i][i]))
    ensures RowByRow(U, y[i := xi], i)
  {
    hide Multiply28, Inv28, Dot;
    var z := y[i := xi];
    forall k | i <= k < |U| ensures z[k] == Multiply28(Dot(U[k], z, k + 1), Inv28(U[k][k])) {
      DotVectorAgree(U[k], z, y, k + 1);
    }
  }

  method BackSubstitute(M: array<Row>) returns (solution: seq<bv8>)
    requires Wide(M[..], M.Length + 1) && Upper(M[..], M.Length)
    modifies M
    ensures |solution| == M.Length
    ensures RowByRow(old(M[..]), solution + [1], 0)
    ensures (forall h | 0 <= h < M.Length :: old(M[..])[h][h] != 0) ==> Solves(old(M[..]), solution + [1])
  {
    hide Sub28, Multiply28, Inv28, BackSolved, Solves, Upper, Dot;
    var n := M.Length;
    ghost var U := M[..];
    var x := new bv8[n](_ => 0);
    ghost var y := x[..] + [1];
    BackSolveStart(U, y);
    for i := n downto 0
      invariant y == x[..] + [1]
      invariant BackSolved(U, M[..], y, i) && RowByRow(U, y, i)
    {
      ghost var B := M[..];
      BackSolvedShape(U, B, y, i + 1);
      assert B[i] == M[i];
      x[i] := Multiply28(M[i][n], Inv28(M[i][i]));
      SubtractColumn(M, i, x[i]);
      BackSolveStep(U, B, y, i, M[..], x[i]);
      RowByRowStep(U, B, y, i, x[i]);
      y := y[i := x[i]];
    }
    BackSolveEnd(U, M[..], y);
    solution := x[..];
  }

  // The solution of the triangular system is the one solution of the original system.
  lemma TriangularSolution(A: Matrix, U: Matrix, x: Row)
    requires |U| == |A| == |x| && Wide(A, |A| + 1) && Wide(U, |A| + 1) && Upper(U, |U|)
    requires SameSolutions(A, U, |A| + 1) && TrivialKernel(A)
    requires (forall h | 0 <= h < |U| :: U[h][h] != 0) ==> Solves(U, x + [1])
    ensures Solves(A, x + [1])
    ensures forall y: Row | |y| == |A| + 1 && y[|A|] == 1 && Solves(A, y) :: y == x + [1]
  {
    hide Dot;
    assert TrivialKernel(U);
    DiagonalsNonzero(U, |U|);
    assert Solves(A, x + [1]);
    forall y: Row | |y| == |A| + 1 && y[|A|] == 1 && Solves(A, y) ensures y == x + [1] {
      SolutionIsUnique(A, y, x + [1]);
    }
  }

  // U is triangular and has the solutions of A.
  ghost predicate Triangular(A: Matrix, U: Matrix) {
    |U| == |A| && Wide(U, |A| + 1) && Upper(U, |A|) && SameSolutions(A, U, |A| + 1)
  }

  method GaussElimination(A: Matrix) returns (x: seq<bv8>)
    requires Wide(A, |A| + 1)
    ensures |x| == |A|
    ensures exists U: Matrix :: Triangular(A, U) && RowByRow(U, x + [1], 0)
    ensures TrivialKernel(A) ==> Solves(A, x + [1])
    ensures TrivialKernel(A) ==> forall y: Row | |y| == |A| + 1 && y[|A|] == 1 && Solves(A, y) :: y == x + [1]
  {
    hide AtMost, Solves, Dot, TrivialKernel, RowByRow;
    var n := |A|;
    var M := new Row[n](k requires 0 <= k < n => A[k]);
    assert M[..] == A;
    for i := 0 to n
      invariant Wide(M[..], n + 1)
      invariant Upper(M[..], i)
      invariant SameSolutions(A, M[..], n + 1)
    {
      var maxRow := PivotRow(M, i);
      ghost var B := M[..];
      SwapRows(M, i, maxRow);
      ExchangeKeepsSolutions(B, M[..], i, maxRow);
      EliminateBelow(M, i);
    }
    ghost var U := M[..];
    x := BackSubstitute(M);
    if TrivialKernel(A) {
      TriangularSolution(A, U, x);
    }
  }

  // ----- decoder

  // A symbol above 256 marks a position whose symbol was lost.
  predicate Lost(symbol: nat) {
    symbol > 256
  }

  // The positions below i that were not lost, in increasing order.
  function Survivors(c: seq<nat>, i: nat): (s: seq<nat>)
    requires i <= |c|
    ensures forall h | 0 <= h < |s| :: s[h] < i && !Lost(c[s[h]])
    ensures forall h, j | 0 <= h < j < |s| :: s[h] < s[j]
  {
    if i == 0 then [] else Survivors(c, i - 1) + if Lost(c[i - 1]) then [] else [i - 1]
  }

  // Received symbols are bytes or loss marks; 256 would pass the loss test of the
  // decoder and then index the tables out of range.
  predicate Received(c: seq<nat>) {
    forall i | 0 <= i < |c| :: c[i] < 256 || Lost(c[i])
  }

  lemma ReceivedIff(c: seq<nat>)
    ensures Received(c) <==> forall i | 0 <= i < |c| :: c[i] != 256
  {
    hide Lost;
    forall i | 0 <= i < |c| ensures Lost(c[i]) <==> c[i] > 256 {
      LostIff(c[i]);
    }
  }

  lemma LostIff(symbol: nat)
    ensures Lost(symbol) <==> symbol > 256
  {
  }

  function PowerRow(x: bv8, w: nat): (r: Row)
    ensures |r| == w
  {
    seq(w, j requires j >= 0 => Power(ByteField(), x, j))
  }

  // The row of the surviving position i in the system for k unknowns.
  function SurvivorRow(c: seq<nat>, k: nat, i: nat): Row
    requires i < |c| && Received(c) && !Lost(c[i])
  {
    PowerRow(Point(i), k) + [c[i] as bv8]
  }

  // The product of a row of powers with the coefficients is polynomial evaluation.
  lemma {:induction false} PowerRowDot(x: bv8, b: bv8, k: nat, y: Row, t: nat)
    requires t <= k && |y| == k + 1
    ensures Dot(PowerRow(x, k) + [b], y, t) ==
            Add28(Multiply28(Power(ByteField(), x, t), EvalByte(y[t..k], x)), Multiply28(b, y[k]))
    decreases k - t
  {
    hide Add28, Multiply28;
    var r := PowerRow(x, k) + [b];
    var w := Power(ByteField(), x, t);
    if t == k {
      assert Dot(r, y, k + 1) == 0;
      MultiplyZero(w);
      AddLaws(Multiply28(b, y[k]), 0, 0);
    } else {
      PowerRowDot(x, b, k, y, t + 1);
      var e := EvalByte(y[t + 1..k], x);
      assert y[t..k][1..] == y[t + 1..k];
      MultiplyDistributes(w, y[t], Multiply28(x, e));
      MultiplyAssociates(w, x, e);
      AddLaws(Multiply28(w, y[t]), Multiply28(w, Multiply28(x, e)), Multiply28(b, y[k]));
    }
  }

  lemma RowMeansEval(x: bv8, b: bv8, k: nat, y: Row)
    requires |y| == k + 1
    ensures Dot(PowerRow(x, k) + [b], y, 0) == Add28(EvalByte(y[..k], x), Multiply28(b, y[k]))
  {
    hide Add28, Multiply28;
    PowerRowDot(x, b, k, y, 0);
    MultiplyOne(EvalByte(y[..k], x));
  }

  // The system of k different points, the one the decoder eliminates.
  ghost predicate SurvivorSystem(A: Matrix, c: seq<nat>, s: seq<nat>) {
    && Received(c) && |A| == |s|
    && (forall h | 0 <= h < |s| :: s[h] < |c| && !Lost(c[s[h]]))
    && (forall h | 0 <= h < |A| :: A[h] == SurvivorRow(c, |A|, s[h]))
  }

  ghost function Positions(s: seq<nat>): set<nat> {
    set i | i in s
  }

  lemma {:induction false} PositionsCount(s: seq<nat>)
    requires forall h, j | 0 <= h < j < |s| :: s[h] < s[j]
    ensures |Positions(s)| == |s|
  {
    if s != [] {
      var init := s[..|s| - 1];
      PositionsCount(init);
      assert s == init + [s[|s| - 1]];
      assert Positions(s) == Positions(init) + {s[|s| - 1]};
    }
  }

  // A kernel vector is a polynomial that vanishes at the survivors.
  lemma KernelVanishes(A: Matrix, c: seq<nat>, s: seq<nat>, y: Row, h: nat)
    requires SurvivorSystem(A, c, s) && |y| == |A| + 1 && y[|A|] == 0 && Solves(A, y) && h < |s|
    ensures EvalByte(y[..|A|], Point(s[h])) == 0
  {
    hide Add28, Multiply28, Times3, Dot;
    var b := c[s[h]] as bv8;
    RowMeansEval(Point(s[h]), b, |A|, y);
    MultiplyZero(b);
    AddLaws(EvalByte(y[..|A|], Point(s[h])), 0, 0);
    assert Dot(A[h], y, 0) == 0;
  }

  // Vandermonde: positions that determine a message leave no kernel but zero.
  lemma VandermondeKernel(A: Matrix, c: seq<nat>, s: seq<nat>)
    requires SurvivorSystem(A, c, s) && Determines(Positions(s), |A|)
    ensures TrivialKernel(A)
  {
    hide Times3, Solves, Eval, SurvivorSystem;
    var k := |A|;
    var zero: seq<bv8> := Repeat<bv8>(0, k);
    ByteFieldIsLawful();
    forall y: Row | |y| == k + 1 && y[k] == 0 && Solves(A, y) ensures AllZero(ByteField(), y) {
      forall i | i in Positions(s) ensures EvalByte(y[..k], Point(i)) == EvalByte(zero, Point(i)) {
        var h :| 0 <= h < |s| && s[h] == i;
        KernelVanishes(A, c, s, y, h);
        EvalZero(ByteField(), zero, Point(i));
      }
      assert SameSymbols(y[..k], zero, Positions(s));
      assert y == zero + [0];
    }
  }

  // The received word agrees with the codeword of m wherever a symbol survived.
  ghost predicate ErasureOf(c: seq<nat>, m: seq<bv8>) {
    forall i | 0 <= i < |c| && !Lost(c[i]) :: c[i] == Encode(|c|, m)[i] as nat
  }

  // The codeword of m has the symbols of c at these positions.
  ghost predicate PassesThrough(m: seq<bv8>, c: seq<nat>, s: seq<nat>) {
    forall h | 0 <= h < |s| :: s[h] < |c| && Encode(|c|, m)[s[h]] as nat == c[s[h]]
  }

  // A solution of the survivor system is a message that passes through the survivors.
  lemma SolutionPassesThrough(A: Matrix, c: seq<nat>, s: seq<nat>, m: seq<bv8>)
    requires SurvivorSystem(A, c, s) && |m| == |A| && Solves(A, m + [1])
    ensures PassesThrough(m, c, s)
  {
    hide Add28, Multiply28, Times3, Dot;
    var k, y := |A|, m + [1];
    forall h | 0 <= h < k ensures EvalByte(m, Point(s[h])) as nat == c[s[h]] {
      var e, b := EvalByte(m, Point(s[h])), c[s[h]] as bv8;
      RowMeansEval(Point(s[h]), b, k, y);
      assert y[..k] == m;
      MultiplyOne(b);
      assert Dot(A[h], y, 0) == 0;
      AddLaws(e, b, b);
      AddLaws(e, 0, 0);
      AddLaws(b, 0, 0);
      IndexRoundTrip(c[s[h]]);
    }
  }

  // Only one message passes through positions that determine it.
  lemma MessageRecovered(m: seq<bv8>, ans: seq<bv8>, c: seq<nat>, s: seq<nat>)
    requires |m| == |ans| && Determines(Positions(s), |m|)
    requires forall h | 0 <= h < |s| :: s[h] < |c| && !Lost(c[s[h]])
    requires PassesThrough(ans, c, s) && ErasureOf(c, m)
    ensures ans == m
  {
    forall i | i in Positions(s) ensures EvalByte(m, Point(i)) == EvalByte(ans, Point(i)) {
      var h :| 0 <= h < |s| && s[h] == i;
      assert EvalByte(ans, Point(i)) as nat == c[i] == EvalByte(m, Point(i)) as nat;
      SameByte(EvalByte(ans, Point(i)), EvalByte(m, Point(i)));
    }
    assert SameSymbols(m, ans, Positions(s));
  }

  // The survivors that the decoder looks at: it stops after k of them.
  function FirstSurvivors(c: seq<nat>, k: nat): (s: seq<nat>)
    ensures |s| <= k
    ensures forall h | 0 <= h < |s| :: s[h] < |c| && !Lost(c[s[h]])
    ensures forall h, j | 0 <= h < j < |s| :: s[h] < s[j]
  {
    var s := Survivors(c, |c|);
    if |s| < k then s else s[..k]
  }

  // A position is looked at exactly when it survived and fewer than k before it did.
  lemma FirstSurvivorsIff(c: seq<nat>, k: nat, i: nat)
    requires i < |c|
    ensures i in FirstSurvivors(c, k) <==> c[i] <= 256 && |set h: nat | h < i && c[h] <= 256| < k
  {
    hide Survivors;
    var s, before := Survivors(c, |c|), Survivors(c, i);
    SurvivorsBelow(c, i);
    SurvivorsStep(c, i);
    SurvivorsPrefix(c, i + 1);
    if c[i] <= 256 {
      assert s[|before|] == i;
    }
  }

  lemma SurvivorsBelow(c: seq<nat>, i: nat)
    requires i <= |c|
    ensures |Survivors(c, i)| == |set h: nat | h < i && c[h] <= 256|
  {
    hide Survivors;
    PositionsCount(Survivors(c, i));
    forall h: nat | h < i && c[h] <= 256 ensures h in Survivors(c, i) {
      SurvivorListed(c, i, h);
    }
    assert Positions(Survivors(c, i)) == set h: nat | h < i && c[h] <= 256;
  }

  // They show k different evaluation points.
  ghost predicate Decodable(c: seq<nat>, k: nat) {
    |Points(Positions(FirstSurvivors(c, k)))| >= k
  }

  lemma DecodableSize(c: seq<nat>, k: nat)
    requires Decodable(c, k)
    ensures |FirstSurvivors(c, k)| == k
  {
    PositionsCount(FirstSurvivors(c, k));
    PointsAtMost(Positions(FirstSurvivors(c, k)));
  }

  // Up to length 255, any k survivors do; so does any survivor of a message of one symbol.
  lemma EnoughSurvivors(c: seq<nat>, k: nat)
    requires |Survivors(c, |c|)| >= k && (|c| <= 255 || k <= 1) && k <= |c|
    ensures Decodable(c, k)
  {
    var s := FirstSurvivors(c, k);
    PositionsCount(s);
    AnyKSuffice(|c|, k);
    DeterminesIff(Positions(s), k);
  }

  // The powers of base, by running products.
  method RunningPowers(base: bv8, size: nat) returns (row: Row)
    ensures row == PowerRow(base, size)
  {
    hide Multiply28;
    row := seq(size, _ => 1);
    var j := 1;
    while j < size
      invariant 1 <= j && |row| == size
      invariant forall h | 0 <= h < j && h < size :: row[h] == Power(ByteField(), base, h)
    {
      row := row[j := Multiply28(row[j - 1], base)];
      j := j + 1;
    }
  }

  // matrix[i][j] is (3^i)^j.
  method PowerMatrix(size: nat) returns (matrix: seq<Row>)
    ensures |matrix| == size
    ensures forall i | 0 <= i < size :: matrix[i] == PowerRow(Point(i), size)
    ensures forall i, j | 0 <= i < size && 0 <= j < size :: |matrix[i]| == size && matrix[i][j] == Point(i * j)
  {
    hide Multiply28, Times3, PowerRow;
    matrix := [];
    var base: bv8 := 1;
    PointStep(0);
    for i := 0 to size
      invariant |matrix| == i && base == Point(i)
      invariant forall h | 0 <= h < i :: matrix[h] == PowerRow(Point(h), size)
    {
      var row := RunningPowers(base, size);
      matrix := matrix + [row];
      PointStep(i);
      base := Multiply28(base, 3);
    }
    forall i, j | 0 <= i < size && 0 <= j < size ensures |matrix[i]| == size && matrix[i][j] == Point(i * j) {
      PowerRowEntry(i, j, size);
    }
  }

  lemma PowerRowEntry(i: nat, j: nat, size: nat)
    requires j < size
    ensures PowerRow(Point(i), size)[j] == Point(i * j)
  {
    PowerOfPoint(i, j);
  }

  method FirstPowers(row: Row, ghost x: bv8, k: nat) returns (v: Row)
    requires k <= |row| && row == PowerRow(x, |row|)
    ensures v == PowerRow(x, k)
  {
    v := [];
    for h := 0 to k
      invariant v == row[..h]
    {
      v := v + [row[h]];
    }
  }

  // Position i contributes the powers of 3^i and, on the right-hand side, its symbol.
  lemma SurvivorRowEntries(c: seq<nat>, k: nat, i: nat)
    requires i < |c| && Received(c) && c[i] <= 256
    ensures c[i] < 256 && |SurvivorRow(c, k, i)| == k + 1 && SurvivorRow(c, k, i)[k] as nat == c[i]
    ensures forall j | 0 <= j < k :: SurvivorRow(c, k, i)[j] == Point(i * j)
  {
    hide PowerRow, Times3;
    IndexRoundTrip(c[i]);
    forall j | 0 <= j < k ensures SurvivorRow(c, k, i)[j] == Point(i * j) {
      PowerRowEntry(i, j, k);
    }
  }

  // The first k surviving positions, each with its row of powers and its symbol.
  method SelectRows(matrix: seq<Row>, k: nat, c: seq<nat>) returns (newMatrix: Matrix)
    requires Received(c) && |matrix| == |c| && k <= |c|
    requires forall i | 0 <= i < |c| :: matrix[i] == PowerRow(Point(i), |c|)
    ensures var s := FirstSurvivors(c, k);
            |newMatrix| == |s| && forall h | 0 <= h < |s| :: newMatrix[h] == SurvivorRow(c, k, s[h])
  {
    hide PowerRow, Times3, Survivors, SurvivorRow, Lost;
    newMatrix := [];
    var i := 0;
    SurvivorsStep(c, 0);
    while i < |c| && |newMatrix| < k
      invariant i <= |c| && |newMatrix| == |Survivors(c, i)| <= k
      invariant forall h | 0 <= h < |newMatrix| :: newMatrix[h] == SurvivorRow(c, k, Survivors(c, i)[h])
    {
      SurvivorsStep(c, i);
      if !Lost(c[i]) {
        var v := FirstPowers(matrix[i], Point(i), k);
        RowIs(c, k, i, v);
        newMatrix := newMatrix + [v + [c[i] as bv8]];
      }
      i := i + 1;
    }
    SurvivorsPrefix(c, i);
  }

  lemma RowIs(c: seq<nat>, k: nat, i: nat, v: Row)
    requires i < |c| && Received(c) && !Lost(c[i]) && v == PowerRow(Point(i), k)
    ensures c[i] < 256 && v + [c[i] as bv8] == SurvivorRow(c, k, i)
  {
  }

  lemma SurvivorsStep(c: seq<nat>, i: nat)
    requires i < |c| || i == 0
    ensures Survivors(c, 0) == []
    ensures i < |c| ==> Survivors(c, i + 1) == Survivors(c, i) + if Lost(c[i]) then [] else [i]
  {
  }

  lemma {:induction false} SurvivorsPrefix(c: seq<nat>, i: nat)
    requires i <= |c|
    ensures Survivors(c, i) <= Survivors(c, |c|)
    decreases |c| - i
  {
    if i < |c| {
      SurvivorsPrefix(c, i + 1);
    }
  }

  ghost function SurvivorMatrix(c: seq<nat>, k: nat): (A: Matrix)
    requires Received(c)
    ensures |A| == |FirstSurvivors(c, k)| && Wide(A, k + 1)
  {
    var s := FirstSurvivors(c, k);
    seq(|s|, h requires 0 <= h < |s| => SurvivorRow(c, k, s[h]))
  }

  // In every case the first unknowns come row by row from a triangular system with the
  // solutions of the survivors', and with fewer than k survivors the others are 0.
  ghost predicate Eliminated(c: seq<nat>, k: nat, ans: seq<bv8>)
    requires Received(c)
  {
    var A := SurvivorMatrix(c, k);
    && |A| <= |ans|
    && (exists U: Matrix :: Triangular(A, U) && RowByRow(U, ans[..|A|] + [1], 0))
    && forall h | |A| <= h < |ans| :: ans[h] == 0
  }

  // Where the first k survivors show k different points, the decoder returns the one
  // polynomial of k coefficients through them, so it recovers every message whose codeword
  // the received word came from by erasing symbols.
  method Decode(k: nat, c: seq<nat>) returns (ans: seq<bv8>)
    requires k <= |c| && Received(c)
    ensures |ans| == k && Eliminated(c, k, ans)
    ensures Decodable(c, k) ==>
              && PassesThrough(ans, c, FirstSurvivors(c, k))
              && forall m: seq<bv8> | |m| == k && ErasureOf(c, m) :: ans == m
  {
    hide FirstSurvivors, PassesThrough, ErasureOf, TrivialKernel, Solves, Times3, Triangular, RowByRow, SurvivorRow;
    var matrix := PowerMatrix(|c|);
    var newMatrix := SelectRows(matrix, k, c);
    assert newMatrix == SurvivorMatrix(c, k);
    ans := GaussElimination(newMatrix);
    assert ans == ans[..|newMatrix|];
    if |ans| < k {
      ans := ans + Repeat<bv8>(0, k - |ans|);
    }
    if Decodable(c, k) {
      DecodableSize(c, k);
      DecodedSystem(newMatrix, c, FirstSurvivors(c, k), ans);
    }
  }

  lemma DecodedSystem(A: Matrix, c: seq<nat>, s: seq<nat>, ans: seq<bv8>)
    requires SurvivorSystem(A, c, s) && |ans| == |A|
    requires |Points(Positions(s))| >= |A|
    requires TrivialKernel(A) ==> Solves(A, ans + [1])
    ensures PassesThrough(ans, c, s)
    ensures forall m: seq<bv8> | |m| == |A| && ErasureOf(c, m) :: ans == m
  {
    hide TrivialKernel, Solves, PassesThrough, ErasureOf;
    EnoughPoints(Positions(s), |A|);
    VandermondeKernel(A, c, s);
    SolutionPassesThrough(A, c, s, ans);
    forall m: seq<bv8> | |m| == |A| && ErasureOf(c, m) ensures ans == m {
      MessageRecovered(m, ans, c, s);
    }
  }

  // ----- the round trip

  function LostBelow(c: seq<nat>, i: nat): set<nat>
    requires i <= |c|
  {
    set j: nat | j < i && Lost(c[j])
  }

  lemma LostStep(c: seq<nat>, i: nat)
    requires 0 < i <= |c|
    ensures |LostBelow(c, i)| == |LostBelow(c, i - 1)| + if Lost(c[i - 1]) then 1 else 0
  {
    var before := LostBelow(c, i - 1);
    assert LostBelow(c, i) == if Lost(c[i - 1]) then before + {i - 1} else before;
  }

  lemma {:induction false} SurvivorCount(c: seq<nat>, i: nat)
    requires i <= |c|
    ensures |Survivors(c, i)| + |LostBelow(c, i)| == i
  {
    hide Survivors, LostBelow;
    if i == 0 {
      assert LostBelow(c, 0) == {} by { NoneLostYet(c); }
      SurvivorsStep(c, 0);
    } else {
      SurvivorCount(c, i - 1);
      LostStep(c, i);
      SurvivorsStep(c, i - 1);
    }
  }

  lemma NoneLostYet(c: seq<nat>)
    ensures LostBelow(c, 0) == {}
  {
  }

  // Encode, overwrite at most n - k symbols by marks, decode: the message comes back.
  method RoundTrip(n: nat, m: seq<bv8>, marks: map<nat, nat>) returns (ans: seq<bv8>)
    requires |m| <= n && (n <= 255 || |m| <= 1)
    requires forall i | i in marks :: i < n && marks[i] > 256
    requires |marks| <= n - |m|
    ensures ans == m
  {
    hide Encode;
    var codeword := DfsEncoder(n, m);
    var c: seq<nat> := seq(n, i requires 0 <= i < n => if i in marks then marks[i] else codeword[i] as nat);
    SurvivorCount(c, n);
    assert LostBelow(c, n) == marks.Keys;
    assert ErasureOf(c, m);
    EnoughSurvivors(c, |m|);
    ans := Decode(|m|, c);
  }

  // Where the positions show too few points, another message has the same symbols there.
  lemma OtherMessage(m: seq<bv8>, positions: set<nat>) returns (m': seq<bv8>)
    requires |Points(positions)| < |m|
    ensures |m'| == |m| && m' != m && SameSymbols(m, m', positions)
  {
    hide Times3, Add28;
    var p := VanishingPolynomial(Points(positions), |m|);
    m' := seq(|m|, j requires 0 <= j < |m| => Add28(m[j], p[j]));
    var top := |Points(positions)|;
    assert m'[top] != m[top] by {
      AddLaws(m[top], m[top], p[top]);
      AddLaws(m[top], p[top], 0);
      AddLaws(p[top], 0, 0);
    }
    forall i | i in positions ensures EvalByte(m, Point(i)) == EvalByte(m', Point(i)) {
      assert Point(i) in Points(positions);
      EvalAdd(m, p, m', Point(i));
      AddLaws(EvalByte(m, Point(i)), 0, 0);
    }
  }

  // With fewer than k survivors no decoder can tell the message: another one fits too.
  lemma TooFewSurvivors(c: seq<nat>, m: seq<bv8>) returns (m': seq<bv8>)
    requires ErasureOf(c, m) && |Survivors(c, |c|)| < |m|
    ensures |m'| == |m| && m' != m && ErasureOf(c, m')
  {
    hide EvalByte, Survivors;
    var s := Survivors(c, |c|);
    PositionsCount(s);
    PointsAtMost(Positions(s));
    m' := OtherMessage(m, Positions(s));
    forall i | 0 <= i < |c| && !Lost(c[i]) ensures c[i] == Encode(|c|, m')[i] as nat {
      SurvivorListed(c, |c|, i);
      assert i in Positions(s);
    }
  }

  lemma {:induction false} SurvivorListed(c: seq<nat>, n: nat, i: nat)
    requires i < n <= |c| && !Lost(c[i])
    ensures i in Survivors(c, n)
  {
    hide Survivors;
    SurvivorsStep(c, n - 1);
    if i < n - 1 {
      SurvivorListed(c, n - 1, i);
    }
  }

  lemma {:induction false} SameSurvivors(c: seq<nat>, c': seq<nat>, n: nat)
    requires |c| == |c'| && n <= |c| && forall i | 0 <= i < |c| :: Lost(c[i]) <==> Lost(c'[i])
    ensures Survivors(c, n) == Survivors(c', n)
  {
    if n > 0 {
      SameSurvivors(c, c', n - 1);
    }
  }

  // And where the first k survivors show fewer than k points, this decoder cannot, even if
  // later survivors would settle it: it eliminates the same matrix for another message.
  lemma TooFewPointsLookedAt(c: seq<nat>, m: seq<bv8>) returns (m': seq<bv8>, c': seq<nat>)
    requires Received(c) && ErasureOf(c, m) && !Decodable(c, |m|)
    ensures |m'| == |m| && m' != m && |c'| == |c| && Received(c') && ErasureOf(c', m')
    ensures forall i | 0 <= i < |c| && (Lost(c[i]) || Lost(c'[i])) :: c'[i] == c[i]
    ensures var s := FirstSurvivors(c, |m|);
            && FirstSurvivors(c', |m|) == s
            && forall h | 0 <= h < |s| :: SurvivorRow(c', |m|, s[h]) == SurvivorRow(c, |m|, s[h])
  {
    hide EvalByte, Survivors, Times3;
    var s := FirstSurvivors(c, |m|);
    m' := OtherMessage(m, Positions(s));
    c' := Remark(c, m');
    SameSurvivors(c, c', |c|);
    forall h | 0 <= h < |s| ensures c'[s[h]] == c[s[h]] {
      assert s[h] in Positions(s);
    }
  }

  // The codeword of m with the losses of c.
  ghost function Remark(c: seq<nat>, m: seq<bv8>): (c': seq<nat>)
    ensures |c'| == |c|
  {
    seq(|c|, i requires 0 <= i < |c| => if Lost(c[i]) then c[i] else Encode(|c|, m)[i] as nat)
  }
}
