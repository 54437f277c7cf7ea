// How far apart the codewords of dfs_encoder are, and which surviving positions are enough.
module CodeDistance {
  import opened Algebra
  import opened GaloisField
  import opened Encoder
  import opened Sequences

  ghost function Points(positions: set<nat>): set<bv8> {
    set i | i in positions :: Point(i)
  }

  // The symbols at these positions are those of one message of k symbols at most.
  ghost predicate Determines(positions: set<nat>, k: nat) {
    forall m: seq<bv8>, m': seq<bv8> | |m| == |m'| == k && SameSymbols(m, m', positions) :: m == m'
  }

  ghost predicate SameSymbols(m: seq<bv8>, m': seq<bv8>, positions: set<nat>) {
    forall i | i in positions :: EvalByte(m, Point(i)) == EvalByte(m', Point(i))
  }

  // Up to length 255 the evaluation points are all different.
  lemma PointsCount(positions: set<nat>)
    requires forall i | i in positions :: i < 255
    ensures |Points(positions)| == |positions|
  {
    forall i, j | i in positions && j in positions && i != j ensures Point(i) != Point(j) {
      if i < j { PointsDiffer(i, j); } else { PointsDiffer(j, i); }
    }
    ImageSize(positions, Point, Points(positions));
  }

  lemma PointsAtMost(positions: set<nat>)
    ensures |Points(positions)| <= |positions|
  {
    ImageAtMost(positions, Point, Points(positions));
  }

  lemma EnoughPoints(positions: set<nat>, k: nat)
    requires |Points(positions)| >= k
    ensures Determines(positions, k)
  {
    ByteFieldIsLawful();
    forall m: seq<bv8>, m': seq<bv8> | |m| == |m'| == k && SameSymbols(m, m', positions) ensures m == m' {
      if m != m' {
        AgreeBound(ByteField(), m, m', Points(positions));
        assert false;
      }
    }
  }

  // ----- a polynomial that vanishes at given points

  lemma {:induction false} EvalScale(c: bv8, p: seq<bv8>, s: seq<bv8>, x: bv8)
    requires |p| == |s| && forall i | 0 <= i < |p| :: s[i] == Multiply28(c, p[i])
    ensures EvalByte(s, x) == Multiply28(c, EvalByte(p, x))
  {
    hide Multiply28, Add28;
    if p == [] {
      MultiplyZero(c);
    } else {
      EvalScale(c, p[1..], s[1..], x);
      var e := EvalByte(p[1..], x);
      MultiplyDistributes(c, p[0], Multiply28(x, e));
      MultiplyAssociates(c, x, e);
      MultiplyAssociates(x, c, e);
      MultiplyCommutes(c, x);
    }
  }

  lemma EvalAdd(p: seq<bv8>, q: seq<bv8>, s: seq<bv8>, x: bv8)
    requires |p| == |q| == |s| && forall i | 0 <= i < |p| :: s[i] == Add28(p[i], q[i])
    ensures EvalByte(s, x) == Add28(EvalByte(p, x), EvalByte(q, x))
  {
    ByteFieldIsLawful();
    hide Add28;
    EvalSum(ByteField(), p, q, s, x);
  }

  lemma {:induction false} EvalPad(p: seq<bv8>, x: bv8)
    ensures EvalByte(p + [0], x) == EvalByte(p, x)
  {
    hide Multiply28, Add28;
    MultiplyZero(x);
    AddLaws(0, 0, 0);
    if p == [] {
      assert EvalByte([0], x) == Add28(0, Multiply28(x, EvalByte([], x)));
    } else {
      assert (p + [0])[1..] == p[1..] + [0];
      EvalPad(p[1..], x);
    }
  }

  lemma {:induction false} VanishingPolynomial(roots: set<bv8>, k: nat) returns (p: seq<bv8>)
    requires |roots| < k
    ensures |p| == k && p[|roots|] == 1
    ensures forall x | x in roots :: EvalByte(p, x) == 0
  {
    if |roots| + 1 < k {
      var q := VanishingPolynomial(roots, k - 1);
      p := q + [0];
      forall x | x in roots ensures EvalByte(p, x) == 0 {
        EvalPad(q, x);
      }
    } else if |roots| == 0 {
      p := [1];
    } else {
      var r := Element(roots);
      var q := VanishingPolynomial(roots - {r}, k - 1);
      p := TimesFactor(q, r);
      OneMoreRoot(roots, r, q);
    }
  }

  lemma OneMoreRoot(roots: set<bv8>, r: bv8, q: seq<bv8>)
    requires r in roots && q != [] && |q| == |roots| && q[|q| - 1] == 1
    requires forall x | x in roots - {r} :: EvalByte(q, x) == 0
    ensures TimesFactor(q, r)[|q|] == 1
    ensures forall x | x in roots :: EvalByte(TimesFactor(q, r), x) == 0
  {
    hide Multiply28, Add28, EvalByte;
    forall x | x in roots ensures EvalByte(TimesFactor(q, r), x) == 0 {
      TimesFactorEval(q, r, x);
      AddLaws(r, r, r);
      MultiplyZero(Add28(x, r));
      MultiplyZero(EvalByte(q, x));
    }
    MultiplyZero(r);
    AddLaws(1, 0, 0);
  }

  // (X + r) * q
  ghost function TimesFactor(q: seq<bv8>, r: bv8): (p: seq<bv8>)
    ensures |p| == |q| + 1
  {
    seq(|q| + 1, i requires 0 <= i <= |q| => Add28(([0] + q)[i], Multiply28(r, (q + [0])[i])))
  }

  lemma TimesFactorEval(q: seq<bv8>, r: bv8, x: bv8)
    ensures EvalByte(TimesFactor(q, r), x) == Multiply28(Add28(x, r), EvalByte(q, x))
  {
    hide Multiply28, Add28;
    var e := EvalByte(q, x);
    var scaled := seq(|q| + 1, i requires 0 <= i <= |q| => Multiply28(r, (q + [0])[i]));
    EvalAdd([0] + q, scaled, TimesFactor(q, r), x);
    EvalScale(r, q + [0], scaled, x);
    EvalPad(q, x);
    assert ([0] + q)[1..] == q;
    AddLaws(0, Multiply28(x, e), 0);
    AddLaws(Multiply28(x, e), 0, 0);
    MultiplyCommutes(Add28(x, r), e);
    MultiplyDistributes(e, x, r);
    MultiplyCommutes(e, x);
    MultiplyCommutes(e, r);
  }

  lemma TooFewPoints(positions: set<nat>, k: nat)
    requires |Points(positions)| < k
    ensures !Determines(positions, k)
  {
    var p := VanishingPolynomial(Points(positions), k);
    var zero: seq<bv8> := Repeat<bv8>(0, k);
    ByteFieldIsLawful();
    forall i | i in positions ensures EvalByte(p, Point(i)) == EvalByte(zero, Point(i)) {
      assert Point(i) in Points(positions);
      EvalZero(ByteField(), zero, Point(i));
    }
    assert SameSymbols(p, zero, positions);
    assert p[|Points(positions)|] != zero[|Points(positions)|];
  }

  // Positions determine a message exactly when they show k different points.
  lemma DeterminesIff(positions: set<nat>, k: nat)
    ensures Determines(positions, k) <==> |Points(positions)| >= k
  {
    if |Points(positions)| >= k {
      EnoughPoints(positions, k);
    } else {
      TooFewPoints(positions, k);
    }
  }

  // Any k positions of a codeword suffice exactly when the code is no longer than 255
  // (or carries at most one symbol): position 255 repeats position 0.
  lemma AnyKSuffice(n: nat, k: nat)
    requires k <= n
    ensures (forall positions: set<nat> | (forall i | i in positions :: i < n) && |positions| >= k ::
               Determines(positions, k))
            <==> n <= 255 || k <= 1
  {
    if n <= 255 || k <= 1 {
      forall positions: set<nat> | (forall i | i in positions :: i < n) && |positions| >= k
        ensures Determines(positions, k)
      {
        DeterminesIff(positions, k);
        if n <= 255 {
          PointsCount(positions);
        } else if k == 1 {
          var i :| i in positions;
          assert Point(i) in Points(positions);
        }
      }
    } else {
      var positions := RepeatedPoint(k);
      DeterminesIff(positions, k);
    }
  }

  lemma {:induction false} FirstPositions(k: nat) returns (positions: set<nat>)
    ensures |positions| == k && forall i: nat :: i in positions <==> i < k
  {
    if k == 0 {
      positions := {};
    } else {
      var rest := FirstPositions(k - 1);
      positions := rest + {k - 1};
    }
  }

  // k positions that show fewer than k points: the first k - 1 and one that repeats.
  lemma RepeatedPoint(k: nat) returns (positions: set<nat>)
    requires k >= 2
    ensures |positions| == k && |Points(positions)| < k
    ensures forall i | i in positions :: i < 256 || i < k
  {
    hide Times3;
    var first := FirstPositions(k - 1);
    PointsAtMost(first);
    var last := if k <= 256 then 255 else k - 1;
    PointsRepeat(last - 255);
    positions := first + {last};
    assert Point(last) == Point(last - 255) && last - 255 in first;
    assert Points(positions) == Points(first);
  }

  // Two different messages of k symbols have codewords that agree in at most k - 1 places.
  lemma CodewordsDiffer(n: nat, m: seq<bv8>, m': seq<bv8>)
    requires |m| == |m'| && m != m' && n <= 255
    ensures |set i: nat | i < n && Encode(n, m)[i] == Encode(n, m')[i]| < |m|
  {
    var agree := set i: nat | i < n && Encode(n, m)[i] == Encode(n, m')[i];
    if |agree| >= |m| {
      PointsCount(agree);
      EnoughPoints(agree, |m|);
      assert SameSymbols(m, m', agree);
      assert false;
    }
  }

  // dfs_encoder is linear in the message.
  lemma EncodeAdds(n: nat, m: seq<bv8>, m': seq<bv8>, sum: seq<bv8>)
    requires |m| == |m'| == |sum| && forall i | 0 <= i < |m| :: sum[i] == Add28(m[i], m'[i])
    ensures forall i | 0 <= i < n :: Encode(n, sum)[i] == Add28(Encode(n, m)[i], Encode(n, m')[i])
  {
    forall i | 0 <= i < n ensures Encode(n, sum)[i] == Add28(Encode(n, m)[i], Encode(n, m')[i]) {
      EvalAdd(m, m', sum, Point(i));
    }
  }

  lemma EncodeScales(n: nat, c: bv8, m: seq<bv8>, scaled: seq<bv8>)
    requires |m| == |scaled| && forall i | 0 <= i < |m| :: scaled[i] == Multiply28(c, m[i])
    ensures forall i | 0 <= i < n :: Encode(n, scaled)[i] == Multiply28(c, Encode(n, m)[i])
  {
    forall i | 0 <= i < n ensures Encode(n, scaled)[i] == Multiply28(c, Encode(n, m)[i]) {
      EvalScale(c, m, scaled, Point(i));
    }
  }

  lemma {:induction false} PointIsPower(i: nat)
    ensures Point(i) == Power(ByteField(), 3, i)
  {
    hide Multiply28, Times3;
    PointStep(0);
    if i > 0 {
      PointStep(i - 1);
      PointIsPower(i - 1);
    }
  }

  lemma PowerOfPoint(i: nat, j: nat)
    ensures Power(ByteField(), Point(i), j) == Point(i * j)
  {
    hide Times3;
    ByteFieldIsLawful();
    PointIsPower(i);
    PointIsPower(i * j);
    PowerPower(ByteField(), 3, i, j);
  }

  // The codeword of a message with a single 1, at place j: symbol i is 3^(i * j).
  lemma UnitCodeword(n: nat, m: seq<bv8>, j: nat, i: nat)
    requires j < |m| && i < n && forall h | 0 <= h < |m| :: m[h] == if h == j then 1 else 0
    ensures Encode(n, m)[i] == Point(i * j)
  {
    hide Times3;
    ByteFieldIsLawful();
    EvalUnit(ByteField(), m, j, Point(i));
    PowerOfPoint(i, j);
  }

  // Codewords in numbers: 3^2 is 5, 3^3 is 15.
  lemma SmallCodewords()
    ensures Encode(3, [1]) == [1, 1, 1]
    ensures Encode(4, [0, 1]) == [1, 3, 5, 15]
  {
    forall i | 0 <= i < 3 ensures Encode(3, [1])[i] == 1 {
      UnitCodeword(3, [1], 0, i);
      assert i * 0 == 0;
    }
    FirstPoints();
    forall i | 0 <= i < 4 ensures Encode(4, [0, 1])[i] == [1, 3, 5, 15][i] {
      UnitCodeword(4, [0, 1], 1, i);
    }
  }

  lemma FirstPoints()
    ensures Point(0) == 1 && Point(1) == 3 && Point(2) == 5 && Point(3) == 15
  {
  }
}
