// dfs_encoder: symbol i of a codeword is the message polynomial at 3^i over GF(2^8).
module Encoder {
  import opened Algebra
  import opened GaloisField

  function EvalByte(p: seq<bv8>, x: bv8): bv8 {
    Eval(ByteField(), p, x)
  }

  function Encode(n: nat, m: seq<bv8>): (codeword: seq<bv8>)
    ensures |codeword| == n
  {
    seq(n, i requires i >= 0 => EvalByte(m, Point(i)))
  }

  // The terms of the sum that the encoder has added after j rounds.
  function PartialSum(p: seq<bv8>, x: bv8, j: nat): bv8
    requires j <= |p|
  {
    if j == 0 then 0
    else Add28(PartialSum(p, x, j - 1), Multiply28(Power(ByteField(), x, j - 1), p[j - 1]))
  }

  lemma {:induction false} PartialSumRest(p: seq<bv8>, x: bv8, j: nat)
    requires j <= |p|
    ensures Add28(PartialSum(p, x, j), Multiply28(Power(ByteField(), x, j), EvalByte(p[j..], x))) == EvalByte(p, x)
  {
    hide Add28, Multiply28;
    if j == 0 {
      assert p[0..] == p;
      MultiplyOne(EvalByte(p, x));
      AddLaws(0, EvalByte(p, x), 0);
      AddLaws(EvalByte(p, x), 0, 0);
    } else {
      PartialSumRest(p, x, j - 1);
      var w, e := Power(ByteField(), x, j - 1), EvalByte(p[j..], x);
      assert p[j - 1..][1..] == p[j..];
      assert EvalByte(p[j - 1..], x) == Add28(p[j - 1], Multiply28(x, e));
      MultiplyDistributes(w, p[j - 1], Multiply28(x, e));
      MultiplyAssociates(w, x, e);
      AddLaws(PartialSum(p, x, j - 1), Multiply28(w, p[j - 1]), Multiply28(w, Multiply28(x, e)));
    }
  }

  lemma PartialSumIsEval(p: seq<bv8>, x: bv8)
    ensures PartialSum(p, x, |p|) == EvalByte(p, x)
  {
    hide Add28, Multiply28;
    PartialSumRest(p, x, |p|);
    MultiplyZero(Power(ByteField(), x, |p|));
    AddLaws(PartialSum(p, x, |p|), 0, 0);
  }

  // One round of the encoder: the powers of base go into v, then the products are added up.
  method EvaluateAt(v: array<bv8>, p: array<bv8>, m: seq<bv8>, base: bv8) returns (sum: bv8)
    requires v != p && |m| <= v.Length == p.Length
    requires v.Length > 0 ==> v[0] == 1
    requires p[..|m|] == m
    modifies v
    ensures v.Length > 0 ==> v[0] == 1
    ensures sum == EvalByte(m, base)
  {
    hide Add28, Multiply28, Eval;
    var k := |m|;
    var j := 1;
    while j < k
      invariant 1 <= j
      invariant forall h | 0 <= h < j && h < v.Length :: v[h] == Power(ByteField(), base, h)
    {
      v[j] := Multiply28(v[j - 1], base);
      j := j + 1;
    }
    sum := 0;
    j := 0;
    while j < k
      invariant j <= k && sum == PartialSum(m, base, j)
    {
      assert p[j] == p[..k][j];
      var temp := Multiply28(v[j], p[j]);
      sum := Add28(sum, temp);
      j := j + 1;
    }
    PartialSumIsEval(m, base);
  }

  method DfsEncoder(n: nat, m: seq<bv8>) returns (codeword: seq<bv8>)
    requires |m| <= n
    ensures codeword == Encode(n, m)
  {
    hide Multiply28, Times3, Eval;
    var k := |m|;
    var v := new bv8[n](_ => 1);
    var ans := new bv8[n](_ => 0);
    var p := new bv8[n](_ => 0);
    for i := 0 to k
      modifies p
      invariant p[..i] == m[..i]
    {
      p[i] := m[i];
    }
    assert m[..k] == m;
    var base: bv8 := 1;
    PointStep(0);
    for i := 0 to n
      modifies v, ans
      invariant base == Point(i)
      invariant n > 0 ==> v[0] == 1
      invariant forall j | 0 <= j < i :: ans[j] == EvalByte(m, Point(j))
    {
      var sum := EvaluateAt(v, p, m, base);
      ans[i] := sum;
      PointStep(i);
      base := Multiply28(base, 3);
    }
    codeword := ans[..];
  }
}
