// recursive_FFT for every findW: linear in its vector, and a closed form on unit vectors.
module FftClosedForm {
  import opened Algebra
  import opened FftEncoder
  import opened Sequences

  // ----- residues are integers modulo 257

  lemma ModuloSum(x: int, y: int)
    ensures Add257(x % 257, y % 257) == (x + y) % 257
    ensures Sub257(x % 257, y % 257) == (x - y) % 257
  {
    var p, q, a, b := x / 257, y / 257, x % 257, y % 257;
    assert x == 257 * p + a && y == 257 * q + b;
    Reduce(x + y, p + q, a + b);
    Reduce(x - y, p - q, a - b);
  }

  lemma ModuloProduct(x: int, y: int)
    ensures Mult257(x % 257, y % 257) == (x * y) % 257
  {
    TimesRemainder(x, y % 257);
    TimesRemainder(y, x);
    Commute(x, y % 257);
    Commute(x, y);
  }

  lemma Commute(x: int, y: int)
    ensures x * y == y * x
  {
  }

  lemma ModuloRing(x: int, y: int)
    ensures Add257(x % 257, y % 257) == (x + y) % 257
    ensures Sub257(x % 257, y % 257) == (x - y) % 257
    ensures Mult257(x % 257, y % 257) == (x * y) % 257
  {
    hide Add257, Sub257, Mult257;
    ModuloSum(x, y);
    ModuloProduct(x, y);
  }

  // ----- linearity

  lemma MergeEntryAdds(w: Residue, e: Residue, e': Residue, o: Residue, o': Residue)
    ensures Add257(Add257(e, e'), Mult257(w, Add257(o, o'))) ==
            Add257(Add257(e, Mult257(w, o)), Add257(e', Mult257(w, o')))
    ensures Sub257(Add257(e, e'), Mult257(w, Add257(o, o'))) ==
            Add257(Sub257(e, Mult257(w, o)), Sub257(e', Mult257(w, o')))
  {
    hide Add257, Sub257, Mult257;
    MultDistributes(w, o, o');
    var t, t' := Mult257(w, o), Mult257(w, o');
    AddSwap257(e, e', t, t');
    SubIsAdd(e, t);
    SubIsAdd(e', t');
    SubIsAdd(Add257(e, e'), Add257(t, t'));
    NegateSum(t, t');
    AddSwap257(e, e', Sub257(0, t), Sub257(0, t'));
  }

  lemma SubIsAdd(e: Residue, t: Residue)
    ensures Sub257(e, t) == Add257(e, Sub257(0, t))
  {
  }

  lemma NegateSum(t: Residue, t': Residue)
    ensures Sub257(0, Add257(t, t')) == Add257(Sub257(0, t), Sub257(0, t'))
  {
  }

  lemma AddSwap257(a: Residue, b: Residue, c: Residue, d: Residue)
    ensures Add257(Add257(a, b), Add257(c, d)) == Add257(Add257(a, c), Add257(b, d))
  {
    hide Add257;
    AddAssociates(a, b, Add257(c, d));
    AddAssociates(b, c, d);
    AddAssociates(c, b, d);
    AddAssociates(a, c, Add257(b, d));
    RingLaws257(b, c);
  }

  lemma MergeEntryScales(c: Residue, w: Residue, e: Residue, o: Residue)
    ensures Add257(Mult257(c, e), Mult257(w, Mult257(c, o))) == Mult257(c, Add257(e, Mult257(w, o)))
    ensures Sub257(Mult257(c, e), Mult257(w, Mult257(c, o))) == Mult257(c, Sub257(e, Mult257(w, o)))
  {
    var t := Mult257(w, o);
    MultAssociates(w, c, o);
    MultAssociates(c, w, o);
    RingLaws257(w, c);
    MultDistributes(c, e, t);
    MinusDistributes(c, e, t);
  }

  lemma Opposite(x: Residue, y: Residue)
    requires Add257(x, y) == 0
    ensures y == Sub257(0, x)
  {
  }

  lemma TimesMinus(c: Residue, t: Residue)
    ensures Mult257(c, Sub257(0, t)) == Sub257(0, Mult257(c, t))
  {
    hide Add257, Sub257, Mult257;
    RingLaws257(t, 0);
    MultDistributes(c, t, Sub257(0, t));
    ZeroOne(c);
    Opposite(Mult257(c, t), Mult257(c, Sub257(0, t)));
  }

  lemma MinusDistributes(c: Residue, e: Residue, t: Residue)
    ensures Mult257(c, Sub257(e, t)) == Sub257(Mult257(c, e), Mult257(c, t))
  {
    hide Add257, Sub257, Mult257;
    SubIsAdd(e, t);
    MultDistributes(c, e, Sub257(0, t));
    TimesMinus(c, t);
    SubIsAdd(Mult257(c, e), Mult257(c, t));
  }

  ghost predicate Sum(a: seq<Residue>, b: seq<Residue>, s: seq<Residue>) {
    |a| == |b| == |s| && forall i | 0 <= i < |s| :: s[i] == Add257(a[i], b[i])
  }

  lemma {:induction false} FftAdds(root: nat -> int, a: seq<Residue>, b: seq<Residue>, s: seq<Residue>)
    requires FftSize(|s|) && |a| == |b| == |s|
    requires forall i | 0 <= i < |s| :: s[i] == Add257(a[i], b[i])
    ensures forall k | 0 <= k < |s| :: Fft(root, s)[k] == Add257(Fft(root, a)[k], Fft(root, b)[k])
    decreases |s|
  {
    hide FftSize, Fft, Merge, Add257, Sub257, Mult257, Running;
    var n := |s|;
    if n <= 1 {
      FftOfSingleton(root, a);
      FftOfSingleton(root, b);
      FftOfSingleton(root, s);
    } else {
      FftUnfolds(root, a);
      FftUnfolds(root, b);
      FftUnfolds(root, s);
      FftAdds(root, Evens(a), Evens(b), Evens(s));
      FftAdds(root, Odds(a), Odds(b), Odds(s));
      MergeAdds(root(n), Fft(root, Evens(a)), Fft(root, Evens(b)), Fft(root, Evens(s)),
        Fft(root, Odds(a)), Fft(root, Odds(b)), Fft(root, Odds(s)));
    }
  }

  lemma MergeAdds(wn: int, e: seq<Residue>, e': seq<Residue>, es: seq<Residue>,
                  o: seq<Residue>, o': seq<Residue>, os: seq<Residue>)
    requires Sum(e, e', es) && Sum(o, o', os) && |e| == |o|
    ensures Sum(Merge(wn, e, o), Merge(wn, e', o'), Merge(wn, es, os))
  {
    hide Add257, Sub257, Mult257, Running;
    var half := |e|;
    forall k | 0 <= k < 2 * half
      ensures Merge(wn, es, os)[k] == Add257(Merge(wn, e, o)[k], Merge(wn, e', o')[k])
    {
      var h := if k < half then k else k - half;
      MergeEntryAdds(Running(wn, h), e[h], e'[h], o[h], o'[h]);
    }
  }

  ghost predicate Scaled(c: Residue, a: seq<Residue>, s: seq<Residue>) {
    |a| == |s| && forall i | 0 <= i < |s| :: s[i] == Mult257(c, a[i])
  }

  lemma {:induction false} FftScales(root: nat -> int, c: Residue, a: seq<Residue>, s: seq<Residue>)
    requires FftSize(|s|) && |a| == |s|
    requires forall i | 0 <= i < |s| :: s[i] == Mult257(c, a[i])
    ensures forall k | 0 <= k < |s| :: Fft(root, s)[k] == Mult257(c, Fft(root, a)[k])
    decreases |s|
  {
    hide FftSize, Fft, Merge, Add257, Sub257, Mult257, Running;
    var n := |s|;
    if n <= 1 {
      FftOfSingleton(root, a);
      FftOfSingleton(root, s);
    } else {
      FftUnfolds(root, a);
      FftUnfolds(root, s);
      FftScales(root, c, Evens(a), Evens(s));
      FftScales(root, c, Odds(a), Odds(s));
      MergeScales(root(n), c, Fft(root, Evens(a)), Fft(root, Evens(s)), Fft(root, Odds(a)), Fft(root, Odds(s)));
    }
  }

  lemma MergeScales(wn: int, c: Residue, e: seq<Residue>, es: seq<Residue>, o: seq<Residue>, os: seq<Residue>)
    requires Scaled(c, e, es) && Scaled(c, o, os) && |e| == |o|
    ensures Scaled(c, Merge(wn, e, o), Merge(wn, es, os))
  {
    hide Add257, Sub257, Mult257, Running;
    var half := |e|;
    forall k | 0 <= k < 2 * half ensures Merge(wn, es, os)[k] == Mult257(c, Merge(wn, e, o)[k]) {
      var h := if k < half then k else k - half;
      MergeEntryScales(c, Running(wn, h), e[h], o[h]);
    }
  }

  // ----- unit vectors

  ghost predicate IsUnit(a: seq<Residue>, p: nat) {
    p < |a| && forall i | 0 <= i < |a| :: a[i] == if i == p then 1 else 0
  }

  lemma UnitHalves(a: seq<Residue>, p: nat, b: seq<Residue>)
    requires IsUnit(a, p) && |a| == 2 * |b| && IsUnit(b, p / 2)
    ensures if p % 2 == 0 then Evens(a) == b && Odds(a) == Repeat<Residue>(0, |b|)
            else Evens(a) == Repeat<Residue>(0, |b|) && Odds(a) == b
  {
  }

  // One level: the lowest bit of p says which half the 1 goes to, and then the upper half
  // of the result is the lower one with its sign changed.
  lemma UnitLevel(root: nat -> int, a: seq<Residue>, p: nat, b: seq<Residue>, k: nat)
    requires FftSize(|a|) && |a| > 1 && IsUnit(a, p) && k < |a|
    requires |b| == |a| / 2 && IsUnit(b, p / 2)
    ensures FftSize(|b|)
    ensures var half := |a| / 2;
            Fft(root, a)[k] ==
            if p % 2 == 0 then Fft(root, b)[k % half]
            else if k < half then Mult257(Running(root(|a|), k), Fft(root, b)[k])
            else Sub257(0, Mult257(Running(root(|a|), k - half), Fft(root, b)[k - half]))
  {
    hide FftSize, Fft, Merge, Add257, Sub257, Mult257, Running, IsUnit, Evens, Odds, Repeat;
    FftUnfolds(root, a);
    var half := |a| / 2;
    var zeros := Repeat<Residue>(0, half);
    FftOfZeros(root, half);
    var h := if k < half then k else k - half;
    assert k % half == h by { Wraps(k, half); }
    UnitHalves(a, p, b);
    if p % 2 == 0 {
      MergeZeros(root(|a|), Fft(root, b));
    } else {
      MergeIntoZeros(root(|a|), Fft(root, b), k);
    }
  }

  lemma Wraps(k: nat, half: nat)
    requires k < 2 * half
    ensures k % half == if k < half then k else k - half
    ensures k / half == if k < half then 0 else 1
  {
    if k >= half {
      assert k == half * 1 + (k - half);
      DivModIs(k, half, 1, k - half);
    }
  }

  lemma DivModIs(x: int, d: int, q: int, r: int)
    requires x == d * q + r && 0 <= r < d
    ensures x / d == q && x % d == r
  {
    var q' := x / d;
    assert x == d * q' + x % d;
    assert d * (q - q') == x % d - r;
    assert q - q' >= 1 ==> d * (q - q') >= d;
    assert q - q' <= -1 ==> d * (q - q') <= -d;
  }

  lemma MergeIntoZeros(wn: int, y1: seq<Residue>, k: nat)
    requires k < 2 * |y1|
    ensures var half := |y1|;
            Merge(wn, Repeat<Residue>(0, half), y1)[k] ==
            if k < half then Mult257(Running(wn, k), y1[k])
            else Sub257(0, Mult257(Running(wn, k - half), y1[k - half]))
  {
    hide Add257, Sub257, Mult257, Running;
    if k < |y1| {
      ZeroOne(Mult257(Running(wn, k), y1[k]));
    }
  }

  // ----- the closed form

  function Two(l: nat): (power: nat)
    ensures power > 0
  {
    if l == 0 then 1 else 2 * Two(l - 1)
  }

  ghost function Bit(x: nat, l: nat): bool {
    x / Two(l) % 2 == 1
  }

  // What bit l of p contributes at length 2^levels.
  ghost function Factor(root: nat -> int, levels: nat, p: nat, k: nat, l: nat): Residue
    requires l < levels
  {
    if !Bit(p, l) then 1
    else
      var w := Running(root(Two(levels - l)), k % Two(levels - l - 1));
      if Bit(k, levels - l - 1) then Sub257(0, w) else w
  }

  // The product of the contributions of the bits from l up.
  ghost function Product(root: nat -> int, levels: nat, p: nat, k: nat, l: nat): Residue
    requires l <= levels
    decreases levels - l
  {
    if l == levels then 1
    else Mult257(Factor(root, levels, p, k, l), Product(root, levels, p, k, l + 1))
  }

  lemma TwoIsSize(levels: nat)
    requires levels <= 8
    ensures FftSize(Two(levels))
  {
    assert Two(4) == 16 && Two(8) == 16 * Two(4);
  }

  lemma HalfBit(p: nat, l: nat)
    ensures Bit(p / 2, l) == Bit(p, l + 1)
  {
    var t, q := Two(l), p / 2;
    assert q == t * (q / t) + q % t;
    assert p == (2 * t) * (q / t) + (2 * (q % t) + p % 2);
    DivModIs(p, 2 * t, q / t, 2 * (q % t) + p % 2);
  }

  lemma {:induction false} TwoAdds(a: nat, b: nat)
    ensures Two(a + b) == Two(a) * Two(b)
  {
    if a > 0 {
      TwoAdds(a - 1, b);
    }
  }

  lemma TwoSplits(top: nat, l: nat)
    requires l < top
    ensures Two(top) == Two(l) * (2 * Two(top - l - 1)) > 0
  {
    TwoAdds(l, top - l);
  }

  lemma DivMod(k: nat, d: nat)
    requires d > 0
    ensures k == d * (k / d) + k % d && k % d < d
  {
  }

  lemma LowParts(k: nat, t: nat, c: nat)
    requires t > 0 && c > 0
    ensures t * (2 * c) > 0
    ensures k % (t * (2 * c)) % t == k % t && k % (t * (2 * c)) / t % 2 == k / t % 2
  {
    var d := t * (2 * c);
    DivMod(k, d);
    var q, r := k / d, k % d;
    Nested(k, t, c, q, r);
  }

  // The bits of k below the top one are those of the remainder.
  lemma LowBits(k: nat, top: nat, l: nat)
    requires l < top
    ensures Bit(k % Two(top), l) == Bit(k, l)
    ensures k % Two(top) % Two(l) == k % Two(l)
  {
    hide Two;
    TwoSplits(top, l);
    LowParts(k, Two(l), Two(top - l - 1));
  }

  lemma Nested(k: nat, t: nat, c: nat, q: nat, r: nat)
    requires t > 0 && k == t * (2 * c) * q + r
    ensures k % t == r % t && k / t % 2 == r / t % 2
  {
    var u := r / t;
    assert r == t * u + r % t;
    assert k == t * (2 * (c * q) + u) + r % t by {
      assert t * (2 * c) * q == t * (2 * (c * q));
    }
    DivModIs(k, t, 2 * (c * q) + u, r % t);
    EvenMore(c * q, u);
  }

  lemma EvenMore(a: int, u: int)
    ensures (2 * a + u) % 2 == u % 2
  {
  }

  lemma ShorterFactor(root: nat -> int, levels: nat, p: nat, k: nat, l: nat)
    requires l + 1 < levels
    ensures Factor(root, levels - 1, p / 2, k % Two(levels - 1), l) == Factor(root, levels, p, k, l + 1)
  {
    hide Bit, Running, Two;
    HalfBit(p, l);
    LowBits(k, levels - 1, levels - l - 2);
  }

  lemma {:induction false} ShorterProduct(root: nat -> int, levels: nat, p: nat, k: nat, l: nat)
    requires l < levels
    ensures Product(root, levels - 1, p / 2, k % Two(levels - 1), l) == Product(root, levels, p, k, l + 1)
    decreases levels - l
  {
    hide Factor, Mult257, Two;
    if l + 1 < levels {
      ShorterFactor(root, levels, p, k, l);
      ShorterProduct(root, levels, p, k, l + 1);
    }
  }

  lemma SignedProduct(w: Residue, y: Residue)
    ensures Sub257(0, Mult257(w, y)) == Mult257(Sub257(0, w), y)
    ensures Mult257(1, y) == y
  {
    hide Sub257, Mult257;
    RingLaws257(w, y);
    RingLaws257(Sub257(0, w), y);
    RingLaws257(y, 1);
    TimesMinus(y, w);
  }

  // Entry k of the transform of the vector with a single 1, at place p: a product over the
  // bits set in p.  Bit l brings the running root of length n / 2^l after k mod n / 2^(l+1)
  // turns, with its sign changed if k has the bit that l mirrors.
  lemma {:induction false} FftOfUnit(root: nat -> int, levels: nat, a: seq<Residue>, p: nat, k: nat)
    requires levels <= 8 && |a| == Two(levels) && IsUnit(a, p) && k < |a|
    ensures FftSize(|a|) && Fft(root, a)[k] == Product(root, levels, p, k, 0)
    decreases levels
  {
    TwoIsSize(levels);
    TwoUnfolds(levels);
    hide FftSize, Fft, Mult257, Sub257, Running, Factor, Two, Product, IsUnit, Unit;
    EmptyProduct(root, p, k);
    if levels == 0 {
      FftOfSingleton(root, a);
    } else {
      var half := Two(levels - 1);
      var b := Unit(half, p / 2);
      HalfUnit(a, p, half);
      Wraps(k, half);
      UnitLevel(root, a, p, b, k);
      FftOfUnit(root, levels - 1, b, p / 2, k % half);
      ShorterProduct(root, levels, p, k, 0);
      TopProduct(root, levels, p, k);
    }
  }

  lemma HalfUnit(a: seq<Residue>, p: nat, half: nat)
    requires IsUnit(a, p) && |a| == 2 * half
    ensures IsUnit(Unit(half, p / 2), p / 2)
  {
  }

  lemma TopProduct(root: nat -> int, levels: nat, p: nat, k: nat)
    requires levels > 0 && k < Two(levels)
    ensures var w, rest := Running(root(Two(levels)), k % Two(levels - 1)), Product(root, levels, p, k, 1);
            Product(root, levels, p, k, 0) ==
            if p % 2 == 0 then rest
            else if k < Two(levels - 1) then Mult257(w, rest) else Sub257(0, Mult257(w, rest))
  {
    hide Mult257, Sub257, Running, Factor, Two;
    TopFactor(root, levels, p, k);
    SignedProduct(Running(root(Two(levels)), k % Two(levels - 1)), Product(root, levels, p, k, 1));
  }

  lemma EmptyProduct(root: nat -> int, p: nat, k: nat)
    ensures Product(root, 0, p, k, 0) == 1
  {
  }

  lemma TwoUnfolds(l: nat)
    ensures l == 0 ==> Two(l) == 1
    ensures l > 0 ==> Two(l) == 2 * Two(l - 1)
  {
  }

  lemma TopFactor(root: nat -> int, levels: nat, p: nat, k: nat)
    requires levels > 0 && k < Two(levels)
    ensures var half, w := Two(levels - 1), Running(root(Two(levels)), k % Two(levels - 1));
            Factor(root, levels, p, k, 0) ==
            if p % 2 == 0 then 1 else if k < half then w else Sub257(0, w)
  {
    hide Running, Sub257;
    Wraps(k, Two(levels - 1));
    assert Two(0) == 1;
  }

  // In numbers: whatever findW returns for length 2, with 129 for length 4.
  lemma FourEntries(root: nat -> int)
    requires root(4) == 129
    ensures FftSize(4) && Fft(root, [0, 1, 0, 0]) == [1, 129, 256, 128]
  {
    hide Fft, Running, Merge, FftSize, Mult257, Sub257;
    var a: seq<Residue>, b: seq<Residue> := [0, 1, 0, 0], [1, 0];
    FourSizes();
    FourProducts();
    FirstTurns(129, 1);
    FftOfOne(root, 2);
    assert Unit(2, 0) == b;
    UnitLevel(root, a, 1, b, 0);
    UnitLevel(root, a, 1, b, 1);
    UnitLevel(root, a, 1, b, 2);
    UnitLevel(root, a, 1, b, 3);
  }

  lemma FourProducts()
    ensures Mult257(1, 1) == 1 && Mult257(129, 1) == 129
    ensures Sub257(0, 1) == 256 && Sub257(0, 129) == 128
  {
  }

  lemma FourSizes()
    ensures FftSize(4) && FftSize(2) && FftSize(1)
  {
  }

  // ----- the transforms of unit vectors

  lemma PowerOfPower(w: Residue, j: nat, k: nat)
    ensures Power(Fermat(), Power(Fermat(), w, k), j) == Power(Fermat(), w, j * k)
  {
    FermatIsLawful();
    PowerPower(Fermat(), w, k, j);
    assert k * j == j * k;
  }

  // The transform of the vector with a single 1 at place j lists the powers w^(j * k).
  lemma DftOfUnit(a: seq<Residue>, j: nat, k: nat)
    requires FftSize(|a|) && IsUnit(a, j) && k < |a|
    ensures Dft(a)[k] == PowerOf3(256 / |a| * (j * k))
  {
    hide FftSize, Power;
    FermatIsLawful();
    DftEntry(a, k);
    EvalUnit(Fermat(), a, j, Power(Fermat(), FindW(|a|), k));
    PowerOfPower(FindW(|a|), j, k);
    PowerPower(Fermat(), 3, 256 / |a|, j * k);
  }

  // And the intended codeword of such a message those of 3.
  lemma UnitCodeword(m: seq<Residue>, j: nat, k: nat)
    requires IsUnit(m, j) && k < 256
    ensures EncodeFft(m)[k] == PowerOf3(j * k)
  {
    hide Power;
    FermatIsLawful();
    EvalUnit(Fermat(), m, j, PowerOf3(k));
    PowerOfPower(3, j, k);
  }

  // ----- which values of findW are right

  // The loop in numbers: a negative wn does not run through powers.
  lemma RunningTurns(wn: int, k: nat)
    ensures Running(wn, 0) == 1 && Running(wn, k + 1) == Running(wn, k) * wn % 0x1_0000_0000 % 257
    ensures Running(-129, 1) == 129 && Running(-129, 2) == 65
  {
    assert Running(-129, 1) == TimesInt(1, -129) == 129;
    assert Running(-129, 2) == TimesInt(129, -129) == 65;
  }

  lemma FirstTurns(wn: int, w: Residue)
    ensures Running(wn, 0) == 1 == Power(Fermat(), w, 0)
    ensures Running(wn, 1) == wn % 0x1_0000_0000 % 257
    ensures Power(Fermat(), w, 1) == w
    ensures Running(wn, 2) == TimesInt(Running(wn, 1), wn)
    ensures Power(Fermat(), w, 2) == Mult257(w, w)
  {
    PowerOne(w);
    assert Running(wn, 1) == TimesInt(Running(wn, 0), wn);
    hide TimesInt, Mult257;
    assert Power(Fermat(), w, 2) == Mult257(Power(Fermat(), w, 1), w);
  }

  // The first turn tells a negative value from all but one root, the second from that too.
  lemma NegativeTurns(wn: int, w: Residue)
    requires -257 < wn < 0
    ensures wn % 0x1_0000_0000 % 257 == w ==> wn == w - 258 || (wn == -1 && w == 0)
    ensures wn == w - 258 && TimesInt(w, wn) == Mult257(w, w) ==> w == 1
  {
    assert wn % 0x1_0000_0000 == 0x1_0000_0000 + wn;
    if wn == w - 258 && TimesInt(w, wn) == Mult257(w, w) && w != 0 {
      WrappedSquare(w);
    }
  }

  lemma WrappedSquare(w: Residue)
    requires w > 1
    ensures TimesInt(w, w - 258) == (w * w + 1 - w) % 257 != (w * w) % 257
  {
    var x, s := w * (w - 258), w * w;
    WrapRange(w);
    WrapsAround(x);
    Reduce(0x1_0000_0000 + x, 16711935 - w, s + 1 - w);
    if (s + 1 - w) % 257 == s % 257 {
      SameRemainder(s + 1 - w, s);
    }
  }

  lemma WrapRange(w: Residue)
    requires w > 1
    ensures -0x1_0000 <= w * (w - 258) < 0 && w * (w - 258) == w * w - 258 * w
  {
    assert w * (258 - w) <= 256 * 256 by {
      assert w * (258 - w) <= w * 256;
    }
  }

  lemma WrapsAround(x: int)
    requires -0x1_0000 <= x < 0
    ensures x % 0x1_0000_0000 == 0x1_0000_0000 + x
  {
  }

  lemma SameRemainder(x: int, y: int)
    requires x % 257 == y % 257
    ensures (y - x) % 257 == 0
  {
    Reduce(y - x, y / 257 - x / 257, 0);
  }

  // C takes the remainder by 257 with the sign of the dividend, so findW returns a value
  // from -256 to 256.  Only at length 4 may it differ from the intended root.
  lemma RunsRightIff(wn: int, m: nat)
    requires FftSize(m) && -257 < wn < 257
    ensures RunsRight(wn, m) <==> m <= 2 || wn == FindW(m) || (m == 4 && wn == -17)
  {
    hide Power, FindW, Running, TimesInt;
    FirstTurns(wn, FindW(m));
    if wn == FindW(m) {
      forall k | 0 <= k < m / 2 ensures Running(wn, k) == Power(Fermat(), FindW(m), k) {
        RunningIsPower(FindW(m), k);
      }
    } else if m > 2 {
      RootOf4();
      OtherRun(wn, m);
    }
  }

  lemma RootOf4()
    ensures FindW(4) == 241
  {
    FirstPowerOf3();
    hide PowerOf3;
    SquareIs(1, 3, 9);
    SquareIs(2, 9, 81);
    SquareIs(4, 81, 136);
    SquareIs(8, 136, 249);
    SquareIs(16, 249, 64);
    SquareIs(32, 64, 241);
  }

  lemma LongEnough(m: nat)
    requires FftSize(m) && m > 2
    ensures FindW(m) > 1 && (m == 4 || m / 2 >= 4)
  {
    OrderOf3(256 / m);
    RootsFit(m);
    hide PowerOf3;
    if FindW(m) == 0 {
      ZeroPower(m / 2);
    }
  }

  lemma ZeroPower(k: nat)
    requires k > 0
    ensures Power(Fermat(), 0, k) == 0
  {
  }

  lemma OtherRun(wn: int, m: nat)
    requires FftSize(m) && -257 < wn < 257 && m > 2 && wn != FindW(m)
    ensures RunsRight(wn, m) <==> m == 4 && wn == -17
  {
    hide Power, FindW, Running, TimesInt, FftSize;
    var w := FindW(m);
    RootOf4();
    LongEnough(m);
    FirstTurns(wn, w);
    if wn < 0 {
      NegativeTurns(wn, w);
    }
    if m == 4 && wn == -17 {
      FourRuns();
    } else if RunsRight(wn, m) {
      if m != 4 {
        RunAt(wn, m, 2);
      }
      RunAt(wn, m, 1);
    }
  }

  lemma FourRuns()
    ensures FftSize(4) && RunsRight(-17, 4)
  {
    hide Power, FindW, Running, FftSize, TimesInt;
    RootOf4();
    FourSizes();
    FirstTurns(-17, 241);
    forall k | 0 <= k < 4 / 2 ensures Running(-17, k) == Power(Fermat(), FindW(4), k) {
      assert k == 0 || k == 1;
    }
  }

  lemma RunAt(wn: int, m: nat, k: nat)
    requires FftSize(m) && RunsRight(wn, m) && k < m / 2
    ensures Running(wn, k) == Power(Fermat(), FindW(m), k)
  {
    hide Power, FindW, Running, FftSize;
  }
}
