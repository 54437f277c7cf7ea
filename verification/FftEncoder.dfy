// The second encoder: a radix-2 FFT over the integers modulo 257.
module FftEncoder {
  import opened Algebra
  import opened Sequences

  type Residue = x: int | 0 <= x < 257

  function Add257(a: Residue, b: Residue): Residue {
    (a + b) % 257
  }

  function Sub257(a: Residue, b: Residue): Residue {
    var c := a - b;
    if c >= 0 then c else 257 + c
  }

  function Mult257(a: Residue, b: Residue): Residue {
    (a * b) % 257
  }

  // The running root: findW returns an int, which the unsigned product takes modulo 2^32.
  function TimesInt(w: Residue, wn: int): Residue {
    w * wn % 0x1_0000_0000 % 257
  }

  // The value of w after k turns of the loop.
  function Running(wn: int, k: nat): Residue {
    if k == 0 then 1 else TimesInt(Running(wn, k - 1), wn)
  }

  function Fermat(): Domain<Residue> {
    Domain(0, 1, (x, y) => Add257(x, y), x => Sub257(0, x), (x, y) => Mult257(x, y))
  }

  // ----- arithmetic modulo the prime 257

  lemma Reduce(x: int, k: int, r: int)
    requires x == 257 * k + r
    ensures x % 257 == r % 257
  {
  }

  lemma TimesRemainder(p: int, c: int)
    ensures (p % 257 * c) % 257 == (p * c) % 257
  {
    var q, r := p / 257, p % 257;
    assert p * c == 257 * (q * c) + r * c by {
      assert p == 257 * q + r;
    }
    Reduce(p * c, q * c, r * c);
  }

  lemma MultAssociates(a: Residue, b: Residue, c: Residue)
    ensures Mult257(Mult257(a, b), c) == Mult257(a, Mult257(b, c))
  {
    TimesRemainder(a * b, c);
    TimesRemainder(b * c, a);
    assert a * b * c == b * c * a;
  }

  lemma MultDistributes(a: Residue, b: Residue, c: Residue)
    ensures Mult257(a, Add257(b, c)) == Add257(Mult257(a, b), Mult257(a, c))
  {
    var s := (b + c) / 257;
    var p, q := a * b / 257, a * c / 257;
    var all := a * (b + c);
    assert all == 257 * (a * s) + a * Add257(b, c) by {
      assert b + c == 257 * s + Add257(b, c);
    }
    assert all == 257 * (p + q) + (Mult257(a, b) + Mult257(a, c)) by {
      assert a * b == 257 * p + Mult257(a, b);
      assert a * c == 257 * q + Mult257(a, c);
      assert all == a * b + a * c;
    }
    Reduce(all, a * s, a * Add257(b, c));
    Reduce(all, p + q, Mult257(a, b) + Mult257(a, c));
  }

  lemma Prime257(a: int)
    requires 1 < a < 257
    ensures 257 % a != 0
  {
  }

  lemma {:induction false} NoZeroDivisors257(a: Residue, b: Residue)
    requires a != 0 && Mult257(a, b) == 0
    ensures b == 0
    decreases a
  {
    if a > 1 {
      Prime257(a);
      var r, q, k := 257 % a, 257 / a, a * b / 257;
      RemainderTimes(a, b, q, r, k);
      Reduce(r * b, b - q * k, 0);
      NoZeroDivisors257(r, b);
    }
  }

  lemma RemainderTimes(a: int, b: int, q: int, r: int, k: int)
    requires 257 == q * a + r && a * b == 257 * k
    ensures r * b == 257 * (b - q * k)
  {
    calc {
      r * b;
      (257 - q * a) * b;
      257 * b - (q * a) * b;
      257 * b - q * (a * b);
      257 * b - q * (257 * k);
      257 * (b - q * k);
    }
  }

  lemma AddAssociates(x: Residue, y: Residue, z: Residue)
    ensures Add257(Add257(x, y), z) == Add257(x, Add257(y, z))
  {
    Reduce(x + y + z, (x + y) / 257, Add257(x, y) + z);
    Reduce(x + y + z, (y + z) / 257, x + Add257(y, z));
  }

  lemma RingLaws257(x: Residue, y: Residue)
    ensures Add257(x, y) == Add257(y, x)
    ensures Add257(x, 0) == x
    ensures Add257(x, Sub257(0, x)) == 0
    ensures Mult257(x, y) == Mult257(y, x)
    ensures Mult257(x, 1) == x
  {
  }

  lemma FermatIsLawful()
    ensures Lawful(Fermat())
  {
    hide Add257, Mult257, Sub257;
    forall x, y, z ensures LawsAt(Fermat(), x, y, z) {
      RingLaws257(x, y);
      AddAssociates(x, y, z);
      MultAssociates(x, y, z);
      MultDistributes(x, y, z);
      if x != 0 && Mult257(x, y) == 0 {
        NoZeroDivisors257(x, y);
      }
    }
  }

  // ----- the roots of unity

  function PowerOf3(n: nat): Residue {
    Power(Fermat(), 3, n)
  }

  function IntegerPower(b: int, n: nat): int {
    if n == 0 then 1 else b * IntegerPower(b, n - 1)
  }

  // The lengths at which the recursion splits evenly down to one.
  predicate FftSize(n: nat) {
    n in {1, 2, 4, 8, 16, 32, 64, 128, 256}
  }

  // What findW is meant to return: 3^(256/n) modulo 257.
  function FindW(n: nat): Residue
    requires FftSize(n)
  {
    PowerOf3(256 / n)
  }

  lemma {:induction false} PowerOf3IsInteger(n: nat)
    ensures PowerOf3(n) == IntegerPower(3, n) % 257
  {
    if n > 0 {
      PowerOf3IsInteger(n - 1);
      var p := IntegerPower(3, n - 1);
      Reduce(3 * p, 3 * (p / 257), PowerOf3(n - 1) * 3);
    }
  }

  lemma {:induction false} IntegerPowerGrows(m: nat, n: nat)
    requires m <= n
    ensures 1 <= IntegerPower(3, m) <= IntegerPower(3, n)
    decreases n
  {
    if m < n {
      IntegerPowerGrows(m, n - 1);
    } else if n > 0 {
      IntegerPowerGrows(m - 1, n - 1);
    }
  }

  // 3^19 fits in an int of 32 bits, 3^20 does not.
  lemma IntLimit()
    ensures IntegerPower(3, 19) < 0x8000_0000 <= IntegerPower(3, 20)
  {
    FourMore(0);
    FourMore(4);
    FourMore(8);
    FourMore(12);
    FourMore(16);
    assert IntegerPower(3, 20) == 3 * IntegerPower(3, 19);
  }

  lemma FourMore(n: nat)
    ensures IntegerPower(3, n + 4) == 81 * IntegerPower(3, n)
    ensures IntegerPower(3, 0) == 1
  {
    assert IntegerPower(3, n + 2) == 9 * IntegerPower(3, n);
  }

  lemma ExponentRange(n: nat)
    requires FftSize(n)
    ensures if n >= 16 then 256 / n <= 16 else 256 / n >= 32
  {
  }

  // The cast of pow(3, 256/n) to int in findW keeps its value exactly when n >= 16.
  lemma CastIsFaithful(n: nat)
    requires FftSize(n)
    ensures IntegerPower(3, 256 / n) < 0x8000_0000 <==> n >= 16
    ensures FindW(n) == IntegerPower(3, 256 / n) % 257
  {
    PowerOf3IsInteger(256 / n);
    IntLimit();
    ExponentRange(n);
    hide IntegerPower, PowerOf3, FftSize;
    if n >= 16 {
      IntegerPowerGrows(256 / n, 19);
    } else {
      IntegerPowerGrows(20, 256 / n);
    }
  }

  lemma SquarePower(n: nat)
    ensures PowerOf3(2 * n) == Mult257(PowerOf3(n), PowerOf3(n))
  {
    FermatIsLawful();
    PowerAdd(Fermat(), 3, n, n);
  }

  lemma FirstPowerOf3()
    ensures PowerOf3(0) == 1 && PowerOf3(1) == 3
  {
    assert Power(Fermat(), 3, 0) == 1;
  }

  lemma SquareIs(n: nat, v: int, square: int)
    requires PowerOf3(n) == v && square == (v * v) % 257
    ensures PowerOf3(2 * n) == square
  {
    SquarePower(n);
  }

  lemma HalfTurn()
    ensures PowerOf3(128) == 256 && PowerOf3(256) == 1
  {
    FirstPowerOf3();
    hide PowerOf3;
    SquareIs(1, 3, 9);
    SquareIs(2, 9, 81);
    SquareIs(4, 81, 136);
    SquareIs(8, 136, 249);
    SquareIs(16, 249, 64);
    SquareIs(32, 64, 241);
    SquareIs(64, 241, 256);
    SquareIs(128, 256, 1);
  }

  lemma SizeFacts(n: nat)
    requires FftSize(n) && n > 1
    ensures FftSize(n / 2) && n % 2 == 0
    ensures (256 / n) * (n / 2) == 128
    ensures 256 / (n / 2) == 2 * (256 / n)
  {
  }

  // The root of half the length is the square; its power n/2 is -1.
  lemma RootsFit(n: nat)
    requires FftSize(n) && n > 1
    ensures FftSize(n / 2)
    ensures FindW(n / 2) == Mult257(FindW(n), FindW(n))
    ensures Power(Fermat(), FindW(n), n / 2) == 256
  {
    SizeFacts(n);
    FermatIsLawful();
    HalfTurn();
    SquarePower(256 / n);
    hide FftSize, Power, Mult257;
    PowerPower(Fermat(), 3, 256 / n, n / 2);
  }

  // ----- the discrete Fourier transform

  // Entry k of the transform: the sum of a[j] * w^(j*k) over j >= start.
  function DftSum(a: seq<Residue>, w: Residue, k: nat, start: nat): Residue
    requires start <= |a|
    decreases |a| - start
  {
    if start == |a| then 0
    else Add257(Mult257(a[start], Power(Fermat(), w, start * k)), DftSum(a, w, k, start + 1))
  }

  function Dft(a: seq<Residue>): seq<Residue>
    requires FftSize(|a|)
  {
    seq(|a|, k requires k >= 0 => DftSum(a, FindW(|a|), k, 0))
  }

  function EvalResidue(a: seq<Residue>, x: Residue): Residue {
    Eval(Fermat(), a, x)
  }

  lemma {:induction false} DftIsEval(a: seq<Residue>, w: Residue, k: nat, start: nat)
    requires start <= |a|
    ensures DftSum(a, w, k, start) ==
            Mult257(Power(Fermat(), Power(Fermat(), w, k), start), EvalResidue(a[start..], Power(Fermat(), w, k)))
    decreases |a| - start
  {
    hide Add257, Mult257;
    FermatIsLawful();
    var d, x := Fermat(), Power(Fermat(), w, k);
    var u := Power(d, x, start);
    if start == |a| {
      TimesZero(d, u);
    } else {
      var e := EvalResidue(a[start + 1..], x);
      DftIsEval(a, w, k, start + 1);
      assert a[start..][1..] == a[start + 1..];
      PowerPower(d, w, k, start);
      assert start * k == k * start;
      Laws(d, u, a[start], Mult257(x, e));
      Laws(d, u, x, e);
    }
  }

  lemma DftEntry(a: seq<Residue>, k: nat)
    requires FftSize(|a|)
    ensures DftSum(a, FindW(|a|), k, 0) == EvalResidue(a, Power(Fermat(), FindW(|a|), k))
  {
    hide Add257, Mult257, FftSize;
    FermatIsLawful();
    DftIsEval(a, FindW(|a|), k, 0);
    var e := EvalResidue(a, Power(Fermat(), FindW(|a|), k));
    Laws(Fermat(), e, 1, e);
    Laws(Fermat(), 1, e, e);
    assert a[0..] == a;
  }

  // ----- splitting into even and odd places

  function Evens(a: seq<Residue>): (b: seq<Residue>)
    requires |a| % 2 == 0
    ensures |b| == |a| / 2
  {
    seq(|a| / 2, i requires 0 <= i < |a| / 2 => a[2 * i])
  }

  function Odds(a: seq<Residue>): (b: seq<Residue>)
    requires |a| % 2 == 0
    ensures |b| == |a| / 2
  {
    seq(|a| / 2, i requires 0 <= i < |a| / 2 => a[2 * i + 1])
  }

  lemma TwoStep(a0: Residue, a1: Residue, x: Residue, e: Residue, o: Residue)
    ensures var s := Mult257(x, x);
            Add257(a0, Mult257(x, Add257(a1, Mult257(x, Add257(e, Mult257(x, o)))))) ==
            Add257(Add257(a0, Mult257(s, e)), Mult257(x, Add257(a1, Mult257(s, o))))
  {
    hide Add257, Mult257;
    FermatIsLawful();
    var d, s := Fermat(), Mult257(x, x);
    var xo, so := Mult257(x, o), Mult257(s, o);
    Laws(d, x, e, xo);
    Laws(d, x, x, o);
    assert Mult257(x, Add257(e, xo)) == Add257(Mult257(x, e), so);
    var xe := Mult257(x, e);
    Laws(d, x, a1, Add257(xe, so));
    Laws(d, x, xe, so);
    Laws(d, x, x, e);
    Laws(d, x, a1, so);
    var xa, se, xso := Mult257(x, a1), Mult257(s, e), Mult257(x, so);
    Laws(d, xa, se, xso);
    Laws(d, se, xa, xso);
    Laws(d, a0, se, Add257(xa, xso));
  }

  // a(x) = even(x^2) + x * odd(x^2)
  lemma {:induction false} EvalSplit(a: seq<Residue>, x: Residue)
    requires |a| % 2 == 0
    ensures EvalResidue(a, x) ==
            Add257(EvalResidue(Evens(a), Mult257(x, x)), Mult257(x, EvalResidue(Odds(a), Mult257(x, x))))
    decreases |a|
  {
    hide Add257, Mult257;
    FermatIsLawful();
    var s := Mult257(x, x);
    if a == [] {
      TimesZero(Fermat(), x);
      Laws(Fermat(), 0, 0, 0);
    } else {
      var t := a[2..];
      EvalSplit(t, x);
      assert a[1..][1..] == t && a[1..][0] == a[1];
      assert EvalResidue(a[1..], x) == Add257(a[1], Mult257(x, EvalResidue(t, x)));
      assert Evens(a)[1..] == Evens(t);
      assert EvalResidue(Evens(a), s) == Add257(a[0], Mult257(s, EvalResidue(Evens(t), s)));
      assert Odds(a)[1..] == Odds(t) && Odds(a)[0] == a[1];
      assert EvalResidue(Odds(a), s) == Add257(a[1], Mult257(s, EvalResidue(Odds(t), s)));
      TwoStep(a[0], a[1], x, EvalResidue(Evens(t), s), EvalResidue(Odds(t), s));
    }
  }

  // The butterfly: u and -u have the same square.
  lemma Butterfly(a: seq<Residue>, u: Residue)
    requires |a| % 2 == 0
    ensures var e, o := EvalResidue(Evens(a), Mult257(u, u)), EvalResidue(Odds(a), Mult257(u, u));
            EvalResidue(a, u) == Add257(e, Mult257(u, o)) &&
            EvalResidue(a, Mult257(u, 256)) == Sub257(e, Mult257(u, o))
  {
    var v := Mult257(u, 256);
    EvalSplit(a, u);
    EvalSplit(a, v);
    NegativeSquare(u);
    NegativeTimes(u, EvalResidue(Odds(a), Mult257(u, u)));
    Subtract(EvalResidue(Evens(a), Mult257(u, u)), Mult257(u, EvalResidue(Odds(a), Mult257(u, u))));
  }

  lemma NegativeTimes(u: Residue, o: Residue)
    ensures Mult257(Mult257(u, 256), o) == Mult257(256, Mult257(u, o))
  {
    hide Mult257;
    FermatIsLawful();
    Laws(Fermat(), 256, u, o);
    Laws(Fermat(), u, 256, o);
  }

  lemma NegativeSquare(u: Residue)
    ensures Mult257(Mult257(u, 256), Mult257(u, 256)) == Mult257(u, u)
  {
    assert Mult257(256, 256) == 1;
    hide Mult257;
    FermatIsLawful();
    var d := Fermat();
    Laws(d, u, 256, Mult257(u, 256));
    Laws(d, 256, u, 256);
    Laws(d, u, 256, 256);
    Laws(d, 256, 256, u);
    Laws(d, u, 1, u);
    Laws(d, 256, Mult257(u, 256), u);
  }

  lemma Subtract(e: Residue, t: Residue)
    ensures Add257(e, Mult257(256, t)) == Sub257(e, t)
  {
    Reduce(256 * t, t - 1, 257 - t);
  }

  // ----- recursive_FFT

  method SplitPlaces(a: seq<Residue>) returns (a0: seq<Residue>, a1: seq<Residue>)
    requires |a| % 2 == 0
    ensures a0 == Evens(a) && a1 == Odds(a)
  {
    var n := |a|;
    var evens, odds := new Residue[n / 2](_ => 0), new Residue[n / 2](_ => 0);
    for i := 0 to n
      invariant forall j | 0 <= j < n / 2 && 2 * j < i :: evens[j] == a[2 * j]
      invariant forall j | 0 <= j < n / 2 && 2 * j + 1 < i :: odds[j] == a[2 * j + 1]
    {
      if i % 2 == 0 {
        evens[i / 2] := a[i];
      } else {
        odds[i / 2] := a[i];
      }
    }
    a0, a1 := evens[..], odds[..];
  }

  // y lists the values of a at the powers of w.
  ghost predicate Transforms(a: seq<Residue>, w: Residue, y: seq<Residue>) {
    |y| == |a| && forall k | 0 <= k < |a| :: y[k] == EvalResidue(a, Power(Fermat(), w, k))
  }

  lemma TransformIsDft(a: seq<Residue>, y: seq<Residue>)
    requires FftSize(|a|) && Transforms(a, FindW(|a|), y)
    ensures y == Dft(a)
  {
    hide FftSize, FindW, EvalResidue, DftSum, Power;
    forall k | 0 <= k < |a| ensures y[k] == Dft(a)[k] {
      DftEntry(a, k);
    }
  }

  lemma {:induction false} SquareOfPower(w: Residue, k: nat)
    ensures Power(Fermat(), Mult257(w, w), k) == Mult257(Power(Fermat(), w, k), Power(Fermat(), w, k))
  {
    FermatIsLawful();
    var d := Fermat();
    PowerAdd(d, w, k, k);
    PowerPower(d, w, 2, k);
    assert Power(d, w, 2) == Mult257(w, w) by {
      assert Power(d, w, 1) == Mult257(Power(d, w, 0), w) == w;
    }
  }

  // The two output entries that place k of the half transforms gives.
  lemma ButterflyEntries(a: seq<Residue>, w: Residue, k: nat, e: Residue, o: Residue)
    requires |a| % 2 == 0 && Power(Fermat(), w, |a| / 2) == 256
    requires e == EvalResidue(Evens(a), Power(Fermat(), Mult257(w, w), k))
    requires o == EvalResidue(Odds(a), Power(Fermat(), Mult257(w, w), k))
    ensures var t := Mult257(Power(Fermat(), w, k), o);
            && EvalResidue(a, Power(Fermat(), w, k)) == Add257(e, t)
            && EvalResidue(a, Power(Fermat(), w, k + |a| / 2)) == Sub257(e, t)
  {
    FermatIsLawful();
    hide Mult257, Add257, Sub257, EvalResidue, Evens, Odds, Power;
    PowerAdd(Fermat(), w, k, |a| / 2);
    SquareOfPower(w, k);
    Butterfly(a, Power(Fermat(), w, k));
  }

  // Entry k of the transform joined from the half transforms.
  function MergeEntry(wn: int, y0: seq<Residue>, y1: seq<Residue>, k: nat): Residue
    requires |y0| == |y1| && k < 2 * |y0|
  {
    var half := |y0|;
    if k < half then Add257(y0[k], Mult257(Running(wn, k), y1[k]))
    else Sub257(y0[k - half], Mult257(Running(wn, k - half), y1[k - half]))
  }

  function Merge(wn: int, y0: seq<Residue>, y1: seq<Residue>): (y: seq<Residue>)
    requires |y0| == |y1|
    ensures |y| == 2 * |y0|
  {
    seq(2 * |y0|, k requires 0 <= k < 2 * |y0| => MergeEntry(wn, y0, y1, k))
  }

  // What recursive_FFT computes when findW returns whatever root says.
  function Fft(root: nat -> int, a: seq<Residue>): (y: seq<Residue>)
    requires FftSize(|a|)
    ensures |y| == |a|
    decreases |a|
  {
    if |a| == 1 then a
    else
      SizeFacts(|a|);
      Merge(root(|a|), Fft(root, Evens(a)), Fft(root, Odds(a)))
  }

  method Combine(wn: int, y0: seq<Residue>, y1: seq<Residue>) returns (y: seq<Residue>)
    requires |y0| == |y1|
    ensures y == Merge(wn, y0, y1)
  {
    hide Mult257, Add257, Sub257, TimesInt;
    var half := |y0|;
    var out := new Residue[2 * half](_ => 0);
    var w: Residue := 1;
    for k := 0 to half
      invariant w == Running(wn, k)
      invariant forall j | 0 <= j < k :: out[j] == MergeEntry(wn, y0, y1, j)
      invariant forall j | half <= j < half + k :: out[j] == MergeEntry(wn, y0, y1, j)
    {
      out[k] := Add257(y0[k], Mult257(w, y1[k]));
      out[k + half] := Sub257(y0[k], Mult257(w, y1[k]));
      w := TimesInt(w, wn);
    }
    y := out[..];
  }

  method RecursiveFFT(root: nat -> int, a: seq<Residue>) returns (y: seq<Residue>)
    requires FftSize(|a|)
    ensures y == Fft(root, a)
    decreases |a|
  {
    var n := |a|;
    if n == 1 {
      return a;
    }
    SizeFacts(n);
    hide FftSize, Merge;
    var wn := root(n);
    var a0, a1 := SplitPlaces(a);
    var y0 := RecursiveFFT(root, a0);
    var y1 := RecursiveFFT(root, a1);
    y := Combine(wn, y0, y1);
  }

  // ----- when it is the transform

  // In the loop for length m, w runs through the powers of the intended root.
  ghost predicate RunsRight(wn: int, m: nat)
    requires FftSize(m)
  {
    forall k | 0 <= k < m / 2 :: Running(wn, k) == Power(Fermat(), FindW(m), k)
  }

  ghost predicate RootsRight(root: nat -> int, n: nat) {
    forall m: nat | FftSize(m) && 2 <= m <= n :: RunsRight(root(m), m)
  }

  lemma {:induction false} RunningIsPower(w: Residue, k: nat)
    ensures Running(w, k) == Power(Fermat(), w, k)
  {
    if k > 0 {
      RunningIsPower(w, k - 1);
      SmallProduct(Running(w, k - 1), w);
    }
  }

  lemma SmallProduct(x: Residue, y: Residue)
    ensures TimesInt(x, y) == Mult257(x, y)
  {
    assert 0 <= x * y <= 256 * 256 by {
      assert x * y <= x * 256;
    }
  }

  lemma MergeTransforms(a: seq<Residue>, w: Residue, wn: int, y0: seq<Residue>, y1: seq<Residue>)
    requires |a| % 2 == 0 && Power(Fermat(), w, |a| / 2) == 256
    requires forall k | 0 <= k < |a| / 2 :: Running(wn, k) == Power(Fermat(), w, k)
    requires Transforms(Evens(a), Mult257(w, w), y0) && Transforms(Odds(a), Mult257(w, w), y1)
    ensures Transforms(a, w, Merge(wn, y0, y1))
  {
    hide Mult257, Add257, Sub257, EvalResidue, Evens, Odds, Power, Running;
    var half := |y0|;
    forall k | 0 <= k < |a| ensures Merge(wn, y0, y1)[k] == EvalResidue(a, Power(Fermat(), w, k)) {
      var h := if k < half then k else k - half;
      ButterflyEntries(a, w, h, y0[h], y1[h]);
    }
  }

  lemma {:induction false} FftTransforms(root: nat -> int, a: seq<Residue>)
    requires FftSize(|a|) && RootsRight(root, |a|)
    ensures Transforms(a, FindW(|a|), Fft(root, a))
    decreases |a|
  {
    var n := |a|;
    if n == 1 {
      SingletonTransform(a);
    } else {
      SizeFacts(n);
      RootsFit(n);
      hide FftSize, Mult257, FindW, Power, EvalResidue, Transforms, Merge, Running;
      assert RunsRight(root(n), n);
      FftTransforms(root, Evens(a));
      FftTransforms(root, Odds(a));
      MergeTransforms(a, FindW(n), root(n), Fft(root, Evens(a)), Fft(root, Odds(a)));
    }
  }

  lemma SingletonTransform(a: seq<Residue>)
    requires |a| == 1
    ensures Transforms(a, FindW(1), a)
  {
    hide FindW;
    assert Power(Fermat(), FindW(1), 0) == 1;
    assert EvalResidue(a, 1) == Add257(a[0], Mult257(1, EvalResidue(a[1..], 1)));
  }

  // With the intended roots, recursive_FFT is the discrete Fourier transform.
  lemma FftIsDft(root: nat -> int, a: seq<Residue>)
    requires FftSize(|a|) && RootsRight(root, |a|)
    ensures Fft(root, a) == Dft(a)
  {
    hide FftSize, FindW, Fft, Dft, Transforms;
    FftTransforms(root, a);
    TransformIsDft(a, Fft(root, a));
  }

  // ----- and only then

  // The vector with a single 1, at place p.
  function Unit(n: nat, p: nat): (a: seq<Residue>)
    ensures |a| == n
  {
    seq(n, i requires i >= 0 => if i == p then 1 else 0)
  }

  lemma ZeroOne(w: Residue)
    ensures Mult257(w, 0) == 0 && Mult257(w, 1) == w
    ensures Add257(0, w) == w && Add257(w, 0) == w && Sub257(w, 0) == w
  {
  }

  lemma MergeZeros(w: int, y0: seq<Residue>)
    ensures Merge(w, y0, Repeat<Residue>(0, |y0|)) == y0 + y0
  {
    hide Running, Mult257, Add257, Sub257;
    var half := |y0|;
    forall k | 0 <= k < 2 * half
      ensures MergeEntry(w, y0, Repeat<Residue>(0, half), k) == y0[if k < half then k else k - half]
    {
      var h := if k < half then k else k - half;
      ZeroOne(Running(w, h));
      ZeroOne(y0[h]);
    }
  }

  lemma FftUnfolds(root: nat -> int, a: seq<Residue>)
    requires FftSize(|a|) && |a| > 1
    ensures |a| % 2 == 0 && FftSize(|a| / 2)
    ensures Fft(root, a) == Merge(root(|a|), Fft(root, Evens(a)), Fft(root, Odds(a)))
  {
    SizeFacts(|a|);
    hide FftSize, Merge, Evens, Odds;
  }

  lemma {:induction false} FftOfZeros(root: nat -> int, n: nat)
    requires FftSize(n)
    ensures Fft(root, Repeat<Residue>(0, n)) == Repeat<Residue>(0, n)
    decreases n
  {
    hide FftSize, Merge, Fft;
    if n > 1 {
      FftUnfolds(root, Repeat<Residue>(0, n));
      FftOfZeros(root, n / 2);
      assert Evens(Repeat<Residue>(0, n)) == Repeat<Residue>(0, n / 2) == Odds(Repeat<Residue>(0, n));
      MergeZeros(root(n), Repeat<Residue>(0, n / 2));
    } else {
      FftOfSingleton(root, Repeat<Residue>(0, n));
    }
  }

  lemma FftOfSingleton(root: nat -> int, a: seq<Residue>)
    requires FftSize(|a|) && |a| <= 1
    ensures Fft(root, a) == a
  {
  }

  // Whatever the roots, the transform of 1, 0, 0, ... is 1, 1, 1, ...
  lemma {:induction false} FftOfOne(root: nat -> int, n: nat)
    requires FftSize(n)
    ensures forall k | 0 <= k < n :: Fft(root, Unit(n, 0))[k] == 1
    decreases n
  {
    hide FftSize, Merge, Fft;
    if n > 1 {
      FftUnfolds(root, Unit(n, 0));
      FftOfOne(root, n / 2);
      FftOfZeros(root, n / 2);
      assert Evens(Unit(n, 0)) == Unit(n / 2, 0) && Odds(Unit(n, 0)) == Repeat<Residue>(0, n / 2);
      MergeZeros(root(n), Fft(root, Unit(n / 2, 0)));
    } else {
      FftOfSingleton(root, Unit(n, 0));
    }
  }

  lemma PowerOne(w: Residue)
    ensures Power(Fermat(), w, 1) == w
  {
    assert Power(Fermat(), w, 0) == 1;
  }

  // The transform of 0, 1, 0, ... begins with the running roots.
  lemma FftShowsRoot(root: nat -> int, n: nat, k: nat)
    requires FftSize(n) && n >= 2 && k < n / 2
    ensures Fft(root, Unit(n, 1))[k] == Running(root(n), k)
  {
    hide FftSize, Running, Mult257, Add257, Sub257, Fft;
    FftUnfolds(root, Unit(n, 1));
    FftOfOne(root, n / 2);
    FftOfZeros(root, n / 2);
    assert Evens(Unit(n, 1)) == Repeat<Residue>(0, n / 2) && Odds(Unit(n, 1)) == Unit(n / 2, 0);
    ZeroOne(Running(root(n), k));
  }

  lemma DftShowsRoot(n: nat, k: nat)
    requires FftSize(n) && n >= 2 && k < n
    ensures Dft(Unit(n, 1))[k] == Power(Fermat(), FindW(n), k)
  {
    var x := Power(Fermat(), FindW(n), k);
    DftEntry(Unit(n, 1), k);
    PowerOne(x);
    hide FftSize, Power, FindW;
    FermatIsLawful();
    EvalUnit(Fermat(), Unit(n, 1), 1, x);
  }

  function Spread(b: seq<Residue>): (a: seq<Residue>)
    ensures |a| == 2 * |b|
    ensures forall i | 0 <= i < |b| :: a[2 * i] == b[i] && a[2 * i + 1] == 0
  {
    seq(2 * |b|, i requires 0 <= i < 2 * |b| => if i % 2 == 0 then b[i / 2] else 0)
  }

  lemma SpreadPlaces(b: seq<Residue>)
    ensures Evens(Spread(b)) == b && Odds(Spread(b)) == Repeat<Residue>(0, |b|)
  {
    hide Spread;
  }

  // Both transforms of a vector spread to the even places begin with the half transform.
  lemma FftSpread(root: nat -> int, b: seq<Residue>, k: nat)
    requires FftSize(2 * |b|) && k < |b|
    ensures FftSize(|b|) && Fft(root, Spread(b))[k] == Fft(root, b)[k]
  {
    hide FftSize, Fft, Merge, Spread;
    SpreadPlaces(b);
    FftUnfolds(root, Spread(b));
    FftOfZeros(root, |b|);
    MergeZeros(root(2 * |b|), Fft(root, b));
  }

  lemma EvalSpread(b: seq<Residue>, x: Residue)
    ensures EvalResidue(Spread(b), x) == EvalResidue(b, Mult257(x, x))
  {
    hide Mult257, Add257, Spread;
    SpreadPlaces(b);
    EvalSplit(Spread(b), x);
    FermatIsLawful();
    EvalZero(Fermat(), Repeat<Residue>(0, |b|), Mult257(x, x));
    ZeroOne(x);
    ZeroOne(EvalResidue(b, Mult257(x, x)));
  }

  lemma DftSpread(b: seq<Residue>, k: nat)
    requires FftSize(2 * |b|) && k < |b|
    ensures FftSize(|b|) && Dft(Spread(b))[k] == Dft(b)[k]
  {
    SizeFacts(2 * |b|);
    hide FftSize, Power, Mult257, FindW, Spread, DftSum, EvalResidue;
    RootsFit(2 * |b|);
    DftEntry(Spread(b), k);
    DftEntry(b, k);
    SquareOfPower(FindW(2 * |b|), k);
    EvalSpread(b, Power(Fermat(), FindW(2 * |b|), k));
  }

  // A wrong root shows in some transform.
  lemma {:induction false} WrongRootShows(root: nat -> int, n: nat, m: nat) returns (a: seq<Residue>, k: nat)
    requires FftSize(n) && FftSize(m) && 2 <= m <= n && !RunsRight(root(m), m)
    ensures |a| == n && k < n && Fft(root, a)[k] != Dft(a)[k]
    decreases n
  {
    hide Fft, Dft, FindW, Spread, Unit, Running, Power;
    if m == n {
      k :| 0 <= k < m / 2 && Running(root(m), k) != Power(Fermat(), FindW(m), k);
      a := Unit(n, 1);
      FftShowsRoot(root, n, k);
      DftShowsRoot(n, k);
    } else {
      SizeFacts(n);
      SmallerSize(m, n);
      var b;
      b, k := WrongRootShows(root, n / 2, m);
      a := Spread(b);
      FftSpread(root, b, k);
      DftSpread(b, k);
    }
  }

  lemma SmallerSize(m: nat, n: nat)
    requires FftSize(m) && FftSize(n) && m < n
    ensures m <= n / 2
  {
  }

  // recursive_FFT is the transform of every vector of length n exactly when w runs through
  // the right powers at every length up to n.
  lemma FftIsDftIff(root: nat -> int, n: nat)
    requires FftSize(n)
    ensures (forall a: seq<Residue> | |a| == n :: Fft(root, a) == Dft(a)) <==> RootsRight(root, n)
  {
    hide Fft, Dft, RunsRight, FftSize;
    if RootsRight(root, n) {
      forall a: seq<Residue> | |a| == n ensures Fft(root, a) == Dft(a) {
        FftIsDft(root, a);
      }
    } else {
      var m: nat :| FftSize(m) && 2 <= m <= n && !RunsRight(root(m), m);
      var a, k := WrongRootShows(root, n, m);
    }
  }

  // ----- fft_encoder and its code distance

  // The values of the message polynomial at 3^0, ..., 3^255.
  function EncodeFft(m: seq<Residue>): seq<Residue> {
    seq(256, k requires k >= 0 => EvalResidue(m, PowerOf3(k)))
  }

  lemma FullSize()
    ensures FftSize(256) && FindW(256) == 3
  {
    FirstPowerOf3();
    assert 256 / 256 == 1;
  }

  method FftEncode(root: nat -> int, m: seq<Residue>) returns (ans: seq<Residue>)
    requires |m| <= 256
    ensures ans == Fft(root, m + Repeat<Residue>(0, 256 - |m|))
    ensures RootsRight(root, 256) ==> ans == EncodeFft(m)
  {
    hide Power, FftSize, EvalResidue, Dft, Fft, RootsRight;
    FullSize();
    var size := 256;
    var a := new Residue[size](_ => 0);
    for i := 0 to |m|
      invariant a[..i] == m[..i]
      invariant forall j | i <= j < size :: a[j] == 0
    {
      a[i] := m[i];
    }
    assert m[..|m|] == m;
    assert a[..] == m + Repeat<Residue>(0, 256 - |m|);
    ans := RecursiveFFT(root, a[..]);
    if RootsRight(root, 256) {
      FftIsEncode(root, m);
    }
  }

  lemma FftIsEncode(root: nat -> int, m: seq<Residue>)
    requires |m| <= 256 && RootsRight(root, 256)
    ensures FftSize(256) && Fft(root, m + Repeat<Residue>(0, 256 - |m|)) == EncodeFft(m)
  {
    hide FftSize, Fft, RootsRight, FindW, Repeat, Transforms, EncodeFft;
    FullSize();
    var a := m + Repeat<Residue>(0, 256 - |m|);
    FftTransforms(root, a);
    PaddedTransform(m, Fft(root, a));
  }

  lemma PaddedTransform(m: seq<Residue>, y: seq<Residue>)
    requires |m| <= 256 && Transforms(m + Repeat<Residue>(0, 256 - |m|), 3, y)
    ensures y == EncodeFft(m)
  {
    hide Power, EvalResidue, Repeat;
    forall k | 0 <= k < 256 ensures y[k] == EvalResidue(m, PowerOf3(k)) {
      EvalPadded(m, 256 - |m|, PowerOf3(k));
    }
  }

  lemma {:induction false} EvalPadded(m: seq<Residue>, zeros: nat, x: Residue)
    ensures EvalResidue(m + Repeat<Residue>(0, zeros), x) == EvalResidue(m, x)
  {
    FermatIsLawful();
    var padded := m + Repeat<Residue>(0, zeros);
    if m == [] {
      EvalZero(Fermat(), padded, x);
    } else {
      assert padded[1..] == m[1..] + Repeat<Residue>(0, zeros);
      EvalPadded(m[1..], zeros, x);
    }
  }

  // An odd factor of a power of two is 1.
  lemma {:induction false} OddFactor(d: nat, q: nat, p: nat)
    requires FftSize(p) && d * q == p && q % 2 == 1
    ensures q == 1
    decreases p
  {
    if p > 1 {
      SizeFacts(p);
      EvenFactor(d, q);
      assert (d / 2) * q == p / 2 by {
        assert d == 2 * (d / 2);
      }
      OddFactor(d / 2, q, p / 2);
    } else {
      UnitFactor(d, q);
    }
  }

  lemma UnitFactor(d: nat, q: nat)
    requires d * q == 1
    ensures q == 1
  {
  }

  lemma EvenFactor(d: nat, q: nat)
    requires (d * q) % 2 == 0 && q % 2 == 1
    ensures d % 2 == 0
  {
    var a, b, odd := d / 2, q / 2, d % 2;
    assert d * q == 2 * (2 * a * b + a + odd * b) + odd by {
      assert d == 2 * a + odd && q == 2 * b + 1;
    }
  }

  lemma PowerOfUnit(e: nat, n: nat)
    requires PowerOf3(e) == 1
    ensures PowerOf3(e * n) == 1
  {
    FermatIsLawful();
    PowerPower(Fermat(), 3, e, n);
    PowerOfOne(Fermat(), n);
  }

  lemma AddPowers(m: nat, n: nat)
    ensures PowerOf3(m + n) == Mult257(PowerOf3(m), PowerOf3(n))
  {
    FermatIsLawful();
    PowerAdd(Fermat(), 3, m, n);
  }

  lemma RemainderPower(multiple: nat, r: nat)
    requires PowerOf3(multiple) == 1 && multiple + r == 256
    ensures PowerOf3(r) == 1
  {
    HalfTurn();
    AddPowers(multiple, r);
    RingLaws257(PowerOf3(r), 1);
    RingLaws257(1, PowerOf3(r));
  }

  lemma HalfDivisor(e: nat) returns (h: nat)
    requires 0 < e < 256 && 256 % e == 0
    ensures e * h == 128
  {
    var q := 256 / e;
    assert e * q == 256;
    if q % 2 == 1 { OddFactor(e, q, 256); }
    h := q / 2;
    assert q == 2 * h;
  }

  // 3 has order 256: no smaller positive power of it is 1.
  lemma {:induction false} OrderOf3(e: nat)
    requires 0 < e < 256
    ensures PowerOf3(e) != 1
    decreases e
  {
    hide PowerOf3;
    if PowerOf3(e) == 1 {
      PowerOfUnit(e, 256 / e);
      RemainderPower(e * (256 / e), 256 % e);
      if 256 % e > 0 {
        OrderOf3(256 % e);
      } else {
        var h := HalfDivisor(e);
        PowerOfUnit(e, h);
        HalfTurn();
      }
    }
  }

  lemma PowersDiffer(i: nat, j: nat)
    requires i < j < 256
    ensures PowerOf3(i) != PowerOf3(j)
  {
    if PowerOf3(i) == PowerOf3(j) {
      hide PowerOf3;
      HalfTurn();
      AddPowers(j, 256 - j);
      AddPowers(i, 256 - j);
      OrderOf3(i + 256 - j);
      assert false;
    }
  }

  // Two different messages of k symbols have codewords that agree in at most k - 1 places.
  lemma FftCodewordsDiffer(m: seq<Residue>, m': seq<Residue>)
    requires |m| == |m'| <= 256 && m != m'
    ensures |set i: nat | i < 256 && EncodeFft(m)[i] == EncodeFft(m')[i]| < |m|
  {
    hide Power;
    var agree := set i: nat | i < 256 && EncodeFft(m)[i] == EncodeFft(m')[i];
    var points := set i | i in agree :: PowerOf3(i);
    forall i, j | i in agree && j in agree && i != j ensures PowerOf3(i) != PowerOf3(j) {
      if i < j { PowersDiffer(i, j); } else { PowersDiffer(j, i); }
    }
    ImageSize(agree, PowerOf3, points);
    FermatIsLawful();
    AgreeBound(Fermat(), m, m', points);
  }
}
