// Polynomials over a commutative ring without zero divisors: what both erasure codes rest on.
module Algebra {

  datatype Domain<!T(!new)> =
    Domain(zero: T, one: T, add: (T, T) -> T, neg: T -> T, mul: (T, T) -> T)

  // The laws hold of every three elements, but the verifier is told so only of
  // those somebody mentions in a Triple.
  ghost predicate Triple<T(!new)>(x: T, y: T, z: T) {
    true
  }

  ghost predicate LawsAt<T(!new)>(d: Domain<T>, x: T, y: T, z: T) {
    && d.add(x, y) == d.add(y, x)
    && d.add(d.add(x, y), z) == d.add(x, d.add(y, z))
    && d.add(x, d.zero) == x
    && d.add(x, d.neg(x)) == d.zero
    && d.mul(x, y) == d.mul(y, x)
    && d.mul(d.mul(x, y), z) == d.mul(x, d.mul(y, z))
    && d.mul(x, d.one) == x
    && d.mul(x, d.add(y, z)) == d.add(d.mul(x, y), d.mul(x, z))
    && (d.mul(x, y) == d.zero ==> x == d.zero || y == d.zero)
  }

  ghost predicate Lawful<T(!new)>(d: Domain<T>) {
    && d.zero != d.one
    && forall x, y, z {:trigger Triple(x, y, z)} :: LawsAt(d, x, y, z)
  }

  lemma Laws<T(!new)>(d: Domain<T>, x: T, y: T, z: T)
    requires Lawful(d)
    ensures LawsAt(d, x, y, z)
  {
    assert Triple(x, y, z);
  }

  lemma Cancel<T(!new)>(d: Domain<T>, x: T, y: T)
    requires Lawful(d)
    ensures d.add(d.add(x, d.neg(y)), y) == x
    ensures d.add(x, d.neg(y)) == d.zero ==> x == y
    ensures d.add(x, y) == x ==> y == d.zero
  {
    Laws(d, x, d.neg(y), y);
    Laws(d, y, d.neg(y), x);
    Laws(d, d.zero, y, x);
    Laws(d, y, d.zero, x);
    Laws(d, x, d.neg(x), y);
    Laws(d, y, x, d.neg(x));
    Laws(d, x, y, x);
  }

  lemma TimesZero<T(!new)>(d: Domain<T>, x: T)
    requires Lawful(d)
    ensures d.mul(x, d.zero) == d.zero == d.mul(d.zero, x)
  {
    Laws(d, x, d.zero, d.zero);
    Laws(d, d.zero, d.zero, d.zero);
    Cancel(d, d.mul(x, d.zero), d.mul(x, d.zero));
  }

  // ----- polynomials, lowest coefficient first

  function Eval<T(!new)>(d: Domain<T>, p: seq<T>, x: T): T {
    if p == [] then d.zero else d.add(p[0], d.mul(x, Eval(d, p[1..], x)))
  }

  function Power<T(!new)>(d: Domain<T>, x: T, n: nat): T {
    if n == 0 then d.one else d.mul(Power(d, x, n - 1), x)
  }

  lemma {:induction false} PowerAdd<T(!new)>(d: Domain<T>, x: T, m: nat, n: nat)
    requires Lawful(d)
    ensures Power(d, x, m + n) == d.mul(Power(d, x, m), Power(d, x, n))
  {
    if n == 0 {
      Laws(d, Power(d, x, m), x, x);
    } else {
      PowerAdd(d, x, m, n - 1);
      Laws(d, Power(d, x, m), Power(d, x, n - 1), x);
    }
  }

  lemma {:induction false} PowerPower<T(!new)>(d: Domain<T>, x: T, m: nat, n: nat)
    requires Lawful(d)
    ensures Power(d, Power(d, x, m), n) == Power(d, x, m * n)
  {
    if n > 0 {
      PowerPower(d, x, m, n - 1);
      PowerAdd(d, x, m * (n - 1), m);
      assert m * (n - 1) + m == m * n;
    }
  }

  lemma {:induction false} PowerOfOne<T(!new)>(d: Domain<T>, n: nat)
    requires Lawful(d)
    ensures Power(d, d.one, n) == d.one
  {
    if n > 0 {
      PowerOfOne(d, n - 1);
      Laws(d, d.one, d.one, d.one);
    }
  }

  // The quotient of p by (X - r).
  ghost function Quotient<T(!new)>(d: Domain<T>, p: seq<T>, r: T): (q: seq<T>)
    requires p != []
    ensures |q| == |p| - 1
  {
    if |p| == 1 then [] else [Eval(d, p[1..], r)] + Quotient(d, p[1..], r)
  }

  lemma SplitFactor<T(!new)>(d: Domain<T>, x: T, r: T, e: T)
    requires Lawful(d)
    ensures d.mul(x, e) == d.add(d.mul(r, e), d.mul(d.add(x, d.neg(r)), e))
  {
    var y := d.add(x, d.neg(r));
    Cancel(d, x, r);
    Laws(d, y, r, e);
    Laws(d, e, r, y);
    Laws(d, e, x, x);
    Laws(d, r, e, e);
    Laws(d, y, e, e);
  }

  // Division with remainder: p = p(r) + (X - r) * q.
  lemma {:induction false} QuotientEval<T(!new)>(d: Domain<T>, p: seq<T>, r: T, x: T)
    requires Lawful(d) && p != []
    ensures Eval(d, p, x) ==
            d.add(Eval(d, p, r), d.mul(d.add(x, d.neg(r)), Eval(d, Quotient(d, p, r), x)))
  {
    var y := d.add(x, d.neg(r));
    if |p| == 1 {
      TimesZero(d, x);
      TimesZero(d, r);
      TimesZero(d, y);
      Laws(d, p[0], d.zero, d.zero);
    } else {
      var t, q := p[1..], Quotient(d, p[1..], r);
      var e, u := Eval(d, t, r), Eval(d, q, x);
      assert Quotient(d, p, r)[1..] == q;
      QuotientEval(d, t, r, x);
      SplitFactor(d, x, r, e);
      calc {
        d.mul(x, d.add(e, d.mul(y, u)));
        { Laws(d, x, e, d.mul(y, u)); }
        d.add(d.mul(x, e), d.mul(x, d.mul(y, u)));
        { Laws(d, x, y, u); Laws(d, y, x, u); }
        d.add(d.add(d.mul(r, e), d.mul(y, e)), d.mul(y, d.mul(x, u)));
        { Laws(d, d.mul(r, e), d.mul(y, e), d.mul(y, d.mul(x, u))); }
        d.add(d.mul(r, e), d.add(d.mul(y, e), d.mul(y, d.mul(x, u))));
        { Laws(d, y, e, d.mul(x, u)); }
        d.add(d.mul(r, e), d.mul(y, d.add(e, d.mul(x, u))));
      }
      Laws(d, p[0], d.mul(r, e), d.mul(y, d.add(e, d.mul(x, u))));
    }
  }

  ghost predicate AllZero<T(!new)>(d: Domain<T>, p: seq<T>) {
    forall i | 0 <= i < |p| :: p[i] == d.zero
  }

  lemma {:induction false} EvalZero<T(!new)>(d: Domain<T>, p: seq<T>, x: T)
    requires Lawful(d) && AllZero(d, p)
    ensures Eval(d, p, x) == d.zero
  {
    if p != [] {
      EvalZero(d, p[1..], x);
      TimesZero(d, x);
      Laws(d, d.zero, d.zero, d.zero);
    }
  }

  lemma {:induction false} ZeroQuotient<T(!new)>(d: Domain<T>, p: seq<T>, r: T)
    requires Lawful(d) && p != []
    requires AllZero(d, Quotient(d, p, r)) && Eval(d, p, r) == d.zero
    ensures AllZero(d, p)
  {
    var e := Eval(d, p[1..], r);
    if |p| > 1 {
      var q := Quotient(d, p, r);
      assert q[0] == e;
      assert q[1..] == Quotient(d, p[1..], r);
      ZeroQuotient(d, p[1..], r);
      forall i | 1 <= i < |p| ensures p[i] == d.zero {
        assert p[i] == p[1..][i - 1];
      }
    }
    TimesZero(d, r);
    Laws(d, p[0], d.zero, d.zero);
  }

  // A polynomial with k coefficients that vanishes at k points is zero.
  lemma {:induction false} RootBound<T(!new)>(d: Domain<T>, p: seq<T>, roots: set<T>)
    requires Lawful(d)
    requires |roots| >= |p|
    requires forall x | x in roots :: Eval(d, p, x) == d.zero
    ensures AllZero(d, p)
    decreases |p|
  {
    if p != [] {
      var r :| r in roots;
      var q := Quotient(d, p, r);
      forall x | x in roots - {r} ensures Eval(d, q, x) == d.zero {
        var y := d.add(x, d.neg(r));
        QuotientEval(d, p, r, x);
        Laws(d, d.zero, d.mul(y, Eval(d, q, x)), x);
        Laws(d, d.mul(y, Eval(d, q, x)), d.zero, x);
        Laws(d, y, Eval(d, q, x), x);
        Cancel(d, x, r);
      }
      RootBound(d, q, roots - {r});
      ZeroQuotient(d, p, r);
    }
  }

  ghost function Difference<T(!new)>(d: Domain<T>, p: seq<T>, q: seq<T>): seq<T>
    requires |p| == |q|
  {
    seq(|p|, i requires 0 <= i < |p| => d.add(p[i], d.neg(q[i])))
  }

  lemma {:induction false} EvalSum<T(!new)>(d: Domain<T>, p: seq<T>, q: seq<T>, s: seq<T>, x: T)
    requires Lawful(d) && |p| == |q| == |s|
    requires forall i | 0 <= i < |p| :: d.add(p[i], q[i]) == s[i]
    ensures d.add(Eval(d, p, x), Eval(d, q, x)) == Eval(d, s, x)
  {
    if p == [] {
      Laws(d, d.zero, d.zero, d.zero);
    } else {
      var a, b := d.mul(x, Eval(d, p[1..], x)), d.mul(x, Eval(d, q[1..], x));
      EvalSum(d, p[1..], q[1..], s[1..], x);
      Laws(d, x, Eval(d, p[1..], x), Eval(d, q[1..], x));
      calc {
        d.add(d.add(p[0], a), d.add(q[0], b));
        { Laws(d, p[0], a, d.add(q[0], b)); }
        d.add(p[0], d.add(a, d.add(q[0], b)));
        { Laws(d, a, q[0], b); Laws(d, q[0], a, b); }
        d.add(p[0], d.add(q[0], d.add(a, b)));
        { Laws(d, p[0], q[0], d.add(a, b)); }
        d.add(s[0], d.add(a, b));
      }
    }
  }

  // The polynomial X^j, with any number of zeros after it.
  lemma {:induction false} EvalUnit<T(!new)>(d: Domain<T>, p: seq<T>, j: nat, x: T)
    requires Lawful(d) && j < |p| && p[j] == d.one
    requires forall h | 0 <= h < |p| && h != j :: p[h] == d.zero
    ensures Eval(d, p, x) == Power(d, x, j)
  {
    Laws(d, d.zero, d.mul(x, Eval(d, p[1..], x)), x);
    Laws(d, d.mul(x, Eval(d, p[1..], x)), d.zero, x);
    if j == 0 {
      EvalZero(d, p[1..], x);
      TimesZero(d, x);
      Laws(d, d.one, d.zero, x);
    } else {
      EvalUnit(d, p[1..], j - 1, x);
      Laws(d, x, Power(d, x, j - 1), x);
    }
  }

  // Two different polynomials with k coefficients agree at fewer than k points.
  lemma AgreeBound<T(!new)>(d: Domain<T>, p: seq<T>, q: seq<T>, points: set<T>)
    requires Lawful(d) && |p| == |q| && p != q
    requires forall x | x in points :: Eval(d, p, x) == Eval(d, q, x)
    ensures |points| < |p|
  {
    if |points| >= |p| {
      var s := Difference(d, p, q);
      forall i | 0 <= i < |p| ensures d.add(s[i], q[i]) == p[i] {
        Cancel(d, p[i], q[i]);
      }
      forall x | x in points ensures Eval(d, s, x) == d.zero {
        EvalSum(d, s, q, p, x);
        Laws(d, Eval(d, s, x), Eval(d, q, x), x);
        Cancel(d, Eval(d, q, x), Eval(d, s, x));
      }
      RootBound(d, s, points);
      forall i | 0 <= i < |p| ensures p[i] == q[i] {
        assert s[i] == d.zero;
        Cancel(d, p[i], q[i]);
      }
      assert false;
    }
  }

  // ----- counting evaluation points

  lemma Element<T>(s: set<T>) returns (x: T)
    requires |s| > 0
    ensures x in s
  {
    x :| x in s;
  }

  lemma {:induction false} ImageSize<A, B>(indices: set<A>, f: A -> B, image: set<B>)
    requires forall i, j | i in indices && j in indices && i != j :: f(i) != f(j)
    requires image == set i | i in indices :: f(i)
    ensures |image| == |indices|
  {
    if indices != {} {
      var i :| i in indices;
      var rest := indices - {i};
      var restImage := set j | j in rest :: f(j);
      assert image == restImage + {f(i)};
      ImageSize(rest, f, restImage);
    } else {
      assert image == {};
    }
  }

  lemma {:induction false} ImageAtMost<A, B>(indices: set<A>, f: A -> B, image: set<B>)
    requires image == set i | i in indices :: f(i)
    ensures |image| <= |indices|
  {
    if indices != {} {
      var i :| i in indices;
      var rest := indices - {i};
      var restImage := set j | j in rest :: f(j);
      assert image == restImage + {f(i)};
      ImageAtMost(rest, f, restImage);
    } else {
      assert image == {};
    }
  }
}
