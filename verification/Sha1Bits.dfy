// SHA-1 bit by bit: what the functions on words do to each bit, and what the constants are.
module Sha1Bits {
  import opened Sequences
  import opened Sha1Spec
  import opened Sha1

  function Low(x: Word): bool {
    x & 1 == 1
  }

  function Half(x: Word): Word {
    x >> 1
  }

  // Bit i of a word, the least significant one being bit 0.
  function Bit(x: Word, i: nat): bool {
    if i == 0 then Low(x) else Bit(Half(x), i - 1)
  }

  // ----- bitwise functions

  lemma XorHalves(x: Word, y: Word)
    ensures Half(Xor(x, y)) == Xor(Half(x), Half(y))
    ensures Low(Xor(x, y)) == (Low(x) != Low(y))
  {
  }

  lemma {:induction false} XorBit(x: Word, y: Word, i: nat)
    ensures Bit(Xor(x, y), i) == (Bit(x, i) != Bit(y, i))
    decreases i
  {
    hide Low, Half, Xor;
    XorHalves(x, y);
    if i > 0 {
      XorBit(Half(x), Half(y), i - 1);
    }
  }

  // ----- rotation by one

  // The bits of m from 0 to i are set.
  predicate Ones(m: Word, i: nat) {
    Low(m) && (i > 0 ==> Ones(Half(m), i - 1))
  }

  lemma {:induction false} FewerOnes(m: Word, i: nat, j: nat)
    requires Ones(m, j) && i <= j
    ensures Ones(m, i)
  {
    if i > 0 {
      FewerOnes(Half(m), i - 1, j - 1);
    }
  }

  function And(x: Word, m: Word): Word {
    x & m
  }

  lemma AndHalves(x: Word, m: Word)
    ensures Half(And(x, m)) == And(Half(x), Half(m))
    ensures Low(And(x, m)) == (Low(x) && Low(m))
  {
  }

  lemma {:induction false} MaskedBit(x: Word, m: Word, i: nat)
    requires Ones(m, i)
    ensures Bit(And(x, m), i) == Bit(x, i)
    decreases i
  {
    hide Low, Half, And;
    AndHalves(x, m);
    if i > 0 {
      MaskedBit(Half(x), Half(m), i - 1);
    }
  }

  predicate AtLeast(x: Word, m: Word) {
    x >= m
  }

  // m is 2^i.
  predicate IsPower(m: Word, i: nat) {
    if i == 0 then m == 1 else !Low(m) && IsPower(Half(m), i - 1)
  }

  lemma HalfOrder(x: Word, m: Word)
    requires !Low(m)
    ensures AtLeast(Half(x), Half(m)) == AtLeast(x, m)
  {
    hide AtLeast;
    EvenOrder(x, m, Half(x), Half(m));
  }

  lemma EvenOrder(x: Word, m: Word, x': Word, m': Word)
    requires m & 1 != 1 && x' == x >> 1 && m' == m >> 1
    ensures AtLeast(x', m') <==> AtLeast(x, m)
  {
  }

  lemma OneBit(x: Word)
    requires !AtLeast(Half(x), 1)
    ensures Low(x) == AtLeast(x, 1)
  {
  }

  lemma {:induction false} TopBit(x: Word, m: Word, i: nat)
    requires IsPower(m, i) && !AtLeast(Half(x), m)
    ensures Bit(x, i) == AtLeast(x, m)
    decreases i
  {
    hide Low, Half, AtLeast;
    if i == 0 {
      OneBit(x);
    } else {
      HalfOrder(x, m);
      HalfOrder(Half(x), m);
      TopBit(Half(x), Half(m), i - 1);
    }
  }

  lemma ShiftedHalf(x: Word)
    ensures ((x << 1) | (x >> 31)) >> 1 == x & 0x7FFF_FFFF
  {
  }

  lemma ShiftedLow(x: Word)
    ensures ((x << 1) | (x >> 31)) & 1 == 1 <==> x >= 0x8000_0000
  {
  }

  lemma HalfIsLow(x: Word)
    ensures x >> 1 < 0x8000_0000
  {
  }

  lemma RotatedHalves(x: Word)
    ensures Half(Rotate(1, x)) == And(x, 0x7FFF_FFFF)
    ensures Low(Rotate(1, x)) == AtLeast(x, 0x8000_0000)
    ensures !AtLeast(Half(x), 0x8000_0000)
  {
    hide Rotate;
    Rotations(x);
    ShiftedHalf(x);
    ShiftedLow(x);
    HalfIsLow(x);
  }

  lemma OneMore(m: Word, i: nat, next: Word)
    requires Ones(m, i) && Half(next) == m && Low(next)
    ensures Ones(next, i + 1)
  {
    hide Half, Low;
  }

  lemma ZeroMore(m: Word, i: nat, next: Word)
    requires IsPower(m, i) && Half(next) == m && !Low(next)
    ensures IsPower(next, i + 1)
  {
    hide Half, Low;
  }

  lemma FourOnes(a: Word, b: Word, c: Word, d: Word, e: Word, i: nat)
    requires Ones(a, i) && Low(b) && Low(c) && Low(d) && Low(e)
    requires Half(b) == a && Half(c) == b && Half(d) == c && Half(e) == d
    ensures Ones(e, i + 4)
  {
    hide Half, Low;
    OneMore(a, i, b);
    OneMore(b, i + 1, c);
    OneMore(c, i + 2, d);
    OneMore(d, i + 3, e);
  }

  lemma FourZeros(a: Word, b: Word, c: Word, d: Word, e: Word, i: nat)
    requires IsPower(a, i) && !Low(b) && !Low(c) && !Low(d) && !Low(e)
    requires Half(b) == a && Half(c) == b && Half(d) == c && Half(e) == d
    ensures IsPower(e, i + 4)
  {
    hide Half, Low;
    ZeroMore(a, i, b);
    ZeroMore(b, i + 1, c);
    ZeroMore(c, i + 2, d);
    ZeroMore(d, i + 3, e);
  }

  lemma LowOnes()
    ensures Ones(0x7FFF_FFFF, 30)
  {
    OneMore(0x1, 0, 0x3);
    OneMore(0x3, 1, 0x7);
    FourOnes(0x7, 0xF, 0x1F, 0x3F, 0x7F, 2);
    FourOnes(0x7F, 0xFF, 0x1FF, 0x3FF, 0x7FF, 6);
    FourOnes(0x7FF, 0xFFF, 0x1FFF, 0x3FFF, 0x7FFF, 10);
    FourOnes(0x7FFF, 0xFFFF, 0x1_FFFF, 0x3_FFFF, 0x7_FFFF, 14);
    FourOnes(0x7_FFFF, 0xF_FFFF, 0x1F_FFFF, 0x3F_FFFF, 0x7F_FFFF, 18);
    FourOnes(0x7F_FFFF, 0xFF_FFFF, 0x1FF_FFFF, 0x3FF_FFFF, 0x7FF_FFFF, 22);
    FourOnes(0x7FF_FFFF, 0xFFF_FFFF, 0x1FFF_FFFF, 0x3FFF_FFFF, 0x7FFF_FFFF, 26);
  }

  lemma TopPower()
    ensures IsPower(0x8000_0000, 31)
  {
    ZeroMore(0x1, 0, 0x2);
    ZeroMore(0x2, 1, 0x4);
    ZeroMore(0x4, 2, 0x8);
    FourZeros(0x8, 0x10, 0x20, 0x40, 0x80, 3);
    FourZeros(0x80, 0x100, 0x200, 0x400, 0x800, 7);
    FourZeros(0x800, 0x1000, 0x2000, 0x4000, 0x8000, 11);
    FourZeros(0x8000, 0x1_0000, 0x2_0000, 0x4_0000, 0x8_0000, 15);
    FourZeros(0x8_0000, 0x10_0000, 0x20_0000, 0x40_0000, 0x80_0000, 19);
    FourZeros(0x80_0000, 0x100_0000, 0x200_0000, 0x400_0000, 0x800_0000, 23);
    FourZeros(0x800_0000, 0x1000_0000, 0x2000_0000, 0x4000_0000, 0x8000_0000, 27);
  }

  lemma LowerBit(x: Word, i: nat)
    requires i < 31
    ensures Bit(Rotate(1, x), i + 1) == Bit(x, i)
  {
    hide Rotate, Low, Half, And, Ones;
    LowOnes();
    RotatedHalves(x);
    FewerOnes(0x7FFF_FFFF, i, 30);
    MaskedBit(x, 0x7FFF_FFFF, i);
  }

  lemma HighestBit(x: Word)
    ensures Bit(Rotate(1, x), 0) == Bit(x, 31)
  {
    hide Rotate, Low, Half, IsPower, AtLeast, And;
    TopPower();
    RotatedHalves(x);
    TopBit(x, 0x8000_0000, 31);
  }

  // Every bit moves up one place, and the last one to place 0.
  lemma RotateBit(x: Word, i: nat)
    requires i < 32
    ensures Bit(Rotate(1, x), (i + 1) % 32) == Bit(x, i)
  {
    hide Rotate, Bit, Low, Half;
    if i < 31 {
      LowerBit(x, i);
      assert (i + 1) % 32 == i + 1;
    } else {
      HighestBit(x);
      assert i == 31 && (i + 1) % 32 == 0;
    }
  }

  // ----- the schedule

  function Xor4(a: Word, b: Word, c: Word, d: Word): Word {
    a ^ b ^ c ^ d
  }

  lemma MixIsXor(a: Word, b: Word, c: Word, d: Word)
    ensures Mix(a, b, c, d) == Rotate(1, Xor4(a, b, c, d))
  {
    hide Rotate;
  }

  lemma Xor4Halves(a: Word, b: Word, c: Word, d: Word)
    ensures Half(Xor4(a, b, c, d)) == Xor4(Half(a), Half(b), Half(c), Half(d))
    ensures Low(Xor4(a, b, c, d)) == ((Low(a) != Low(b)) != (Low(c) != Low(d)))
  {
  }

  lemma {:induction false} Xor4Bit(a: Word, b: Word, c: Word, d: Word, i: nat)
    ensures Bit(Xor4(a, b, c, d), i) == ((Bit(a, i) != Bit(b, i)) != (Bit(c, i) != Bit(d, i)))
    decreases i
  {
    hide Low, Half, Xor4;
    Xor4Halves(a, b, c, d);
    if i > 0 {
      Xor4Bit(Half(a), Half(b), Half(c), Half(d), i - 1);
    }
  }

  // Bit i + 1 of a word is the exclusive or of bit i of four earlier ones.
  lemma ScheduleBits(block: Bytes, t: nat, i: nat)
    requires |block| == 64 && 16 <= t < 80 && i < 32
    ensures Bit(Schedule(block, t), (i + 1) % 32) ==
            ((Bit(Schedule(block, t - 3), i) != Bit(Schedule(block, t - 8), i))
             != (Bit(Schedule(block, t - 14), i) != Bit(Schedule(block, t - 16), i)))
  {
    hide Bit, Mix, Xor4, Rotate;
    var a, b := Schedule(block, t - 3), Schedule(block, t - 8);
    var c, d := Schedule(block, t - 14), Schedule(block, t - 16);
    MixIsXor(a, b, c, d);
    RotateBit(Xor4(a, b, c, d), i);
    Xor4Bit(a, b, c, d, i);
  }

  // The constants are the integer parts of 2^30 times the square roots of 2, 3, 5 and 10.
  lemma ConstantsAreRoots(t: nat)
    requires t < 80
    ensures var k, n := Constant(t) as nat, if t < 20 then 2 else if t < 40 then 3 else if t < 60 then 5 else 10;
            k * k <= n * 0x1000_0000_0000_0000 < (k + 1) * (k + 1)
  {
  }

  // ----- hashFunction

  // Each bit of the folded digest is the parity of that bit in the five words.
  lemma FoldBits(d: State, i: nat)
    ensures Bit(Fold(d), i) ==
            ((((Bit(d.a, i) != Bit(d.b, i)) != Bit(d.c, i)) != Bit(d.d, i)) != Bit(d.e, i))
  {
    hide Bit, Xor;
    XorBit(d.a, d.b, i);
    XorBit(Xor(d.a, d.b), d.c, i);
    XorBit(Xor(Xor(d.a, d.b), d.c), d.d, i);
    XorBit(Xor(Xor(Xor(d.a, d.b), d.c), d.d), d.e, i);
  }
}
