// The Secure Hash Standard, FIPS PUB 180-1, for messages of whole bytes.
module Sha1Spec {
  import opened Sequences

  type Word = bv32

  datatype State = State(a: Word, b: Word, c: Word, d: Word, e: Word)

  // S^n(X) of section 3.
  function Rotate(n: nat, x: Word): Word
    requires 0 < n < 32
  {
    (x << n) | (x >> (32 - n))
  }

  lemma Rotations(x: Word)
    ensures Rotate(5, x) == (x << 5) | (x >> 27)
    ensures Rotate(30, x) == (x << 30) | (x >> 2)
    ensures Rotate(1, x) == (x << 1) | (x >> 31)
  {
  }

  // Section 5.
  function Choose(b: Word, c: Word, d: Word): Word {
    (b & c) | (!b & d)
  }

  function Parity(b: Word, c: Word, d: Word): Word {
    b ^ c ^ d
  }

  function Majority(b: Word, c: Word, d: Word): Word {
    (b & c) | (b & d) | (c & d)
  }

  function Logical(t: nat, b: Word, c: Word, d: Word): Word {
    if t < 20 then Choose(b, c, d)
    else if t < 40 then Parity(b, c, d)
    else if t < 60 then Majority(b, c, d)
    else Parity(b, c, d)
  }

  // Section 6.
  function Constant(t: nat): Word {
    if t < 20 then 0x5A827999 else if t < 40 then 0x6ED9EBA1 else if t < 60 then 0x8F1BBCDC else 0xCA62C1D6
  }

  // Section 7: the words of a block, most significant byte first, and their expansion.
  function WordOf(b0: bv8, b1: bv8, b2: bv8, b3: bv8): Word {
    ((b0 as Word) << 24) | ((b1 as Word) << 16) | ((b2 as Word) << 8) | (b3 as Word)
  }

  function Mix(a: Word, b: Word, c: Word, d: Word): Word {
    Rotate(1, a ^ b ^ c ^ d)
  }

  function Schedule(block: Bytes, t: nat): Word
    requires |block| == 64 && t < 80
  {
    if t < 16 then
      WordOf(block[t * 4], block[t * 4 + 1], block[t * 4 + 2], block[t * 4 + 3])
    else
      Mix(Schedule(block, t - 3), Schedule(block, t - 8), Schedule(block, t - 14), Schedule(block, t - 16))
  }

  function Temp(a: Word, f: Word, e: Word, w: Word, k: Word): Word {
    Rotate(5, a) + f + e + w + k
  }

  function Round(s: State, t: nat, w: Word): State {
    State(Temp(s.a, Logical(t, s.b, s.c, s.d), s.e, w, Constant(t)), s.a, Rotate(30, s.b), s.c, s.d)
  }

  function Rounds(block: Bytes, s: State, t: nat): State
    requires |block| == 64 && t <= 80
  {
    if t == 0 then s else Round(Rounds(block, s, t - 1), t - 1, Schedule(block, t - 1))
  }

  // Addition of words is modulo 2^32.
  function Plus(x: Word, y: Word): Word {
    x + y
  }

  function Compress(h: State, block: Bytes): State
    requires |block| == 64
  {
    var s := Rounds(block, h, 80);
    State(Plus(h.a, s.a), Plus(h.b, s.b), Plus(h.c, s.c), Plus(h.d, s.d), Plus(h.e, s.e))
  }

  const INITIAL: State := State(0x67452301, 0xEFCDAB89, 0x98BADCFE, 0x10325476, 0xC3D2E1F0)

  // The state after all blocks of m.
  function Process(m: Bytes): State
    requires |m| % 64 == 0
  {
    if m == [] then INITIAL else Compress(Process(m[..|m| - 64]), m[|m| - 64..])
  }

  // Section 4: a 1 bit, then zeros, then the length in bits as two words.
  function ZeroCount(n: nat): nat {
    (119 - n % 64) % 64
  }

  function LengthByte(bits: nat, shift: nat): bv8
    requires shift > 0
  {
    ((bits / shift) % 256) as bv8
  }

  function LengthBytes(bits: nat): (b: Bytes)
    ensures |b| == 8
  {
    [LengthByte(bits, 0x100_0000_0000_0000), LengthByte(bits, 0x1_0000_0000_0000),
     LengthByte(bits, 0x100_0000_0000), LengthByte(bits, 0x1_0000_0000),
     LengthByte(bits, 0x100_0000), LengthByte(bits, 0x1_0000), LengthByte(bits, 0x100), LengthByte(bits, 1)]
  }

  lemma PadLength(n: nat)
    ensures (n + 1 + ZeroCount(n) + 8) % 64 == 0
  {
    var q, r := n / 64, n % 64;
    assert n == 64 * q + r;
    assert n + 1 + ZeroCount(n) + 8 == 64 * (if r <= 55 then q + 1 else q + 2);
  }

  function Padded(m: Bytes): (p: Bytes)
    ensures |p| % 64 == 0
  {
    PadLength(|m|);
    m + [0x80] + Repeat<bv8>(0, ZeroCount(|m|)) + LengthBytes(8 * |m|)
  }

  function Digest(m: Bytes): State {
    Process(Padded(m))
  }

  // The padding takes the fewest zeros that complete a block.
  lemma FewestZeros(n: nat, zeros: nat)
    requires (n + 1 + zeros + 8) % 64 == 0
    ensures ZeroCount(n) <= zeros
  {
  }

  // The message, the byte 0x80, zeros up to the last eight bytes, and there the length.
  lemma PaddedMeans(m: Bytes, p: Bytes)
    requires p == Padded(m)
    ensures |p| % 64 == 0 && |m| + 9 <= |p| <= |m| + 72
    ensures p[..|m|] == m && p[|m|] == 0x80
    ensures forall i | |m| < i < |p| - 8 :: p[i] == 0
    ensures p[|p| - 8..] == LengthBytes(8 * |m|)
  {
    hide LengthBytes;
    PadLength(|m|);
  }

  lemma ProcessEmpty()
    ensures Process([]) == INITIAL
  {
  }

  lemma ProcessAppend(m: Bytes, block: Bytes)
    requires |m| % 64 == 0 && |block| == 64
    ensures Process(m + block) == Compress(Process(m), block)
  {
    var p := m + block;
    assert p[..|p| - 64] == m && p[|p| - 64..] == block;
  }

  lemma Regroup(a: Bytes, b: Bytes, c: Bytes, d: Bytes, e: Bytes)
    ensures (a + b) + c + d + e == a + (b + c + d + e)
    ensures a + b + (c + d) == a + (b + c) + d
  {
  }

  // The padding when the rest of the message leaves room for the length ...
  lemma PaddedInOne(m: Bytes, rest: nat)
    requires rest == |m| % 64 <= 55
    ensures Padded(m) == m[..|m| - rest] + (m[|m| - rest..] + [0x80] + Repeat<bv8>(0, 55 - rest) + LengthBytes(8 * |m|))
  {
    hide LengthBytes, Repeat;
    var a, b := m[..|m| - rest], m[|m| - rest..];
    assert m == a + b;
    Regroup(a, b, [0x80], Repeat<bv8>(0, 55 - rest), LengthBytes(8 * |m|));
  }

  lemma MoreZeros(n: nat, k: nat)
    ensures Repeat<bv8>(0, n + k) == Repeat<bv8>(0, n) + Repeat<bv8>(0, k)
  {
  }

  // ... and when it does not.
  lemma PaddedInTwo(m: Bytes, rest: nat)
    requires rest == |m| % 64 > 55
    ensures Padded(m) ==
            m[..|m| - rest] + (m[|m| - rest..] + [0x80] + Repeat<bv8>(0, 63 - rest))
            + (Repeat<bv8>(0, 56) + LengthBytes(8 * |m|))
  {
    hide LengthBytes, Repeat;
    var a, b, one: Bytes := m[..|m| - rest], m[|m| - rest..], [0x80];
    var y, z, l := Repeat<bv8>(0, 63 - rest), Repeat<bv8>(0, 56), LengthBytes(8 * |m|);
    assert m == a + b;
    MoreZeros(63 - rest, 56);
    Regroup(a, b, one, y + z, l);
    Regroup(b, one, y, z, l);
    Regroup(b + one, y, z, l, []);
    Regroup(a, b + one + y, z, l, []);
  }

  lemma QuotientIs(x: int, d: int, q: int, r: int)
    requires x == d * q + r && 0 <= r < d
    ensures x / d == q
  {
    var q' := x / d;
    assert x == d * q' + x % d;
    assert d * (q - q') == x % d - r;
    assert q - q' >= 1 ==> d * (q - q') >= d;
    assert q - q' <= -1 ==> d * (q - q') <= -d;
  }

  // What bytes say, the first one the most significant.
  function Number(b: Bytes): nat {
    if b == [] then 0 else 256 * Number(b[..|b| - 1]) + b[|b| - 1] as nat
  }

  lemma NumberStep(b: Bytes, x: bv8)
    ensures Number(b + [x]) == 256 * Number(b) + x as nat
  {
  }

  lemma LengthByteIs(bits: nat, shift: nat)
    requires shift > 0
    ensures LengthByte(bits, shift) as nat == bits / shift % 256
  {
    IndexRoundTrip(bits / shift % 256);
  }

  lemma QuotientStep(bits: nat, shift: nat)
    requires shift > 0
    ensures bits / shift == 256 * (bits / (256 * shift)) + bits / shift % 256
  {
    var q := bits / shift;
    TwoQuotients(bits, shift, q, bits % shift, q / 256, q % 256);
  }

  lemma TwoQuotients(x: nat, d: nat, q: nat, r: nat, u: nat, v: nat)
    requires x == d * q + r && r < d && q == 256 * u + v && v < 256
    ensures x / (256 * d) == u
  {
    Regrouped(d, u, v);
    Below(d, v, r);
    QuotientIs(x, 256 * d, u, d * v + r);
  }

  lemma Regrouped(d: nat, u: nat, v: nat)
    ensures d * (256 * u + v) == (256 * d) * u + d * v
  {
  }

  lemma Below(d: nat, v: nat, r: nat)
    requires v < 256 && r < d
    ensures d * v + r < 256 * d
  {
    assert d * v <= d * 255;
  }

  lemma NextByte(b: Bytes, bits: nat, shift: nat)
    requires shift > 0 && Number(b) == bits / (256 * shift)
    ensures Number(b + [LengthByte(bits, shift)]) == bits / shift
  {
    hide Number, LengthByte;
    NumberStep(b, LengthByte(bits, shift));
    LengthByteIs(bits, shift);
    QuotientStep(bits, shift);
  }

  lemma FourBytes(b: Bytes, bits: nat, shifts: seq<nat>)
    requires |shifts| == 4 && shifts[3] > 0 && shifts[2] == 256 * shifts[3]
    requires shifts[1] == 256 * shifts[2] && shifts[0] == 256 * shifts[1]
    requires Number(b) == bits / (256 * shifts[0])
    ensures Number(b + [LengthByte(bits, shifts[0]), LengthByte(bits, shifts[1]),
                        LengthByte(bits, shifts[2]), LengthByte(bits, shifts[3])]) == bits / shifts[3]
  {
    hide Number, LengthByte;
    var w, x, y := LengthByte(bits, shifts[0]), LengthByte(bits, shifts[1]), LengthByte(bits, shifts[2]);
    NextByte(b, bits, shifts[0]);
    NextByte(b + [w], bits, shifts[1]);
    assert b + [w] + [x] == b + [w, x];
    NextByte(b + [w, x], bits, shifts[2]);
    assert b + [w, x] + [y] == b + [w, x, y];
    NextByte(b + [w, x, y], bits, shifts[3]);
    assert b + [w, x, y] + [LengthByte(bits, shifts[3])] == b + [w, x, y, LengthByte(bits, shifts[3])];
  }

  lemma HighHalf(bits: nat)
    requires bits < 0x1_0000_0000_0000_0000
    ensures Number(LengthBytes(bits)[..4]) == bits / 0x1_0000_0000
  {
    assert Number([]) == 0;
    hide Number, LengthByte;
    FourBytes([], bits, [0x100_0000_0000_0000, 0x1_0000_0000_0000, 0x100_0000_0000, 0x1_0000_0000]);
    assert LengthBytes(bits)[..4] ==
           [] + [LengthByte(bits, 0x100_0000_0000_0000), LengthByte(bits, 0x1_0000_0000_0000),
                 LengthByte(bits, 0x100_0000_0000), LengthByte(bits, 0x1_0000_0000)];
  }

  // The length bytes are the length as a number of 64 bits.
  lemma LengthIsNumber(bits: nat)
    requires bits < 0x1_0000_0000_0000_0000
    ensures Number(LengthBytes(bits)) == bits
  {
    hide Number, LengthByte;
    HighHalf(bits);
    FourBytes(LengthBytes(bits)[..4], bits, [0x100_0000, 0x1_0000, 0x100, 1]);
    assert LengthBytes(bits) == LengthBytes(bits)[..4] + LengthBytes(bits)[4..];
  }

  const W: nat := 0x1_0000_0000

  lemma HighPart(bits: nat, high: nat, low: nat, d: nat)
    requires bits == high * W + low && low < W && d > 0
    ensures bits / (d * W) == high / d
  {
    var q, r := high / d, high % d;
    assert high == d * q + r;
    assert high * W == (d * W) * q + r * W;
    QuotientIs(bits, d * W, q, r * W + low);
  }

  lemma LowPart(bits: nat, high: nat, low: nat, d: nat, j: nat)
    requires bits == high * W + low && d * (256 * j) == W && d > 0
    ensures bits / d == 256 * (high * j) + low / d
  {
    assert d * (low / d) + low % d == low;
    calc {
      d * (256 * (high * j) + low / d) + low % d;
      d * (256 * (high * j)) + d * (low / d) + low % d;
      { assert d * (256 * (high * j)) == high * (d * (256 * j)); }
      high * W + low;
    }
    QuotientIs(bits, d, 256 * (high * j) + low / d, low % d);
  }

  lemma HighByte(bits: nat, high: nat, low: nat, d: nat)
    requires bits == high * W + low && low < W && d > 0
    ensures LengthByte(bits, d * W) == LengthByte(high, d)
  {
    HighPart(bits, high, low, d);
  }

  lemma DropMultiple(a: int, b: int)
    ensures (256 * a + b) % 256 == b % 256
  {
  }

  lemma LowByte(bits: nat, high: nat, low: nat, d: nat, j: nat)
    requires bits == high * W + low && d * (256 * j) == W && d > 0
    ensures LengthByte(bits, d) == LengthByte(low, d)
  {
    LowPart(bits, high, low, d, j);
    DropMultiple(high * j, low / d);
  }

  // The length bytes from the two words that count the bits.
  lemma LengthFromWords(bits: nat, high: nat, low: nat)
    requires bits == high * W + low && low < W
    ensures LengthBytes(bits) ==
            [LengthByte(high, 0x100_0000), LengthByte(high, 0x1_0000), LengthByte(high, 0x100), LengthByte(high, 1),
             LengthByte(low, 0x100_0000), LengthByte(low, 0x1_0000), LengthByte(low, 0x100), LengthByte(low, 1)]
  {
    hide LengthByte;
    HighByte(bits, high, low, 0x100_0000);
    HighByte(bits, high, low, 0x1_0000);
    HighByte(bits, high, low, 0x100);
    HighByte(bits, high, low, 1);
    LowByte(bits, high, low, 0x100_0000, 1);
    LowByte(bits, high, low, 0x1_0000, 0x100);
    LowByte(bits, high, low, 0x100, 0x1_0000);
    LowByte(bits, high, low, 1, 0x100_0000);
  }
}
