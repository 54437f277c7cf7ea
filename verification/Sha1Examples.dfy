// Two examples of FIPS PUB 180-1, worked out from the definitions, eight rounds at a time.
module Sha1Examples {
  import opened Sequences
  import opened Sha1Spec

  // ----- rounds on numbers: each function a single expression

  function Sum(r: Word, f: Word, e: Word, w: Word, k: Word): Word {
    r + f + e + w + k
  }

  function ChooseSum(a: Word, b: Word, c: Word, d: Word, e: Word, w: Word, k: Word): Word {
    ((a << 5) | (a >> 27)) + ((b & c) | (!b & d)) + e + w + k
  }

  function ParitySum(a: Word, b: Word, c: Word, d: Word, e: Word, w: Word, k: Word): Word {
    ((a << 5) | (a >> 27)) + (b ^ c ^ d) + e + w + k
  }

  function MajoritySum(a: Word, b: Word, c: Word, d: Word, e: Word, w: Word, k: Word): Word {
    ((a << 5) | (a >> 27)) + ((b & c) | (b & d) | (c & d)) + e + w + k
  }

  lemma ChooseUnfolds(a: Word, b: Word, c: Word, d: Word, e: Word, w: Word, k: Word)
    ensures ChooseSum(a, b, c, d, e, w, k) == Sum((a << 5) | (a >> 27), (b & c) | (!b & d), e, w, k)
  {
  }

  lemma ParityUnfolds(a: Word, b: Word, c: Word, d: Word, e: Word, w: Word, k: Word)
    ensures ParitySum(a, b, c, d, e, w, k) == Sum((a << 5) | (a >> 27), b ^ c ^ d, e, w, k)
  {
  }

  lemma MajorityUnfolds(a: Word, b: Word, c: Word, d: Word, e: Word, w: Word, k: Word)
    ensures MajoritySum(a, b, c, d, e, w, k) == Sum((a << 5) | (a >> 27), (b & c) | (b & d) | (c & d), e, w, k)
  {
  }

  lemma TempUnfolds(a: Word, f: Word, e: Word, w: Word, k: Word)
    ensures Temp(a, f, e, w, k) == Sum(Rotate(5, a), f, e, w, k)
  {
    hide Rotate;
  }

  function Next(t: nat, s: State, w: Word): State {
    State(if t < 20 then ChooseSum(s.a, s.b, s.c, s.d, s.e, w, 0x5A827999)
          else if t < 40 then ParitySum(s.a, s.b, s.c, s.d, s.e, w, 0x6ED9EBA1)
          else if t < 60 then MajoritySum(s.a, s.b, s.c, s.d, s.e, w, 0x8F1BBCDC)
          else ParitySum(s.a, s.b, s.c, s.d, s.e, w, 0xCA62C1D6),
          s.a, (s.b << 30) | (s.b >> 2), s.c, s.d)
  }

  lemma TempsAreSums(a: Word, b: Word, c: Word, d: Word, e: Word, w: Word, k: Word)
    ensures Temp(a, Choose(b, c, d), e, w, k) == ChooseSum(a, b, c, d, e, w, k)
    ensures Temp(a, Parity(b, c, d), e, w, k) == ParitySum(a, b, c, d, e, w, k)
    ensures Temp(a, Majority(b, c, d), e, w, k) == MajoritySum(a, b, c, d, e, w, k)
  {
    hide Rotate, Temp, Sum, ChooseSum, ParitySum, MajoritySum;
    Rotations(a);
    TempUnfolds(a, Choose(b, c, d), e, w, k);
    TempUnfolds(a, Parity(b, c, d), e, w, k);
    TempUnfolds(a, Majority(b, c, d), e, w, k);
    ChooseUnfolds(a, b, c, d, e, w, k);
    ParityUnfolds(a, b, c, d, e, w, k);
    MajorityUnfolds(a, b, c, d, e, w, k);
  }

  lemma RoundIsNext(s: State, t: nat, w: Word)
    ensures Round(s, t, w) == Next(t, s, w)
  {
    hide Rotate, Temp, Choose, Parity, Majority, ChooseSum, ParitySum, MajoritySum;
    Rotations(s.b);
    TempsAreSums(s.a, s.b, s.c, s.d, s.e, w, Constant(t));
  }

  // ----- eight words and eight rounds

  datatype Words = Words(a: Word, b: Word, c: Word, d: Word, e: Word, f: Word, g: Word, h: Word)

  // The words of the schedule from t on.
  ghost predicate WordsAt(block: Bytes, t: nat, w: Words)
    requires |block| == 64 && t + 8 <= 80
  {
    && Schedule(block, t) == w.a && Schedule(block, t + 1) == w.b
    && Schedule(block, t + 2) == w.c && Schedule(block, t + 3) == w.d
    && Schedule(block, t + 4) == w.e && Schedule(block, t + 5) == w.f
    && Schedule(block, t + 6) == w.g && Schedule(block, t + 7) == w.h
  }

  function MixNumbers(a: Word, b: Word, c: Word, d: Word): Word {
    var x := a ^ b ^ c ^ d;
    (x << 1) | (x >> 31)
  }

  lemma MixUnfolds(a: Word, b: Word, c: Word, d: Word)
    ensures Mix(a, b, c, d) == MixNumbers(a, b, c, d)
  {
    Rotations(a ^ b ^ c ^ d);
    hide Rotate;
  }

  function Expand(p: Words, q: Words): Words {
    var a := MixNumbers(q.f, q.a, p.c, p.a);
    var b := MixNumbers(q.g, q.b, p.d, p.b);
    var c := MixNumbers(q.h, q.c, p.e, p.c);
    var d := MixNumbers(a, q.d, p.f, p.d);
    var e := MixNumbers(b, q.e, p.g, p.e);
    Words(a, b, c, d, e,
          MixNumbers(c, q.f, p.h, p.f), MixNumbers(d, q.g, q.a, p.g), MixNumbers(e, q.h, q.b, p.h))
  }

  lemma ScheduleStep(block: Bytes, t: nat)
    requires |block| == 64 && 16 <= t < 80
    ensures Schedule(block, t) == MixNumbers(Schedule(block, t - 3), Schedule(block, t - 8),
                                             Schedule(block, t - 14), Schedule(block, t - 16))
  {
    hide Mix, MixNumbers;
    MixUnfolds(Schedule(block, t - 3), Schedule(block, t - 8), Schedule(block, t - 14), Schedule(block, t - 16));
  }

  lemma ScheduleOn(block: Bytes, t: nat, p: Words, q: Words)
    requires |block| == 64 && t + 24 <= 80 && WordsAt(block, t, p) && WordsAt(block, t + 8, q)
    ensures WordsAt(block, t + 16, Expand(p, q))
  {
    hide Schedule, MixNumbers;
    ScheduleStep(block, t + 16);
    ScheduleStep(block, t + 17);
    ScheduleStep(block, t + 18);
    ScheduleStep(block, t + 19);
    ScheduleStep(block, t + 20);
    ScheduleStep(block, t + 21);
    ScheduleStep(block, t + 22);
    ScheduleStep(block, t + 23);
  }

  function Eight(t: nat, s: State, w: Words): State {
    Next(t + 7, Next(t + 6, Next(t + 5, Next(t + 4,
      Next(t + 3, Next(t + 2, Next(t + 1, Next(t, s, w.a), w.b), w.c), w.d), w.e), w.f), w.g), w.h)
  }

  lemma RoundOn(block: Bytes, h: State, t: nat)
    requires |block| == 64 && t < 80
    ensures Rounds(block, h, t + 1) == Next(t, Rounds(block, h, t), Schedule(block, t))
  {
    hide Round, Next, Schedule;
    RoundIsNext(Rounds(block, h, t), t, Schedule(block, t));
  }

  lemma RoundsOn(block: Bytes, h: State, t: nat, w: Words)
    requires |block| == 64 && t + 8 <= 80 && WordsAt(block, t, w)
    ensures Rounds(block, h, t + 8) == Eight(t, Rounds(block, h, t), w)
  {
    hide Rounds, Next, Schedule;
    RoundOn(block, h, t);
    RoundOn(block, h, t + 1);
    RoundOn(block, h, t + 2);
    RoundOn(block, h, t + 3);
    RoundOn(block, h, t + 4);
    RoundOn(block, h, t + 5);
    RoundOn(block, h, t + 6);
    RoundOn(block, h, t + 7);
  }

  lemma NoRounds(block: Bytes, h: State)
    requires |block| == 64
    ensures Rounds(block, h, 0) == h
  {
  }

  // ----- the block of the message abc

  lemma AbcTo40(block: Bytes, h: State)
    requires |block| == 64
    requires WordsAt(block, 0,
      Words(0x61626380, 0x00000000, 0x00000000, 0x00000000, 0x00000000, 0x00000000, 0x00000000, 0x00000000))
    requires WordsAt(block, 8,
      Words(0x00000000, 0x00000000, 0x00000000, 0x00000000, 0x00000000, 0x00000000, 0x00000000, 0x00000018))
    requires Rounds(block, h, 0) == State(0x67452301, 0xEFCDAB89, 0x98BADCFE, 0x10325476, 0xC3D2E1F0)
    ensures WordsAt(block, 40,
      Words(0xD2E138C4, 0x00000F00, 0x3AFB5079, 0x898E04E5, 0xE2BA3C2B, 0x000060C0, 0x053A37CD, 0x74458547))
    ensures WordsAt(block, 48,
      Words(0xDA9415ED, 0x26380A16, 0x626383A1, 0x4EBF54DE, 0x3835B44B, 0x0000F600, 0x1E84C7A3, 0x98E04D98))
    ensures Rounds(block, h, 40) == State(0x32DE1CBA, 0x4C986405, 0xF718E5CF, 0x03D447F6, 0xF72EEC32)
  {
    hide WordsAt, Rounds;
    var w0 :=
      Words(0x61626380, 0x00000000, 0x00000000, 0x00000000, 0x00000000, 0x00000000, 0x00000000, 0x00000000);
    var w1 :=
      Words(0x00000000, 0x00000000, 0x00000000, 0x00000000, 0x00000000, 0x00000000, 0x00000000, 0x00000018);
    ScheduleOn(block, 0, w0, w1);
    var w2 := Expand(w0, w1);
    ScheduleOn(block, 8, w1, w2);
    var w3 := Expand(w1, w2);
    ScheduleOn(block, 16, w2, w3);
    var w4 := Expand(w2, w3);
    ScheduleOn(block, 24, w3, w4);
    var w5 := Expand(w3, w4);
    ScheduleOn(block, 32, w4, w5);
    var w6 := Expand(w4, w5);
    RoundsOn(block, h, 0, w0);
    RoundsOn(block, h, 8, w1);
    RoundsOn(block, h, 16, w2);
    RoundsOn(block, h, 24, w3);
    RoundsOn(block, h, 32, w4);
  }

  lemma AbcTo80(block: Bytes, h: State)
    requires |block| == 64
    requires WordsAt(block, 40,
      Words(0xD2E138C4, 0x00000F00, 0x3AFB5079, 0x898E04E5, 0xE2BA3C2B, 0x000060C0, 0x053A37CD, 0x74458547))
    requires WordsAt(block, 48,
      Words(0xDA9415ED, 0x26380A16, 0x626383A1, 0x4EBF54DE, 0x3835B44B, 0x0000F600, 0x1E84C7A3, 0x98E04D98))
    requires Rounds(block, h, 40) == State(0x32DE1CBA, 0x4C986405, 0xF718E5CF, 0x03D447F6, 0xF72EEC32)
    ensures Rounds(block, h, 80) == State(0x42541B35, 0x5738D5E1, 0x21834873, 0x681E6DF6, 0xD8FDF6AD)
  {
    hide WordsAt, Rounds;
    var w5 :=
      Words(0xD2E138C4, 0x00000F00, 0x3AFB5079, 0x898E04E5, 0xE2BA3C2B, 0x000060C0, 0x053A37CD, 0x74458547);
    var w6 :=
      Words(0xDA9415ED, 0x26380A16, 0x626383A1, 0x4EBF54DE, 0x3835B44B, 0x0000F600, 0x1E84C7A3, 0x98E04D98);
    ScheduleOn(block, 40, w5, w6);
    var w7 := Expand(w5, w6);
    ScheduleOn(block, 48, w6, w7);
    var w8 := Expand(w6, w7);
    ScheduleOn(block, 56, w7, w8);
    var w9 := Expand(w7, w8);
    RoundsOn(block, h, 40, w5);
    RoundsOn(block, h, 48, w6);
    RoundsOn(block, h, 56, w7);
    RoundsOn(block, h, 64, w8);
    RoundsOn(block, h, 72, w9);
  }

  // Section 4 for a message of three bytes: its padding is one block.
  lemma AbcWords(p: Bytes)
    requires p == Padded([0x61, 0x62, 0x63])
    ensures |p| == 64
    ensures WordsAt(p, 0,
      Words(0x61626380, 0x00000000, 0x00000000, 0x00000000, 0x00000000, 0x00000000, 0x00000000, 0x00000000))
    ensures WordsAt(p, 8,
      Words(0x00000000, 0x00000000, 0x00000000, 0x00000000, 0x00000000, 0x00000000, 0x00000000, 0x00000018))
  {
    AbcPadding(p);
    AbcNumbers();
    hide Padded, WordOf;
  }

  lemma AbcPadding(p: Bytes)
    requires p == Padded([0x61, 0x62, 0x63])
    ensures |p| == 64 && p[0] == 0x61 && p[1] == 0x62 && p[2] == 0x63 && p[3] == 0x80 && p[63] == 24
    ensures forall i | 4 <= i < 63 :: p[i] == 0
  {
    hide Padded, LengthBytes;
    var m: Bytes := [0x61, 0x62, 0x63];
    PaddedMeans(m, p);
    SmallLength(24, 0, 24);
    assert p[..3][0] == m[0] && p[..3][1] == m[1] && p[..3][2] == m[2];
    forall i | 56 <= i < 64 ensures p[i] == LengthBytes(24)[i - 56] {
      assert p[56..][i - 56] == p[i];
    }
  }

  // The length bytes of fewer than 2^16 bits.
  lemma SmallLength(bits: nat, high: bv8, low: bv8)
    requires bits < 0x1_0000 && bits / 0x100 == high as nat && bits % 0x100 == low as nat
    ensures LengthBytes(bits) == [0, 0, 0, 0, 0, 0, high, low]
  {
    hide LengthByte;
    NoLength(bits, 0x100_0000_0000_0000);
    NoLength(bits, 0x1_0000_0000_0000);
    NoLength(bits, 0x100_0000_0000);
    NoLength(bits, 0x1_0000_0000);
    NoLength(bits, 0x100_0000);
    NoLength(bits, 0x1_0000);
    LengthDigit(bits, 0x100, high);
    LengthDigit(bits, 1, low);
  }

  lemma LengthDigit(bits: nat, shift: nat, digit: bv8)
    requires shift > 0 && bits / shift % 256 == digit as nat
    ensures LengthByte(bits, shift) == digit
  {
    hide LengthByte;
    LengthByteIs(bits, shift);
    SameByte(LengthByte(bits, shift), digit);
  }

  lemma NoLength(bits: nat, shift: nat)
    requires shift > bits
    ensures LengthByte(bits, shift) == 0
  {
    assert bits / shift == 0;
  }

  lemma AbcNumbers()
    ensures WordOf(0x61, 0x62, 0x63, 0x80) == 0x61626380 && WordOf(0, 0, 0, 0) == 0 && WordOf(0, 0, 0, 24) == 24
  {
  }

  // Appendix A of the standard.
  lemma AbcDigest()
    ensures Digest([0x61, 0x62, 0x63]) == State(0xA9993E36, 0x4706816A, 0xBA3E2571, 0x7850C26C, 0x9CD0D89D)
  {
    hide WordsAt, Rounds, Padded, Plus, Process;
    var p := Padded([0x61, 0x62, 0x63]);
    AbcWords(p);
    NoRounds(p, INITIAL);
    AbcTo40(p, INITIAL);
    AbcTo80(p, INITIAL);
    OneBlock(p);
    AbcSums();
  }

  lemma AbcSums()
    ensures Plus(0x67452301, 0x42541B35) == 0xA9993E36
    ensures Plus(0xEFCDAB89, 0x5738D5E1) == 0x4706816A
    ensures Plus(0x98BADCFE, 0x21834873) == 0xBA3E2571
    ensures Plus(0x10325476, 0x681E6DF6) == 0x7850C26C
    ensures Plus(0xC3D2E1F0, 0xD8FDF6AD) == 0x9CD0D89D
  {
  }

  lemma OneBlock(p: Bytes)
    requires |p| == 64
    ensures Process(p) == Compress(INITIAL, p)
  {
    ProcessEmpty();
    ProcessAppend([], p);
    assert [] + p == p;
  }

  // ----- the message abcdbcdecdefdefgefghfghighijhijkijkljklmklmnlmnomnopnopq

  function Message(): Bytes {
    seq(56, i requires 0 <= i < 56 => Letter(i))
  }

  // Fourteen times four letters, each time starting one further: 0x61 is the letter a.
  function Letter(i: nat): bv8
    requires i < 56
  {
    Byte(0x61 + i / 4 + i % 4)
  }

  function Byte(x: nat): bv8
    requires x < 0x100
  {
    x as bv8
  }

  lemma MessagePadding(p: Bytes)
    requires p == Padded(Message())
    ensures |p| == 128 && p[..56] == Message() && p[56] == 0x80 && p[126] == 0x01 && p[127] == 0xC0
    ensures forall i | 57 <= i < 126 :: p[i] == 0
  {
    hide Padded, LengthBytes, Message;
    MessageSize();
    PaddedMeans(Message(), p);
    SmallLength(448, 0x01, 0xC0);
    forall i | 120 <= i < 128 ensures p[i] == LengthBytes(448)[i - 120] {
      assert p[120..][i - 120] == p[i];
    }
  }

  lemma MessageSize()
    ensures |Message()| == 56
  {
  }

  lemma FirstWords(block: Bytes)
    requires |block| == 64 && block[..56] == Message() && block[56] == 0x80
    requires forall i | 57 <= i < 64 :: block[i] == 0
    ensures WordsAt(block, 0,
      Words(0x61626364, 0x62636465, 0x63646566, 0x64656667, 0x65666768, 0x66676869, 0x6768696A, 0x68696A6B))
    ensures WordsAt(block, 8,
      Words(0x696A6B6C, 0x6A6B6C6D, 0x6B6C6D6E, 0x6C6D6E6F, 0x6D6E6F70, 0x6E6F7071, 0x80000000, 0x00000000))
  {
    hide WordOf, WordsAt, Message, Quad;
    MessageBytes(block);
    BlockWords(block);
    forall k | 0 <= k < 14 ensures WordFrom(block, k) == Quad(k) {
      MessageQuad(k);
    }
    MessageNumbers();
  }

  lemma BlockWords(block: Bytes)
    requires |block| == 64
    ensures WordsAt(block, 0, Words(WordFrom(block, 0), WordFrom(block, 1), WordFrom(block, 2), WordFrom(block, 3),
                                    WordFrom(block, 4), WordFrom(block, 5), WordFrom(block, 6), WordFrom(block, 7)))
    ensures WordsAt(block, 8, Words(WordFrom(block, 8), WordFrom(block, 9), WordFrom(block, 10), WordFrom(block, 11),
                                    WordFrom(block, 12), WordFrom(block, 13), WordFrom(block, 14), WordFrom(block, 15)))
  {
    hide WordOf;
  }

  function WordFrom(b: Bytes, i: nat): Word
    requires 4 * i + 4 <= |b|
  {
    WordOf(b[4 * i], b[4 * i + 1], b[4 * i + 2], b[4 * i + 3])
  }

  // The four letters from place 4k on.
  function Quad(k: nat): Word
    requires k < 14
  {
    WordOf(Byte(0x61 + k), Byte(0x62 + k), Byte(0x63 + k), Byte(0x64 + k))
  }

  lemma LetterIs(k: nat, j: nat)
    requires k < 14 && j < 4
    ensures 4 * k + j < 56 && Letter(4 * k + j) == Byte(0x61 + k + j)
  {
    hide Byte;
    assert (4 * k + j) / 4 == k && (4 * k + j) % 4 == j;
  }

  lemma MessageQuad(k: nat)
    requires k < 14
    ensures WordFrom(Message(), k) == Quad(k)
  {
    hide WordOf, Letter, Byte;
    LetterIs(k, 0);
    LetterIs(k, 1);
    LetterIs(k, 2);
    LetterIs(k, 3);
  }

  lemma MessageBytes(block: Bytes)
    requires |block| == 64 && block[..56] == Message()
    ensures forall i | 0 <= i < 56 :: block[i] == Message()[i]
  {
    hide Message;
    forall i | 0 <= i < 56 ensures block[i] == Message()[i] {
      assert block[..56][i] == block[i];
    }
  }

  lemma MessageNumbers()
    ensures Quad(0) == 0x61626364
    ensures Quad(1) == 0x62636465
    ensures Quad(2) == 0x63646566
    ensures Quad(3) == 0x64656667
    ensures Quad(4) == 0x65666768
    ensures Quad(5) == 0x66676869
    ensures Quad(6) == 0x6768696A
    ensures Quad(7) == 0x68696A6B
    ensures Quad(8) == 0x696A6B6C
    ensures Quad(9) == 0x6A6B6C6D
    ensures Quad(10) == 0x6B6C6D6E
    ensures Quad(11) == 0x6C6D6E6F
    ensures Quad(12) == 0x6D6E6F70
    ensures Quad(13) == 0x6E6F7071
    ensures WordOf(0x80, 0, 0, 0) == 0x80000000 && WordOf(0, 0, 0, 0) == 0
  {
  }

  lemma LastWords(block: Bytes)
    requires |block| == 64 && block[62] == 0x01 && block[63] == 0xC0
    requires forall i | 0 <= i < 62 :: block[i] == 0
    ensures WordsAt(block, 0,
      Words(0x00000000, 0x00000000, 0x00000000, 0x00000000, 0x00000000, 0x00000000, 0x00000000, 0x00000000))
    ensures WordsAt(block, 8,
      Words(0x00000000, 0x00000000, 0x00000000, 0x00000000, 0x00000000, 0x00000000, 0x00000000, 0x000001C0))
  {
    LengthNumbers();
    hide WordOf;
  }

  lemma LengthNumbers()
    ensures WordOf(0, 0, 0, 0) == 0 && WordOf(0, 0, 0x01, 0xC0) == 448
  {
  }

  // ----- its first block

  lemma FirstTo40(block: Bytes, h: State)
    requires |block| == 64
    requires WordsAt(block, 0,
      Words(0x61626364, 0x62636465, 0x63646566, 0x64656667, 0x65666768, 0x66676869, 0x6768696A, 0x68696A6B))
    requires WordsAt(block, 8,
      Words(0x696A6B6C, 0x6A6B6C6D, 0x6B6C6D6E, 0x6C6D6E6F, 0x6D6E6F70, 0x6E6F7071, 0x80000000, 0x00000000))
    requires Rounds(block, h, 0) == State(0x67452301, 0xEFCDAB89, 0x98BADCFE, 0x10325476, 0xC3D2E1F0)
    ensures WordsAt(block, 40,
      Words(0x8AC87842, 0x289ADDF4, 0x56D51F21, 0xD96B7FD2, 0x3868E778, 0xAB5E4848, 0x7F0E2118, 0xDE87A111))
    ensures WordsAt(block, 48,
      Words(0xE8BE56B0, 0x1A0AE652, 0xCD5611C8, 0x46EF29DC, 0x60D3DA6D, 0xDDF3BA6E, 0x2737F5E9, 0x4888A710))
    ensures Rounds(block, h, 40) == State(0xADEB7478, 0x24957F22, 0x50FE1EBA, 0x564CFF26, 0xAADF0CBB)
  {
    hide WordsAt, Rounds;
    var w0 :=
      Words(0x61626364, 0x62636465, 0x63646566, 0x64656667, 0x65666768, 0x66676869, 0x6768696A, 0x68696A6B);
    var w1 :=
      Words(0x696A6B6C, 0x6A6B6C6D, 0x6B6C6D6E, 0x6C6D6E6F, 0x6D6E6F70, 0x6E6F7071, 0x80000000, 0x00000000);
    ScheduleOn(block, 0, w0, w1);
    var w2 := Expand(w0, w1);
    ScheduleOn(block, 8, w1, w2);
    var w3 := Expand(w1, w2);
    ScheduleOn(block, 16, w2, w3);
    var w4 := Expand(w2, w3);
    ScheduleOn(block, 24, w3, w4);
    var w5 := Expand(w3, w4);
    ScheduleOn(block, 32, w4, w5);
    var w6 := Expand(w4, w5);
    RoundsOn(block, h, 0, w0);
    RoundsOn(block, h, 8, w1);
    RoundsOn(block, h, 16, w2);
    RoundsOn(block, h, 24, w3);
    RoundsOn(block, h, 32, w4);
  }

  lemma FirstTo80(block: Bytes, h: State)
    requires |block| == 64
    requires WordsAt(block, 40,
      Words(0x8AC87842, 0x289ADDF4, 0x56D51F21, 0xD96B7FD2, 0x3868E778, 0xAB5E4848, 0x7F0E2118, 0xDE87A111))
    requires WordsAt(block, 48,
      Words(0xE8BE56B0, 0x1A0AE652, 0xCD5611C8, 0x46EF29DC, 0x60D3DA6D, 0xDDF3BA6E, 0x2737F5E9, 0x4888A710))
    requires Rounds(block, h, 40) == State(0xADEB7478, 0x24957F22, 0x50FE1EBA, 0x564CFF26, 0xAADF0CBB)
    ensures Rounds(block, h, 80) == State(0x8CE34517, 0xD3AD7C25, 0x6B4E1883, 0x74351CD2, 0x86838382)
  {
    hide WordsAt, Rounds;
    var w5 :=
      Words(0x8AC87842, 0x289ADDF4, 0x56D51F21, 0xD96B7FD2, 0x3868E778, 0xAB5E4848, 0x7F0E2118, 0xDE87A111);
    var w6 :=
      Words(0xE8BE56B0, 0x1A0AE652, 0xCD5611C8, 0x46EF29DC, 0x60D3DA6D, 0xDDF3BA6E, 0x2737F5E9, 0x4888A710);
    ScheduleOn(block, 40, w5, w6);
    var w7 := Expand(w5, w6);
    ScheduleOn(block, 48, w6, w7);
    var w8 := Expand(w6, w7);
    ScheduleOn(block, 56, w7, w8);
    var w9 := Expand(w7, w8);
    RoundsOn(block, h, 40, w5);
    RoundsOn(block, h, 48, w6);
    RoundsOn(block, h, 56, w7);
    RoundsOn(block, h, 64, w8);
    RoundsOn(block, h, 72, w9);
  }

  // ----- its second block

  lemma SecondTo40(block: Bytes, h: State)
    requires |block| == 64
    requires WordsAt(block, 0,
      Words(0x00000000, 0x00000000, 0x00000000, 0x00000000, 0x00000000, 0x00000000, 0x00000000, 0x00000000))
    requires WordsAt(block, 8,
      Words(0x00000000, 0x00000000, 0x00000000, 0x00000000, 0x00000000, 0x00000000, 0x00000000, 0x000001C0))
    requires Rounds(block, h, 0) == State(0xF4286818, 0xC37B27AE, 0x0408F581, 0x84677148, 0x4A566572)
    ensures WordsAt(block, 40,
      Words(0x00000000, 0x0000D800, 0x00038000, 0x00004F00, 0x00000000, 0x00070E00, 0x0000EE00, 0x00037500))
    ensures WordsAt(block, 48,
      Words(0x000E0000, 0x0000E000, 0x00003600, 0x001CEE00, 0x00000000, 0x000DF000, 0x00380000, 0x0004C600))
    ensures Rounds(block, h, 40) == State(0x03BB6310, 0x84E2A5F2, 0x21F56E03, 0xB3BD6B84, 0x1A5B6901)
  {
    hide WordsAt, Rounds;
    var w0 :=
      Words(0x00000000, 0x00000000, 0x00000000, 0x00000000, 0x00000000, 0x00000000, 0x00000000, 0x00000000);
    var w1 :=
      Words(0x00000000, 0x00000000, 0x00000000, 0x00000000, 0x00000000, 0x00000000, 0x00000000, 0x000001C0);
    ScheduleOn(block, 0, w0, w1);
    var w2 := Expand(w0, w1);
    ScheduleOn(block, 8, w1, w2);
    var w3 := Expand(w1, w2);
    ScheduleOn(block, 16, w2, w3);
    var w4 := Expand(w2, w3);
    ScheduleOn(block, 24, w3, w4);
    var w5 := Expand(w3, w4);
    ScheduleOn(block, 32, w4, w5);
    var w6 := Expand(w4, w5);
    RoundsOn(block, h, 0, w0);
    RoundsOn(block, h, 8, w1);
    RoundsOn(block, h, 16, w2);
    RoundsOn(block, h, 24, w3);
    RoundsOn(block, h, 32, w4);
  }

  lemma SecondTo80(block: Bytes, h: State)
    requires |block| == 64
    requires WordsAt(block, 40,
      Words(0x00000000, 0x0000D800, 0x00038000, 0x00004F00, 0x00000000, 0x00070E00, 0x0000EE00, 0x00037500))
    requires WordsAt(block, 48,
      Words(0x000E0000, 0x0000E000, 0x00003600, 0x001CEE00, 0x00000000, 0x000DF000, 0x00380000, 0x0004C600))
    requires Rounds(block, h, 40) == State(0x03BB6310, 0x84E2A5F2, 0x21F56E03, 0xB3BD6B84, 0x1A5B6901)
    ensures Rounds(block, h, 80) == State(0x906FD62C, 0x58C0AAC0, 0xB6A55520, 0x74E9B89D, 0x9AF00B7F)
  {
    hide WordsAt, Rounds;
    var w5 :=
      Words(0x00000000, 0x0000D800, 0x00038000, 0x00004F00, 0x00000000, 0x00070E00, 0x0000EE00, 0x00037500);
    var w6 :=
      Words(0x000E0000, 0x0000E000, 0x00003600, 0x001CEE00, 0x00000000, 0x000DF000, 0x00380000, 0x0004C600);
    ScheduleOn(block, 40, w5, w6);
    var w7 := Expand(w5, w6);
    ScheduleOn(block, 48, w6, w7);
    var w8 := Expand(w6, w7);
    ScheduleOn(block, 56, w7, w8);
    var w9 := Expand(w7, w8);
    RoundsOn(block, h, 40, w5);
    RoundsOn(block, h, 48, w6);
    RoundsOn(block, h, 56, w7);
    RoundsOn(block, h, 64, w8);
    RoundsOn(block, h, 72, w9);
  }

  // Appendix B of the standard.
  lemma MessageDigest()
    ensures Digest(Message()) == State(0x84983E44, 0x1C3BD26E, 0xBAAE4AA1, 0xF95129E5, 0xE54670F1)
  {
    hide WordsAt, Rounds, Padded, Plus, Process, Message;
    var p := Padded(Message());
    MessagePadding(p);
    var a, b := p[..64], p[64..];
    FirstWords(a);
    LastWords(b);
    NoRounds(a, INITIAL);
    FirstTo40(a, INITIAL);
    FirstTo80(a, INITIAL);
    FirstSums();
    OneBlock(a);
    NoRounds(b, Compress(INITIAL, a));
    SecondTo40(b, Compress(INITIAL, a));
    SecondTo80(b, Compress(INITIAL, a));
    SecondSums();
    ProcessAppend(a, b);
    assert a + b == p;
  }

  lemma FirstSums()
    ensures Plus(0x67452301, 0x8CE34517) == 0xF4286818
    ensures Plus(0xEFCDAB89, 0xD3AD7C25) == 0xC37B27AE
    ensures Plus(0x98BADCFE, 0x6B4E1883) == 0x0408F581
    ensures Plus(0x10325476, 0x74351CD2) == 0x84677148
    ensures Plus(0xC3D2E1F0, 0x86838382) == 0x4A566572
  {
  }

  lemma SecondSums()
    ensures Plus(0xF4286818, 0x906FD62C) == 0x84983E44
    ensures Plus(0xC37B27AE, 0x58C0AAC0) == 0x1C3BD26E
    ensures Plus(0x0408F581, 0xB6A55520) == 0xBAAE4AA1
    ensures Plus(0x84677148, 0x74E9B89D) == 0xF95129E5
    ensures Plus(0x4A566572, 0x9AF00B7F) == 0xE54670F1
  {
  }

}
