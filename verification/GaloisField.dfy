// The field GF(2^8) of galoisField.cpp: logarithm tables of base 3 modulo 0x11B.
module GaloisField {
  import opened Algebra
  import opened Sequences

  // Each table keeps the sixteen rows of the source; a row is written as sixteen
  // two-digit hexadecimal entries, left to right, in one 128-bit constant.  The four high
  // bits of an index choose the row, the four low bits the entry.

  function Entry(row: bv128, i: bv8): bv8 {
    var eight := if i & 8 == 0 then row >> 64 else row;
    var four := if i & 4 == 0 then eight >> 32 else eight;
    var two := if i & 2 == 0 then four >> 16 else four;
    ((if i & 1 == 0 then two >> 8 else two) & 0xFF) as bv8
  }

  // Powers of 3: entry i is 3^i.
  function ExpTable(i: bv8): bv8 {
    var row: bv128 :=
      if i & 128 == 0 then
        if i & 64 == 0 then
          if i & 32 == 0 then
            if i & 16 == 0 then 0x0103050F_113355FF_1A2E7296_A1F81335
            else 0x5FE13848_D87395A4_F702060A_1E2266AA
          else
            if i & 16 == 0 then 0xE5345CE4_3759EB26_6ABED970_90ABE631
            else 0x53F5040C_143C44CC_4FD168B8_D36EB2CD
        else
          if i & 32 == 0 then
            if i & 16 == 0 then 0x4CD467A9_E03B4DD7_62A6F108_18287888
            else 0x839EB9D0_6BBDDC7F_8198B3CE_49DB769A
          else
            if i & 16 == 0 then 0xB5C457F9_103050F0_0B1D2769_BBD661A3
            else 0xFE192B7D_8792ADEC_2F7193AE_E92060A0
      else
        if i & 64 == 0 then
          if i & 32 == 0 then
            if i & 16 == 0 then 0xFB163A4E_D26DB7C2_5DE73256_FA153F41
            else 0xC35EE23D_47C940C0_5BED2C74_9CBFDA75
          else
            if i & 16 == 0 then 0x9FBAD564_ACEF2A7E_829DBCDF_7A8E8980
            else 0x9BB6C158_E82365AF_EA256FB1_C843C554
        else
          if i & 32 == 0 then
            if i & 16 == 0 then 0xFC1F2163_A5F40709_1B2D7799_B0CB46CA
            else 0x45CF4ADE_798B8691_A8E33E42_C651F30E
          else
            if i & 16 == 0 then 0x12365AEE_297B8D8C_8F8A8594_A7F20D17
            else 0x394BDD7C_8497A2FD_1C246CB4_C752F601;
    Entry(row, i)
  }

  // Logarithms of base 3; entry 0 is a filler that no product reads.
  function LogTable(i: bv8): bv8 {
    var row: bv128 :=
      if i & 128 == 0 then
        if i & 64 == 0 then
          if i & 32 == 0 then
            if i & 16 == 0 then 0x00001901_32021AC6_4BC71B68_33EEDF03
            else 0x6404E00E_348D81EF_4C7108C8_F8691CC1
          else
            if i & 16 == 0 then 0x7DC21DB5_F9B9276A_4DE4A672_9AC90978
            else 0x652F8A05_210FE124_12F08245_3593DA8E
        else
          if i & 32 == 0 then
            if i & 16 == 0 then 0x968FDBBD_36D0CE94_135CD2F1_40468338
            else 0x66DDFD30_BF068B62_B325E298_22889110
          else
            if i & 16 == 0 then 0x7E6E48C3_A3B61E42_3A6B2854_FA853DBA
            else 0x2B790A15_9B9F5ECA_4ED4ACE5_F373A757
      else
        if i & 64 == 0 then
          if i & 32 == 0 then
            if i & 16 == 0 then 0xAF58A850_F4EAD674_4FAEE9D5_E7E6ADE8
            else 0x2CD7757A_EB160BF5_59CB5FB0_9CA951A0
          else
            if i & 16 == 0 then 0x7F0CF66F_17C449EC_D8431F2D_A4767BB7
            else 0xCCBB3E5A_FB60B186_3B52A16C_AA55299D
        else
          if i & 32 == 0 then
            if i & 16 == 0 then 0x97B28790_61BEDCFC_BC95CFCD_373F5BD1
            else 0x5339843C_41A26D47_142A9E5D_56F2D3AB
          else
            if i & 16 == 0 then 0x441192D9_23202E89_B47CB826_7799E3A5
            else 0x674AEDDE_C531FE18_0D638C80_C0F77007;
    Entry(row, i)
  }

  // Multiplicative inverses; entry 0 is a filler.
  function InvTable(i: bv8): bv8 {
    var row: bv128 :=
      if i & 128 == 0 then
        if i & 64 == 0 then
          if i & 32 == 0 then
            if i & 16 == 0 then 0x00018DF6_CB527BD1_E84F29C0_B0E1E5C7
            else 0x74B4AA4B_992B605F_583FFDCC_FF40EEB2
          else
            if i & 16 == 0 then 0x3A6E5AF1_554DA8C9_C10A9815_3044A2C2
            else 0x2C45926C_F3396642_F235206F_77BB5919
        else
          if i & 32 == 0 then
            if i & 16 == 0 then 0x1DFE3767_2D31F569_A764AB13_5425E909
            else 0xED5C05CA_4C2487BF_183E22F0_51EC6117
          else
            if i & 16 == 0 then 0x165EAFD3_49A63643_F44791DF_3393213B
            else 0x79B79785_10B5BA3C_B670D006_A1FA8182
      else
        if i & 64 == 0 then
          if i & 32 == 0 then
            if i & 16 == 0 then 0x837E7F80_9673BE56_9B9E95D9_F702B9A4
            else 0xDE6A326D_D88A8472_2A149F88_F9DC899A
          else
            if i & 16 == 0 then 0xFB7C2EC3_8FB86548_26C8124A_CEE7D262
            else 0x0CE01FEF_11757871_A58E763D_BDBC8657
        else
          if i & 32 == 0 then
            if i & 16 == 0 then 0x0B282FA3_DAD4E40F_A9275304_1BFCACE6
            else 0x7A07AE63_C5DBE2EA_948BC4D5_9DF8906B
          else
            if i & 16 == 0 then 0xB10DD6EB_C60ECFAD_084ED7E3_5D501EB3
            else 0x5B233834_6846038C_DD9C7DA0_CD1A411C;
    Entry(row, i)
  }

  // Addition and subtraction are both bitwise exclusive or.
  function Add28(x: bv8, y: bv8): bv8 {
    x ^ y
  }

  function Sub28(x: bv8, y: bv8): bv8 {
    x ^ y
  }

  function Multiply28(x: bv8, y: bv8): bv8 {
    if x == 0 || y == 0 then
      0
    else
      var t := LogTable(x) as nat + LogTable(y) as nat;
      ExpAt(if t > 255 then t - 255 else t)
  }

  function ExpAt(t: nat): bv8
    requires t < 256
  {
    ExpTable(t as bv8)
  }

  function Inv28(x: bv8): bv8 {
    InvTable(x)
  }

  // ----- the tables: every entry of Exp is three times the one before

  // Multiplication by x, the "xtime" of section 4.2.1 of FIPS 197.
  function Double(x: bv8): bv8 {
    if x < 0x80 then x << 1 else (x << 1) ^ 0x1B
  }

  function Triple3(x: bv8): bv8 {
    Add28(Double(x), x)
  }

  // In these four lemmas the tests of single bits settle the index before the tables are read.

  lemma ExpStep(i: bv8)
    requires i < 255
    ensures ExpTable(i + 1) == Triple3(ExpTable(i))
  {
    if i & 128 == 0 {} if i & 64 == 0 {} if i & 32 == 0 {} if i & 16 == 0 {}
    if i & 8 == 0 {} if i & 4 == 0 {} if i & 2 == 0 {} if i & 1 == 0 {}
  }

  lemma LogExp(i: bv8)
    requires i < 255
    ensures LogTable(ExpTable(i)) == i
  {
    if i & 128 == 0 {} if i & 64 == 0 {} if i & 32 == 0 {} if i & 16 == 0 {}
    if i & 8 == 0 {} if i & 4 == 0 {} if i & 2 == 0 {} if i & 1 == 0 {}
  }

  lemma ExpLog(x: bv8)
    requires x != 0
    ensures ExpTable(LogTable(x)) == x && LogTable(x) < 255
  {
    if x & 128 == 0 {} if x & 64 == 0 {} if x & 32 == 0 {} if x & 16 == 0 {}
    if x & 8 == 0 {} if x & 4 == 0 {} if x & 2 == 0 {} if x & 1 == 0 {}
  }

  lemma InverseOfExp(i: bv8)
    ensures InvTable(ExpTable(i)) == ExpTable(255 - i)
  {
    if i & 128 == 0 {} if i & 64 == 0 {} if i & 32 == 0 {} if i & 16 == 0 {}
    if i & 8 == 0 {} if i & 4 == 0 {} if i & 2 == 0 {} if i & 1 == 0 {}
  }

  lemma InverseExp(x: bv8)
    requires x != 0
    ensures InvTable(x) == ExpTable(255 - LogTable(x))
  {
    hide InvTable, ExpTable, LogTable;
    ExpLog(x);
    InverseOfExp(LogTable(x));
  }

  // Zero has no inverse; the table says 0.
  lemma InverseOfZero(x: bv8)
    ensures Multiply28(x, Inv28(0)) == 0
  {
  }

  // ----- from the tables to repeated multiplication by 3

  function Times3(e: nat, y: bv8): bv8 {
    if e == 0 then y else Triple3(Times3(e - 1, y))
  }

  lemma {:induction false} ExpIsTimes3(i: bv8)
    ensures ExpTable(i) == Times3(i as nat, 1)
  {
    if i != 0 {
      ExpIsTimes3(i - 1);
      ExpStep(i - 1);
      assert (i - 1) as nat == i as nat - 1;
    } else {
      assert ExpTable(0) == 1;
    }
  }

  lemma {:induction false} Times3Add(e: nat, f: nat, y: bv8)
    ensures Times3(e + f, y) == Times3(e, Times3(f, y))
  {
    if e != 0 {
      Times3Add(e - 1, f, y);
    }
  }

  lemma DoubleLinear(y: bv8, z: bv8)
    ensures Double(Add28(y, z)) == Add28(Double(y), Double(z))
    ensures Double(0) == 0
  {
    assert (y ^ z) << 1 == (y << 1) ^ (z << 1);
    assert y ^ z < 0x80 <==> (y < 0x80 <==> z < 0x80);
  }

  lemma AddLaws(x: bv8, y: bv8, z: bv8)
    ensures Add28(x, y) == Add28(y, x)
    ensures Add28(Add28(x, y), z) == Add28(x, Add28(y, z))
    ensures Add28(x, 0) == x
    ensures Add28(x, x) == 0
  {
    assert (x ^ y) ^ z == x ^ (y ^ z);
  }

  lemma AddSwap(a: bv8, b: bv8, c: bv8, e: bv8)
    ensures Add28(Add28(a, b), Add28(c, e)) == Add28(Add28(a, c), Add28(b, e))
  {
    hide Add28;
    AddLaws(a, b, Add28(c, e));
    AddLaws(b, c, e);
    AddLaws(c, b, e);
    AddLaws(a, c, Add28(b, e));
  }

  lemma TripleLinear(y: bv8, z: bv8)
    ensures Triple3(Add28(y, z)) == Add28(Triple3(y), Triple3(z))
    ensures Triple3(0) == 0
  {
    DoubleLinear(y, z);
    AddLaws(0, 0, 0);
    hide Double, Add28;
    AddSwap(Double(y), Double(z), y, z);
  }

  lemma {:induction false} Times3Linear(e: nat, y: bv8, z: bv8)
    ensures Times3(e, Add28(y, z)) == Add28(Times3(e, y), Times3(e, z))
    ensures Times3(e, 0) == 0
  {
    hide Triple3, Add28;
    if e != 0 {
      Times3Linear(e - 1, y, z);
      TripleLinear(Times3(e - 1, y), Times3(e - 1, z));
    }
  }

  // Two multipliers commute.
  lemma Times3Swap(e: nat, f: nat, y: bv8)
    ensures Times3(e, Times3(f, y)) == Times3(f, Times3(e, y))
  {
    Times3Add(e, f, y);
    Times3Add(f, e, y);
  }

  // 3 to the power 255 is 1.
  lemma Times3Period(y: bv8)
    ensures Times3(255, y) == y
  {
    if y == 0 {
      Times3Linear(255, 0, 0);
    } else {
      ExpLog(y);
      ExpIsTimes3(LogTable(y));
      ExpIsTimes3(255);
      assert ExpTable(255) == 1;
      Times3Swap(255, LogTable(y) as nat, 1);
    }
  }

  lemma ExpIsTimes3Nat(t: nat)
    requires t < 256
    ensures ExpAt(t) == Times3(t, 1)
  {
    ExpIsTimes3(t as bv8);
    IndexRoundTrip(t);
  }

  // The two table sums of multiply28, below and above 255, are one exponent.
  lemma ProductIsTimes3(x: bv8, y: bv8)
    requires x != 0 && y != 0
    ensures Multiply28(x, y) == Times3(LogTable(x) as nat + LogTable(y) as nat, 1)
  {
    hide LogTable, ExpAt, Triple3;
    var t := LogTable(x) as nat + LogTable(y) as nat;
    if t <= 255 {
      ExpIsTimes3Nat(t);
    } else {
      ExpIsTimes3Nat(t - 255);
      Times3Add(255, t - 255, 1);
      Times3Period(Times3(t - 255, 1));
    }
  }

  // A product by x != 0 is Log x multiplications by 3.
  lemma MultiplyIsTimes3(x: bv8, y: bv8)
    requires x != 0
    ensures Multiply28(x, y) == Times3(LogTable(x) as nat, y)
  {
    hide LogTable, ExpTable, ExpAt, Triple3;
    var e, f := LogTable(x) as nat, LogTable(y) as nat;
    if y == 0 {
      Times3Linear(e, 0, 0);
    } else {
      ExpLog(y);
      ExpIsTimes3(LogTable(y));
      Times3Add(e, f, 1);
      ProductIsTimes3(x, y);
    }
  }

  // ----- the field laws

  lemma MultiplyCommutes(x: bv8, y: bv8)
    ensures Multiply28(x, y) == Multiply28(y, x)
  {
    hide LogTable, ExpAt;
  }

  lemma MultiplyDistributes(x: bv8, y: bv8, z: bv8)
    ensures Multiply28(x, Add28(y, z)) == Add28(Multiply28(x, y), Multiply28(x, z))
  {
    if x == 0 {
      AddLaws(0, 0, 0);
    } else {
      hide LogTable, Multiply28, Add28;
      MultiplyIsTimes3(x, y);
      MultiplyIsTimes3(x, z);
      MultiplyIsTimes3(x, Add28(y, z));
      Times3Linear(LogTable(x) as nat, y, z);
    }
  }

  lemma MultiplyZero(x: bv8)
    ensures Multiply28(x, 0) == 0 == Multiply28(0, x)
  {
  }

  lemma MultiplyAssociates(x: bv8, y: bv8, z: bv8)
    ensures Multiply28(Multiply28(x, y), z) == Multiply28(x, Multiply28(y, z))
  {
    MultiplyZero(x);
    MultiplyZero(y);
    MultiplyZero(z);
    MultiplyZero(Multiply28(y, z));
    MultiplyZero(Multiply28(x, y));
    hide LogTable, Multiply28;
    MultiplyCommutes(Multiply28(x, y), z);
    MultiplyCommutes(y, z);
    if x != 0 && z != 0 {
      MultiplyIsTimes3(x, y);
      MultiplyIsTimes3(z, y);
      MultiplyIsTimes3(z, Multiply28(x, y));
      MultiplyIsTimes3(x, Multiply28(z, y));
      Times3Swap(LogTable(x) as nat, LogTable(z) as nat, y);
    }
  }

  lemma MultiplyOne(x: bv8)
    ensures Multiply28(x, 1) == x == Multiply28(1, x)
  {
    MultiplyCommutes(x, 1);
    assert LogTable(1) == 0;
    MultiplyIsTimes3(1, x);
  }

  lemma Complement(i: bv8)
    ensures (255 - i) as nat == 255 - i as nat
  {
  }

  lemma MultiplyInverse(x: bv8)
    requires x != 0
    ensures Multiply28(x, Inv28(x)) == 1
  {
    hide LogTable, ExpTable, InvTable, Triple3, Multiply28;
    var i := 255 - LogTable(x);
    Complement(LogTable(x));
    InverseExp(x);
    ExpLog(x);
    ExpIsTimes3(i);
    MultiplyIsTimes3(x, Inv28(x));
    Times3Add(LogTable(x) as nat, i as nat, 1);
    Times3Period(1);
  }

  lemma NoZeroDivisors(x: bv8, y: bv8)
    ensures Multiply28(x, y) == 0 ==> x == 0 || y == 0
  {
    if x != 0 && Multiply28(x, y) == 0 {
      MultiplyZero(Inv28(x));
      hide Multiply28, Inv28;
      MultiplyInverse(x);
      MultiplyCommutes(x, Inv28(x));
      MultiplyAssociates(Inv28(x), x, y);
      MultiplyOne(y);
    }
  }

  function ByteField(): Domain<bv8> {
    Domain(0, 1, (x, y) => Add28(x, y), x => x, (x, y) => Multiply28(x, y))
  }

  // The table arithmetic is a field.
  lemma ByteFieldIsLawful()
    ensures Lawful(ByteField())
  {
    hide Add28, Multiply28;
    forall x, y, z ensures LawsAt(ByteField(), x, y, z) {
      AddLaws(x, y, z);
      MultiplyCommutes(x, y);
      MultiplyAssociates(x, y, z);
      MultiplyOne(x);
      MultiplyDistributes(x, y, z);
      NoZeroDivisors(x, y);
    }
  }

  // ----- the field of FIPS 197

  // Section 4.2 of FIPS 197: the sum of y * X^i over the bits i set in x.
  function FipsProduct(x: bv8, y: bv8): bv8
    decreases x
  {
    if x == 0 then 0 else Add28(if x & 1 == 1 then y else 0, FipsProduct(x >> 1, Double(y)))
  }

  lemma MultiplyTwo(y: bv8)
    ensures Multiply28(2, y) == Double(y)
  {
    assert Add28(3, 1) == 2;
    assert LogTable(3) == 1;
    MultiplyOne(y);
    MultiplyIsTimes3(3, y);
    assert Times3(1, y) == Triple3(y);
    hide LogTable, Multiply28, Double;
    MultiplyCommutes(2, y);
    MultiplyCommutes(3, y);
    MultiplyCommutes(1, y);
    MultiplyDistributes(y, 3, 1);
    hide Add28;
    AddLaws(Double(y), y, y);
    AddLaws(Double(y), 0, 0);
  }

  lemma SplitLowBit(x: bv8)
    ensures Add28(x & 1, Multiply28(2, x >> 1)) == x
    ensures x & 1 == 0 || x & 1 == 1
    ensures x != 0 ==> x >> 1 < x
  {
    hide Multiply28;
    MultiplyTwo(x >> 1);
    assert x >> 1 < 0x80;
  }

  // The table product is the product of the standard.
  lemma {:induction false} MultiplyIsFipsProduct(x: bv8, y: bv8)
    ensures Multiply28(x, y) == FipsProduct(x, y)
    decreases x
  {
    MultiplyZero(y);
    MultiplyOne(y);
    SplitLowBit(x);
    hide Multiply28, Double, Add28;
    if x != 0 {
      var b, r := x & 1, x >> 1;
      MultiplyIsFipsProduct(r, Double(y));
      MultiplyTwo(y);
      MultiplyCommutes(2, r);
      MultiplyAssociates(r, 2, y);
      MultiplyCommutes(x, y);
      MultiplyDistributes(y, b, Multiply28(2, r));
      MultiplyCommutes(y, b);
      MultiplyCommutes(y, Multiply28(2, r));
    }
  }

  lemma FirstFipsProduct()
    ensures Multiply28(0x57, 0x83) == 0xC1
  {
  }

  lemma SecondFipsProduct()
    ensures Multiply28(0x57, 0x13) == 0xFE
  {
  }

  // The sum and the products worked out in sections 4.1 and 4.2 of FIPS 197.
  lemma FipsExamples()
    ensures Add28(0x57, 0x83) == 0xD4
    ensures Multiply28(0x57, 0x83) == 0xC1
    ensures Multiply28(0x57, 0x13) == 0xFE
  {
    hide Multiply28;
    FirstFipsProduct();
    SecondFipsProduct();
  }

  // ----- the evaluation points 3^i

  function Point(i: nat): bv8 {
    Times3(i, 1)
  }

  lemma PointStep(i: nat)
    ensures Point(0) == 1
    ensures Multiply28(Point(i), 3) == Point(i + 1)
  {
    assert LogTable(3) == 1;
    hide LogTable, Multiply28, Triple3;
    MultiplyCommutes(Point(i), 3);
    MultiplyIsTimes3(3, Point(i));
    Times3Add(1, i, 1);
  }

  lemma PointsDiffer(i: nat, j: nat)
    requires i < j < 255
    ensures Point(i) != Point(j)
  {
    ExpIsTimes3Nat(i);
    ExpIsTimes3Nat(j);
    IndexRoundTrip(i);
    IndexRoundTrip(j);
    LogExp(i as bv8);
    LogExp(j as bv8);
  }

  // Point 255 is point 0 again, so a code longer than 255 repeats symbols.
  lemma PointsRepeat(i: nat)
    ensures Point(i + 255) == Point(i)
  {
    Times3Add(255, i, 1);
    Times3Period(Times3(i, 1));
  }
}
