/** jenkins_hash.c: the vector of one key, worked out byte by byte. */
module JenkinsExample {
  import opened Arithmetic
  import opened Words
  import opened Bits
  import opened Jenkins

  lemma XorAbove(a: nat, b: nat)
    ensures Xor(Shr(a, 8), Shr(b, 8)) == Shr(Xor(a, b), 8)
  {
    hide Xor;
    var x, y := Xor(Shr(a, 8), Shr(b, 8)), Shr(Xor(a, b), 8);
    forall i: nat
      ensures Bit(x, i) == Bit(y, i)
    {
      XorBit(Shr(a, 8), Shr(b, 8), i);
      ShrBit(a, 8, i);
      ShrBit(b, 8, i);
      ShrBit(Xor(a, b), 8, i);
      XorBit(a, b, i + 8);
    }
    SameBits(x, y);
  }

  lemma XorBelow(a: nat, b: nat)
    ensures Xor(a % Pow2(8), b % Pow2(8)) == Xor(a, b) % Pow2(8)
  {
    hide Xor;
    var x, y := Xor(a % Pow2(8), b % Pow2(8)), Xor(a, b) % Pow2(8);
    forall i: nat
      ensures Bit(x, i) == Bit(y, i)
    {
      XorBit(a % Pow2(8), b % Pow2(8), i);
      LowBit(a, 8, i);
      LowBit(b, 8, i);
      LowBit(Xor(a, b), 8, i);
      XorBit(a, b, i);
    }
    SameBits(x, y);
  }

  lemma XorSplit(a: nat, b: nat)
    ensures Xor(a, b) == Xor(a % 256, b % 256) + 256 * Xor(a / 256, b / 256)
  {
    assert Pow2(8) == 256;
    hide Xor, Shr;
    XorAbove(a, b);
    XorBelow(a, b);
    ShrIsDivision(a, 8);
    ShrIsDivision(b, 8);
    ShrIsDivision(Xor(a, b), 8);
  }

  // bytes as bit vectors
  ghost function Value(x: bv8): nat {
    x as nat
  }

  ghost function Half(x: bv8): bv8 {
    x >> 1
  }

  ghost function Both(x: bv8, y: bv8): bv8 {
    x ^ y
  }

  lemma HalfValue(x: bv8)
    ensures Value(Half(x)) == Value(x) / 2
  {
  }

  lemma HalfBoth(x: bv8, y: bv8)
    ensures Half(Both(x, y)) == Both(Half(x), Half(y))
  {
  }

  ghost predicate Odd(x: bv8) {
    x & 1 == 1
  }

  lemma OddValue(x: bv8)
    ensures Value(x) % 2 == if Odd(x) then 1 else 0
  {
  }

  lemma OddBoth(x: bv8, y: bv8)
    ensures Odd(Both(x, y)) <==> Odd(x) != Odd(y)
  {
  }

  lemma ZeroBoth(x: bv8, y: bv8)
    requires Value(x) == Value(y) == 0
    ensures Value(Both(x, y)) == 0
  {
  }

  lemma {:induction false} XorByte(x: bv8, y: bv8)
    ensures Xor(Value(x), Value(y)) == Value(Both(x, y))
    decreases Value(x) + Value(y)
  {
    hide Xor, Value, Half, Both, Odd;
    if Value(x) == Value(y) == 0 {
      XorZero(0);
      ZeroBoth(x, y);
    } else {
      HalfValue(x);
      HalfValue(y);
      HalfValue(Both(x, y));
      HalfBoth(x, y);
      OddValue(x);
      OddValue(y);
      OddValue(Both(x, y));
      OddBoth(x, y);
      XorByte(Half(x), Half(y));
      XorHalves(Value(x), Value(y));
    }
  }

  lemma XorLow(x: bv8, h: nat, y: bv8, i: nat)
    ensures Xor(Value(x) + 256 * h, Value(y) + 256 * i) == Value(Both(x, y)) + 256 * Xor(h, i)
  {
    hide Xor, Value, Both;
    ByteBound(x);
    ByteBound(y);
    XorSplit(Value(x) + 256 * h, Value(y) + 256 * i);
    XorByte(x, y);
  }

  lemma ByteBound(x: bv8)
    ensures Value(x) < 256
  {
  }

  /** The bytes of a word, the lowest first. */
  datatype Bytes = Bytes(x0: bv8, x1: bv8, x2: bv8, x3: bv8) {
    ghost function Word(): nat {
      Value(x0) + 0x100 * Value(x1) + 0x1_0000 * Value(x2) + 0x100_0000 * Value(x3)
    }

    ghost function Xored(y: Bytes): Bytes {
      Bytes(Both(x0, y.x0), Both(x1, y.x1), Both(x2, y.x2), Both(x3, y.x3))
    }
  }

  lemma XorWord(x: Bytes, y: Bytes)
    ensures Xor(x.Word(), y.Word()) == x.Xored(y).Word()
  {
    hide Xor, Value, Both;
    var h2, i2 := Value(x.x2) + 256 * Value(x.x3), Value(y.x2) + 256 * Value(y.x3);
    XorLow(x.x0, Value(x.x1) + 256 * h2, y.x0, Value(y.x1) + 256 * i2);
    XorLow(x.x1, h2, y.x1, i2);
    XorLow(x.x2, Value(x.x3), y.x2, Value(y.x3));
    XorByte(x.x3, y.x3);
  }

  /** A line of mix with given bytes. */
  lemma KnownLine(x: uint32, y: uint32, z: uint32, d: Bytes, w: Bytes, v: uint32)
    requires (x - y - z) % TWO32 == d.Word() && d.Xored(w).Word() == v && w.Word() < TWO32
    ensures Line(x, y, z, w.Word()) == v
  {
    hide Xor, Value, Both;
    XorWord(d, w);
    Differences(x, y, z);
  }

  lemma Differences(x: uint32, y: uint32, z: uint32)
    ensures Sub32(Sub32(x, y), z) == (x - y - z) % TWO32
  {
  }

  /** A word shifted to the right, of which the part r is lost. */
  lemma RightBy(x: uint32, s: nat, p: nat, w: uint32, r: nat)
    requires p == Pow2(s) && x == w * p + r && r < p
    ensures Shr32(x, s) == w
  {
    ShrIsDivision(x, s);
    DivisionUnique(x, p, w, r);
  }

  /** A word shifted to the left, of which the part q is lost. */
  lemma LeftBy(x: uint32, s: nat, p: nat, w: uint32, q: nat)
    requires p == Pow2(s) && x * p == q * TWO32 + w
    ensures Shl32(x, s) == w
  {
    DivisionUnique(x * p, TWO32, q, w);
  }

  lemma Powers()
    ensures Pow2(3) == 0x8 && Pow2(5) == 0x20 && Pow2(8) == 0x100 && Pow2(10) == 0x400 && Pow2(12) == 0x1000
    ensures Pow2(13) == 0x2000 && Pow2(15) == 0x8000 && Pow2(16) == 0x1_0000
  {
    assert Pow2(3) == 8 && Pow2(5) == 32;
    Pow2Adds(3, 5);
    Pow2Adds(5, 5);
    Pow2Adds(10, 5);
    Pow2Adds(8, 5);
    Pow2Adds(8, 8);
    assert Pow2(13) == 2 * Pow2(12);
  }

  lemma FirstRound()
    ensures Line(0x9E37_7A1A, 0x9E37_79B9, 0x2, Shr32(0x2, 13)) == 0x5F
    ensures Line(0x9E37_79B9, 0x2, 0x5F, Shl32(0x5F, 8)) == 0x9E37_2658
    ensures Line(0x2, 0x5F, 0x9E37_2658, Shr32(0x9E37_2658, 13)) == 0x61CC_28F2
  {
    hide Line, Shr32, Shl32, Pow2;
    Powers();
    RightBy(0x2, 13, 0x2000, 0x0, 0x2);
    KnownLine(0x9E37_7A1A, 0x9E37_79B9, 0x2, Bytes(0x5F, 0x0, 0x0, 0x0), Bytes(0x0, 0x0, 0x0, 0x0),
              0x5F);
    LeftBy(0x5F, 8, 0x100, 0x5F00, 0x0);
    KnownLine(0x9E37_79B9, 0x2, 0x5F, Bytes(0x58, 0x79, 0x37, 0x9E), Bytes(0x0, 0x5F, 0x0, 0x0),
              0x9E37_2658);
    RightBy(0x9E37_2658, 13, 0x2000, 0x4_F1B9, 0x658);
    KnownLine(0x2, 0x5F, 0x9E37_2658, Bytes(0x4B, 0xD9, 0xC8, 0x61), Bytes(0xB9, 0xF1, 0x4, 0x0),
              0x61CC_28F2);
  }

  lemma SecondRound()
    ensures Line(0x5F, 0x9E37_2658, 0x61CC_28F2, Shr32(0x61CC_28F2, 12)) == 0xFFFA_ADD7
    ensures Line(0x9E37_2658, 0x61CC_28F2, 0xFFFA_ADD7, Shl32(0xFFFA_ADD7, 16)) == 0x91A7_4F8F
    ensures Line(0x61CC_28F2, 0xFFFA_ADD7, 0x91A7_4F8F, Shr32(0x91A7_4F8F, 5)) == 0xD4A7_11F0
  {
    hide Line, Shr32, Shl32, Pow2;
    Powers();
    RightBy(0x61CC_28F2, 12, 0x1000, 0x6_1CC2, 0x8F2);
    KnownLine(0x5F, 0x9E37_2658, 0x61CC_28F2, Bytes(0x15, 0xB1, 0xFC, 0xFF), Bytes(0xC2, 0x1C, 0x6, 0x0),
              0xFFFA_ADD7);
    LeftBy(0xFFFA_ADD7, 16, 0x1_0000, 0xADD7_0000, 0xFFFA);
    KnownLine(0x9E37_2658, 0x61CC_28F2, 0xFFFA_ADD7, Bytes(0x8F, 0x4F, 0x70, 0x3C), Bytes(0x0, 0x0, 0xD7, 0xAD),
              0x91A7_4F8F);
    RightBy(0x91A7_4F8F, 5, 0x20, 0x48D_3A7C, 0xF);
    KnownLine(0x61CC_28F2, 0xFFFA_ADD7, 0x91A7_4F8F, Bytes(0x8C, 0x2B, 0x2A, 0xD0), Bytes(0x7C, 0x3A, 0x8D, 0x4),
              0xD4A7_11F0);
  }

  lemma ThirdRound()
    ensures Line(0xFFFA_ADD7, 0x91A7_4F8F, 0xD4A7_11F0, Shr32(0xD4A7_11F0, 3)) == 0x8338_AE66
    ensures Line(0x91A7_4F8F, 0xD4A7_11F0, 0x8338_AE66, Shl32(0x8338_AE66, 10)) == 0xDB7E_1739
    ensures Line(0xD4A7_11F0, 0x8338_AE66, 0xDB7E_1739, Shr32(0xDB7E_1739, 15)) == 0x75F1_FAAD
  {
    hide Line, Shr32, Shl32, Pow2;
    Powers();
    RightBy(0xD4A7_11F0, 3, 0x8, 0x1A94_E23E, 0x0);
    KnownLine(0xFFFA_ADD7, 0x91A7_4F8F, 0xD4A7_11F0, Bytes(0x58, 0x4C, 0xAC, 0x99), Bytes(0x3E, 0xE2, 0x94, 0x1A),
              0x8338_AE66);
    LeftBy(0x8338_AE66, 10, 0x400, 0xE2B9_9800, 0x20C);
    KnownLine(0x91A7_4F8F, 0xD4A7_11F0, 0x8338_AE66, Bytes(0x39, 0x8F, 0xC7, 0x39), Bytes(0x0, 0x98, 0xB9, 0xE2),
              0xDB7E_1739);
    RightBy(0xDB7E_1739, 15, 0x8000, 0x1_B6FC, 0x1739);
    KnownLine(0xD4A7_11F0, 0x8338_AE66, 0xDB7E_1739, Bytes(0x51, 0x4C, 0xF0, 0x75), Bytes(0xFC, 0xB6, 0x1, 0x0),
              0x75F1_FAAD);
  }

  /** The words of the key "a" under the seed 1, mixed. */
  lemma MixOfA()
    ensures Mix(State(0x9E37_7A1A, 0x9E37_79B9, 2)) == State(0x8338_AE66, 0xDB7E_1739, 0x75F1_FAAD)
  {
    hide Line, Shr32, Shl32;
    FirstRound();
    SecondRound();
    ThirdRound();
  }

  /** The vector of the key "a" under the seed 1. */
  lemma VectorOfA()
    ensures VectorHash(1, [97]) == State(0x8338_AE66, 0xDB7E_1739, 0x75F1_FAAD)
  {
    MixOfA();
    hide Mix, Sum4;
    SumIsLinear(97, 0, 0, 0);
    SumIsLinear(0, 0, 0, 0);
    var s := State(GOLDEN_RATIO, GOLDEN_RATIO, 1);
    assert Tail([97]) == State(97, 0, 0);
    assert Plus(Plus(s, State(0, 0, 1)), Tail([97])) == State(0x9E37_7A1A, 0x9E37_79B9, 2);
  }
}
