/** jenkins_hash.c: the vector hash is a chain of bijections of its three words. */
module Jenkins {
  import opened Arithmetic
  import opened Words
  import opened Bits

  /** The three words of hashes. */
  datatype State = State(a: uint32, b: uint32, c: uint32)

  // ---- mix ---------------------------------------------------------------------------------------------

  /** One line of mix: x -= y; x -= z; x ^= w, where w is z shifted. */
  function Line(x: uint32, y: uint32, z: uint32, w: uint32): uint32 {
    Xor32(Sub32(Sub32(x, y), z), w)
  }

  function Unline(x: uint32, y: uint32, z: uint32, w: uint32): uint32 {
    Add32(Add32(Xor32(x, w), z), y)
  }

  lemma LineBack(x: uint32, y: uint32, z: uint32, w: uint32)
    ensures Unline(Line(x, y, z, w), y, z, w) == x && Line(Unline(x, y, z, w), y, z, w) == x
  {
    hide Xor;
    var d := Sub32(Sub32(x, y), z);
    XorTwice(d, w);
    SubAddBack(Sub32(x, y), z);
    SubAddBack(x, y);
    var u := Xor32(x, w);
    XorTwice(x, w);
    AddSubBack(Add32(u, z), y);
    AddSubBack(u, z);
  }

  lemma SubAddBack(x: uint32, y: uint32)
    ensures Add32(Sub32(x, y), y) == x
  {
  }

  lemma AddSubBack(x: uint32, y: uint32)
    ensures Sub32(Add32(x, y), y) == x
  {
  }

  /** mix */
  function Mix(s: State): State {
    var a1 := Line(s.a, s.b, s.c, Shr32(s.c, 13));
    var b1 := Line(s.b, s.c, a1, Shl32(a1, 8));
    var c1 := Line(s.c, a1, b1, Shr32(b1, 13));
    var a2 := Line(a1, b1, c1, Shr32(c1, 12));
    var b2 := Line(b1, c1, a2, Shl32(a2, 16));
    var c2 := Line(c1, a2, b2, Shr32(b2, 5));
    var a3 := Line(a2, b2, c2, Shr32(c2, 3));
    var b3 := Line(b2, c2, a3, Shl32(a3, 10));
    var c3 := Line(c2, a3, b3, Shr32(b3, 15));
    State(a3, b3, c3)
  }

  /** The lines of mix undone, last first. */
  function Unmix(s: State): State {
    var c2 := Unline(s.c, s.a, s.b, Shr32(s.b, 15));
    var b2 := Unline(s.b, c2, s.a, Shl32(s.a, 10));
    var a2 := Unline(s.a, b2, c2, Shr32(c2, 3));
    var c1 := Unline(c2, a2, b2, Shr32(b2, 5));
    var b1 := Unline(b2, c1, a2, Shl32(a2, 16));
    var a1 := Unline(a2, b1, c1, Shr32(c1, 12));
    var c := Unline(c1, a1, b1, Shr32(b1, 13));
    var b := Unline(b1, c, a1, Shl32(a1, 8));
    var a := Unline(a1, b, c, Shr32(c, 13));
    State(a, b, c)
  }

  /** mix is a bijection of the states. */
  lemma MixIsBijection(s: State)
    ensures Unmix(Mix(s)) == s && Mix(Unmix(s)) == s
  {
    hide Line, Unline, Shr32, Shl32;
    UnmixMix(s);
    MixUnmix(s);
  }

  lemma UnmixMix(s: State)
    ensures Unmix(Mix(s)) == s
  {
    hide Line, Unline, Shr32, Shl32;
    var a1 := Line(s.a, s.b, s.c, Shr32(s.c, 13));
    var b1 := Line(s.b, s.c, a1, Shl32(a1, 8));
    var c1 := Line(s.c, a1, b1, Shr32(b1, 13));
    var a2 := Line(a1, b1, c1, Shr32(c1, 12));
    var b2 := Line(b1, c1, a2, Shl32(a2, 16));
    var c2 := Line(c1, a2, b2, Shr32(b2, 5));
    var a3 := Line(a2, b2, c2, Shr32(c2, 3));
    var b3 := Line(b2, c2, a3, Shl32(a3, 10));
    LineBack(s.a, s.b, s.c, Shr32(s.c, 13));
    LineBack(s.b, s.c, a1, Shl32(a1, 8));
    LineBack(s.c, a1, b1, Shr32(b1, 13));
    LineBack(a1, b1, c1, Shr32(c1, 12));
    LineBack(b1, c1, a2, Shl32(a2, 16));
    LineBack(c1, a2, b2, Shr32(b2, 5));
    LineBack(a2, b2, c2, Shr32(c2, 3));
    LineBack(b2, c2, a3, Shl32(a3, 10));
    LineBack(c2, a3, b3, Shr32(b3, 15));
  }

  lemma MixUnmix(s: State)
    ensures Mix(Unmix(s)) == s
  {
    hide Line, Unline, Shr32, Shl32;
    var c2 := Unline(s.c, s.a, s.b, Shr32(s.b, 15));
    var b2 := Unline(s.b, c2, s.a, Shl32(s.a, 10));
    var a2 := Unline(s.a, b2, c2, Shr32(c2, 3));
    var c1 := Unline(c2, a2, b2, Shr32(b2, 5));
    var b1 := Unline(b2, c1, a2, Shl32(a2, 16));
    var a1 := Unline(a2, b1, c1, Shr32(c1, 12));
    var c := Unline(c1, a1, b1, Shr32(b1, 13));
    var b := Unline(b1, c, a1, Shl32(a1, 8));
    LineBack(s.c, s.a, s.b, Shr32(s.b, 15));
    LineBack(s.b, c2, s.a, Shl32(s.a, 10));
    LineBack(s.a, b2, c2, Shr32(c2, 3));
    LineBack(c2, a2, b2, Shr32(b2, 5));
    LineBack(b2, c1, a2, Shl32(a2, 16));
    LineBack(a2, b1, c1, Shr32(c1, 12));
    LineBack(c1, a1, b1, Shr32(b1, 13));
    LineBack(b1, c, a1, Shl32(a1, 8));
    LineBack(a1, b, c, Shr32(c, 13));
  }

  // ---- blocks ------------------------------------------------------------------------------------------

  /** A key is read as signed chars, so that the casts to cmph_uint32 extend the sign. */
  function Extend(k: uint8): uint32 {
    if k < 128 then k else k + (TWO32 - 256)
  }

  function Sum4(x0: uint32, x1: uint32, x2: uint32, x3: uint32): uint32 {
    Add32(Add32(Add32(x0, Shl32(x1, 8)), Shl32(x2, 16)), Shl32(x3, 24))
  }

  /** Four chars of a block, summed at their places. */
  function Word(k0: uint8, k1: uint8, k2: uint8, k3: uint8): uint32 {
    Sum4(Extend(k0), Extend(k1), Extend(k2), Extend(k3))
  }

  lemma AddStep(a: nat, b: nat)
    ensures Add32(a % TWO32, b % TWO32) == (a + b) % TWO32
  {
    Divides(a, TWO32);
    Divides(b, TWO32);
    AddMultiple(a % TWO32 + b % TWO32, a + b, a / TWO32 + b / TWO32, TWO32);
  }

  lemma ShiftAmounts(x: uint32)
    ensures Shl32(x, 8) == (0x100 * x) % TWO32
    ensures Shl32(x, 16) == (0x1_0000 * x) % TWO32
    ensures Shl32(x, 24) == (0x100_0000 * x) % TWO32
  {
    assert Pow2(4) == 16 && Pow2(8) == 256;
    Pow2Adds(8, 8);
    Pow2Adds(16, 8);
  }

  lemma SumIsLinear(x0: uint32, x1: uint32, x2: uint32, x3: uint32)
    ensures Sum4(x0, x1, x2, x3) == (x0 + 0x100 * x1 + 0x1_0000 * x2 + 0x100_0000 * x3) % TWO32
  {
    hide Add32, Shl32;
    ShiftAmounts(x1);
    ShiftAmounts(x2);
    ShiftAmounts(x3);
    assert x0 % TWO32 == x0;
    AddStep(x0, 0x100 * x1);
    AddStep(x0 + 0x100 * x1, 0x1_0000 * x2);
    AddStep(x0 + 0x100 * x1 + 0x1_0000 * x2, 0x100_0000 * x3);
  }

  /** Despite the sign extension the sum determines the four chars; the lowest may be taken without it. */
  lemma SumInjective(k0: uint8, x0: uint32, k: seq<uint8>, l0: uint8, y0: uint32, l: seq<uint8>)
    requires |k| == |l| == 3 && x0 % 256 == k0 && y0 % 256 == l0
    requires (k0 == l0 ==> x0 == y0)
    requires Sum4(x0, Extend(k[0]), Extend(k[1]), Extend(k[2])) == Sum4(y0, Extend(l[0]), Extend(l[1]), Extend(l[2]))
    ensures k0 == l0 && k == l
  {
    hide Extend, Sum4;
    SumIsLinear(x0, Extend(k[0]), Extend(k[1]), Extend(k[2]));
    SumIsLinear(y0, Extend(l[0]), Extend(l[1]), Extend(l[2]));
    LowestDigit(x0, y0, Extend(k[0]) + 0x100 * Extend(k[1]) + 0x1_0000 * Extend(k[2]),
                Extend(l[0]) + 0x100 * Extend(l[1]) + 0x1_0000 * Extend(l[2]), 0x100_0000);
    ExtendLow(k[0], l[0]);
    LowestDigit(Extend(k[0]), Extend(l[0]), Extend(k[1]) + 0x100 * Extend(k[2]), Extend(l[1]) + 0x100 * Extend(l[2]),
                0x1_0000);
    ExtendLow(k[1], l[1]);
    LowestDigit(Extend(k[1]), Extend(l[1]), Extend(k[2]), Extend(l[2]), 0x100);
    ExtendLow(k[2], l[2]);
  }

  lemma ExtendLow(k: uint8, l: uint8)
    ensures Extend(k) % 256 == k && Extend(l) % 256 == l
  {
  }

  /** Two sums that agree modulo 256 * p agree in their lowest bytes, and what is above agrees modulo p. */
  lemma LowestDigit(x: nat, y: nat, u: nat, v: nat, p: nat)
    requires p == 0x100 || p == 0x1_0000 || p == 0x100_0000
    requires (x + 256 * u) % (256 * p) == (y + 256 * v) % (256 * p)
    ensures x % 256 == y % 256
    ensures x == y ==> u % p == v % p
  {
    var k := SameModulo(x + 256 * u, y + 256 * v, 256 * p);
    Regroup(k, p);
    var d := k * p;
    AddMultiple(y, x, d + v - u, 256);
    if x == y {
      AddMultiple(v, u, k, p);
    }
  }

  lemma Regroup(k: int, p: nat)
    ensures k * (256 * p) == 256 * (k * p)
  {
  }

  // ---- states ------------------------------------------------------------------------------------------

  function Plus(s: State, x: State): State {
    State(Add32(s.a, x.a), Add32(s.b, x.b), Add32(s.c, x.c))
  }

  lemma PlusInjective(s: State, t: State, x: State, y: State)
    ensures Plus(s, x) == Plus(t, x) ==> s == t
    ensures Plus(s, x) == Plus(s, y) ==> x == y
  {
    hide Add32;
    AddInjective(s.a, t.a, x.a, y.a);
    AddInjective(s.b, t.b, x.b, y.b);
    AddInjective(s.c, t.c, x.c, y.c);
  }

  lemma AddInjective(s: uint32, t: uint32, x: uint32, y: uint32)
    ensures Add32(s, x) == Add32(t, x) ==> s == t
    ensures Add32(s, x) == Add32(s, y) ==> x == y
  {
  }

  /** The twelve chars of a block as three words. */
  function Block(k: seq<uint8>): State
    requires |k| == 12
  {
    State(Word(k[0], k[1], k[2], k[3]), Word(k[4], k[5], k[6], k[7]), Word(k[8], k[9], k[10], k[11]))
  }

  /** Char i of the last len chars, or nothing when there are fewer. */
  function CharAt(k: seq<uint8>, i: nat): uint8 {
    if i < |k| then k[i] else 0
  }

  /** What the switch adds for the last chars: 0 and 4 without sign extension, none in the lowest byte of c. */
  function Tail(k: seq<uint8>): State
    requires |k| < 12
  {
    State(
      Sum4(CharAt(k, 0), Extend(CharAt(k, 1)), Extend(CharAt(k, 2)), Extend(CharAt(k, 3))),
      Sum4(CharAt(k, 4), Extend(CharAt(k, 5)), Extend(CharAt(k, 6)), Extend(CharAt(k, 7))),
      Sum4(0, Extend(CharAt(k, 8)), Extend(CharAt(k, 9)), Extend(CharAt(k, 10))))
  }

  lemma BlockInjective(k: seq<uint8>, l: seq<uint8>)
    requires |k| == |l| == 12 && Block(k) == Block(l)
    ensures k == l
  {
    hide Sum4, Extend;
    WordInjective(k[0], k[1..4], l[0], l[1..4]);
    WordInjective(k[4], k[5..8], l[4], l[5..8]);
    WordInjective(k[8], k[9..12], l[8], l[9..12]);
    assert k == [k[0]] + k[1..4] + [k[4]] + k[5..8] + [k[8]] + k[9..12];
    assert l == [l[0]] + l[1..4] + [l[4]] + l[5..8] + [l[8]] + l[9..12];
  }

  lemma WordInjective(k0: uint8, k: seq<uint8>, l0: uint8, l: seq<uint8>)
    requires |k| == |l| == 3 && Word(k0, k[0], k[1], k[2]) == Word(l0, l[0], l[1], l[2])
    ensures k0 == l0 && k == l
  {
    hide Sum4;
    ExtendLow(k0, l0);
    SumInjective(k0, Extend(k0), k, l0, Extend(l0), l);
  }

  lemma TailInjective(k: seq<uint8>, l: seq<uint8>)
    requires |k| == |l| < 12 && Tail(k) == Tail(l)
    ensures k == l
  {
    hide Sum4, Extend;
    SumInjective(CharAt(k, 0), CharAt(k, 0), [CharAt(k, 1), CharAt(k, 2), CharAt(k, 3)],
                 CharAt(l, 0), CharAt(l, 0), [CharAt(l, 1), CharAt(l, 2), CharAt(l, 3)]);
    SumInjective(CharAt(k, 4), CharAt(k, 4), [CharAt(k, 5), CharAt(k, 6), CharAt(k, 7)],
                 CharAt(l, 4), CharAt(l, 4), [CharAt(l, 5), CharAt(l, 6), CharAt(l, 7)]);
    SumInjective(0, 0, [CharAt(k, 8), CharAt(k, 9), CharAt(k, 10)], 0, 0, [CharAt(l, 8), CharAt(l, 9), CharAt(l, 10)]);
    Chars(k, l);
  }

  lemma Chars(k: seq<uint8>, l: seq<uint8>)
    requires |k| == |l| < 12
    requires [CharAt(k, 1), CharAt(k, 2), CharAt(k, 3)] == [CharAt(l, 1), CharAt(l, 2), CharAt(l, 3)]
    requires [CharAt(k, 5), CharAt(k, 6), CharAt(k, 7)] == [CharAt(l, 5), CharAt(l, 6), CharAt(l, 7)]
    requires [CharAt(k, 8), CharAt(k, 9), CharAt(k, 10)] == [CharAt(l, 8), CharAt(l, 9), CharAt(l, 10)]
    requires CharAt(k, 0) == CharAt(l, 0) && CharAt(k, 4) == CharAt(l, 4)
    ensures k == l
  {
    assert [CharAt(k, 1), CharAt(k, 2), CharAt(k, 3)][0] == CharAt(l, 1);
    assert [CharAt(k, 1), CharAt(k, 2), CharAt(k, 3)][1] == CharAt(l, 2);
    assert [CharAt(k, 1), CharAt(k, 2), CharAt(k, 3)][2] == CharAt(l, 3);
    assert [CharAt(k, 5), CharAt(k, 6), CharAt(k, 7)][0] == CharAt(l, 5);
    assert [CharAt(k, 5), CharAt(k, 6), CharAt(k, 7)][1] == CharAt(l, 6);
    assert [CharAt(k, 5), CharAt(k, 6), CharAt(k, 7)][2] == CharAt(l, 7);
    assert [CharAt(k, 8), CharAt(k, 9), CharAt(k, 10)][0] == CharAt(l, 8);
    assert [CharAt(k, 8), CharAt(k, 9), CharAt(k, 10)][1] == CharAt(l, 9);
    assert [CharAt(k, 8), CharAt(k, 9), CharAt(k, 10)][2] == CharAt(l, 10);
    forall i: nat | i < |k|
      ensures k[i] == l[i]
    {
      assert CharAt(k, i) == CharAt(l, i);
    }
  }

  // ---- the vector hash ----------------------------------------------------------------------------------

  /** The state after the chars of k, the last of fewer than 12 together with the length of the whole key. */
  ghost function Chain(s: State, k: seq<uint8>, length: uint32): State
    decreases |k|
  {
    hide Mix, Plus, Block, Tail;
    if |k| >= 12 then Chain(Mix(Plus(s, Block(k[..12]))), k[12..], length)
    else Mix(Plus(Plus(s, State(0, 0, length)), Tail(k)))
  }

  const GOLDEN_RATIO: uint32 := 0x9e37_79b9

  ghost function VectorHash(seed: uint32, key: seq<uint8>): State
    requires |key| < TWO32
  {
    Chain(State(GOLDEN_RATIO, GOLDEN_RATIO, seed), key, |key|)
  }

  /** __jenkins_hash_vector */
  method HashVector(seed: uint32, k: seq<uint8>) returns (hashes: State)
    requires |k| < TWO32
    ensures hashes == VectorHash(seed, k)
  {
    hide Mix, Plus, Block, Tail;
    hashes := State(GOLDEN_RATIO, GOLDEN_RATIO, seed);
    var rest := k;
    while |rest| >= 12
      invariant Chain(hashes, rest, |k|) == VectorHash(seed, k)
    {
      hashes := Mix(Plus(hashes, Block(rest[..12])));
      rest := rest[12..];
    }
    hashes := Plus(hashes, State(0, 0, |k|));
    hashes := Mix(Plus(hashes, Tail(rest)));
  }

  lemma MixInjective(s: State, t: State)
    ensures Mix(s) == Mix(t) ==> s == t
  {
    hide Mix, Unmix;
    MixIsBijection(s);
    MixIsBijection(t);
  }

  /** Different states stay different, whatever chars follow. */
  lemma {:induction false} ChainInjective(s: State, t: State, k: seq<uint8>, length: uint32)
    requires s != t
    ensures Chain(s, k, length) != Chain(t, k, length)
    decreases |k|
  {
    hide Mix, Plus, Block, Tail;
    if |k| >= 12 {
      var x := Block(k[..12]);
      PlusInjective(s, t, x, x);
      MixInjective(Plus(s, x), Plus(t, x));
      ChainInjective(Mix(Plus(s, x)), Mix(Plus(t, x)), k[12..], length);
    } else {
      var x, y := State(0, 0, length), Tail(k);
      PlusInjective(s, t, x, x);
      PlusInjective(Plus(s, x), Plus(t, x), y, y);
      MixInjective(Plus(Plus(s, x), y), Plus(Plus(t, x), y));
    }
  }

  /** Different seeds give different vectors, for every key. */
  lemma SeedsDiffer(seed1: uint32, seed2: uint32, key: seq<uint8>)
    requires |key| < TWO32 && seed1 != seed2
    ensures VectorHash(seed1, key) != VectorHash(seed2, key)
  {
    ChainInjective(State(GOLDEN_RATIO, GOLDEN_RATIO, seed1), State(GOLDEN_RATIO, GOLDEN_RATIO, seed2), key, |key|);
  }

  /** Chars before the difference lead to the same state. */
  lemma {:induction false} SamePrefix(s: State, p: seq<uint8>, k: seq<uint8>, length: uint32)
    requires |p| % 12 == 0
    ensures Chain(s, p + k, length) == Chain(Through(s, p), k, length)
    decreases |p|
  {
    hide Mix, Plus, Block, Tail;
    if p == [] {
      assert p + k == k;
    } else {
      assert (p + k)[..12] == p[..12] && (p + k)[12..] == p[12..] + k;
      SamePrefix(Mix(Plus(s, Block(p[..12]))), p[12..], k, length);
    }
  }

  lemma WholeBlocks(n: nat)
    requires n % 12 == 0 && n > 0
    ensures n >= 12 && (n - 12) % 12 == 0
  {
  }

  ghost function Through(s: State, p: seq<uint8>): State
    requires |p| % 12 == 0
    decreases |p|
  {
    hide Mix, Plus, Block;
    if p == [] then s else
      WholeBlocks(|p|);
      Through(Mix(Plus(s, Block(p[..12]))), p[12..])
  }

  /** Keys of equal length that differ in one block only, or only in the chars behind the last block. */
  ghost predicate DifferInOneBlock(p: seq<uint8>, k: seq<uint8>, l: seq<uint8>, rest: seq<uint8>) {
    && |p| % 12 == 0 && k != l && |k| == |l| && |p + k + rest| < TWO32
    && (|k| == 12 || (|k| < 12 && rest == []))
  }

  /** A block that differs, or last chars that differ, lead to different states from the same one. */
  lemma TurnDiffers(s: State, k: seq<uint8>, l: seq<uint8>, n: uint32)
    requires k != l && |k| == |l| <= 12
    ensures |k| == 12 ==> Mix(Plus(s, Block(k))) != Mix(Plus(s, Block(l)))
    ensures |k| < 12 ==>
      Mix(Plus(Plus(s, State(0, 0, n)), Tail(k))) != Mix(Plus(Plus(s, State(0, 0, n)), Tail(l)))
  {
    hide Mix, Plus, Block, Tail;
    if |k| == 12 {
      if Block(k) == Block(l) {
        BlockInjective(k, l);
      }
      PlusInjective(s, s, Block(k), Block(l));
      MixInjective(Plus(s, Block(k)), Plus(s, Block(l)));
    } else {
      if Tail(k) == Tail(l) {
        TailInjective(k, l);
      }
      var t := Plus(s, State(0, 0, n));
      PlusInjective(t, t, Tail(k), Tail(l));
      MixInjective(Plus(t, Tail(k)), Plus(t, Tail(l)));
    }
  }

  lemma ChainsDiffer(s: State, k: seq<uint8>, l: seq<uint8>, rest: seq<uint8>, n: uint32)
    requires k != l && |k| == |l| && (|k| == 12 || (|k| < 12 && rest == []))
    ensures Chain(s, k + rest, n) != Chain(s, l + rest, n)
  {
    hide Mix, Plus, Block, Tail;
    TurnDiffers(s, k, l, n);
    if |k| == 12 {
      assert (k + rest)[..12] == k && (k + rest)[12..] == rest;
      assert (l + rest)[..12] == l && (l + rest)[12..] == rest;
      ChainInjective(Mix(Plus(s, Block(k))), Mix(Plus(s, Block(l))), rest, n);
    } else {
      assert k + rest == k && l + rest == l;
    }
  }

  /** Such keys get different vectors under every seed. */
  lemma BlocksDiffer(seed: uint32, p: seq<uint8>, k: seq<uint8>, l: seq<uint8>, rest: seq<uint8>)
    requires DifferInOneBlock(p, k, l, rest)
    ensures VectorHash(seed, p + k + rest) != VectorHash(seed, p + l + rest)
  {
    hide Chain, Through;
    var s0, n := State(GOLDEN_RATIO, GOLDEN_RATIO, seed), |p + k + rest|;
    assert p + k + rest == p + (k + rest) && p + l + rest == p + (l + rest);
    SamePrefix(s0, p, k + rest, n);
    SamePrefix(s0, p, l + rest, n);
    ChainsDiffer(Through(s0, p), k, l, rest, n);
  }
}
