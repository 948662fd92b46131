/** jenkins_hash.c: which keys get the same vector, and what the chars are worth. */
module JenkinsKeys {
  import opened Arithmetic
  import opened Words
  import opened Primes
  import opened Jenkins

  // ---- the length -------------------------------------------------------------------------------------

  /** The last chars leave the lowest byte of c to the length. */
  lemma TailLowest(k: seq<uint8>)
    requires |k| < 12
    ensures Tail(k).c % 256 == 0
  {
    hide Extend, Sum4;
    var x: nat, y: nat, z: nat := Extend(CharAt(k, 8)), Extend(CharAt(k, 9)), Extend(CharAt(k, 10));
    SumIsLinear(0, x, y, z);
    var u := 0x100 * x + 0x1_0000 * y + 0x100_0000 * z;
    Divides(u, TWO32);
    AddMultiple(0, u % TWO32, x + 0x100 * y + 0x1_0000 * z - u / TWO32 * 0x100_0000, 256);
  }

  lemma LowestByte(s: uint32, n: uint32, t: uint32)
    requires t % 256 == 0
    ensures Add32(Add32(s, n), t) % 256 == (s + n) % 256
  {
    var sum: nat, u: nat := s as nat + n, Add32(s, n);
    var v: nat := u + t;
    Divides(sum, TWO32);
    Divides(v, TWO32);
    Divides(t, 256);
    AddMultiple(u, sum, sum / TWO32 * 0x100_0000, 256);
    AddMultiple(v % TWO32, u, v / TWO32 * 0x100_0000 - t / 256, 256);
  }

  lemma CloseNumbers(x: nat, m: nat, n: nat)
    requires 0 != m - n && -12 < m - n < 12
    ensures (x + m) % 256 != (x + n) % 256
  {
    if (x + m) % 256 == (x + n) % 256 {
      var k := SameModulo(x + m, x + n, 256);
    }
  }

  /** From the same state, last chars of different number lead to different states. */
  lemma LastDiffer(s: State, k: seq<uint8>, l: seq<uint8>, m: uint32, n: uint32)
    requires |k| < 12 && |l| < 12 && m - n == |k| - |l| != 0
    ensures Chain(s, k, m) != Chain(s, l, n)
  {
    hide Mix, Tail, Add32;
    TailLowest(k);
    TailLowest(l);
    LowestByte(s.c, m, Tail(k).c);
    LowestByte(s.c, n, Tail(l).c);
    CloseNumbers(s.c, m, n);
    MixInjective(Plus(Plus(s, State(0, 0, m)), Tail(k)), Plus(Plus(s, State(0, 0, n)), Tail(l)));
  }

  /** Keys of different lengths with the same whole blocks get different vectors, whatever their last chars are. */
  lemma LengthsDiffer(seed: uint32, p: seq<uint8>, k: seq<uint8>, l: seq<uint8>)
    requires |p| % 12 == 0 && |k| < 12 && |l| < 12 && |k| != |l| && |p| + 12 <= TWO32
    ensures VectorHash(seed, p + k) != VectorHash(seed, p + l)
  {
    hide Chain, Through;
    var s0 := State(GOLDEN_RATIO, GOLDEN_RATIO, seed);
    SamePrefix(s0, p, k, |p + k|);
    SamePrefix(s0, p, l, |p + l|);
    LastDiffer(Through(s0, p), k, l, |p + k|, |p + l|);
  }

  /** A key and a longer one that goes on from it without completing a block. */
  lemma PrefixDiffers(seed: uint32, key: seq<uint8>, more: seq<uint8>)
    requires more != [] && |key| % 12 + |more| < 12 && |key| + 12 <= TWO32
    ensures VectorHash(seed, key) != VectorHash(seed, key + more)
  {
    var n := |key| - |key| % 12;
    var p, k := key[..n], key[n..];
    assert key == p + k && key + more == p + (k + more);
    LengthsDiffer(seed, p, k, k + more);
  }

  // ---- across blocks ------------------------------------------------------------------------------------------

  /** The number that four signed chars stand for. */
  ghost function Signed(k: uint8): int {
    if k < 128 then k else k - 256
  }

  /** What four chars add to a word: a little-endian number with signed digits, modulo 2^32. */
  lemma WordIsSigned(k0: uint8, k1: uint8, k2: uint8, k3: uint8)
    ensures Word(k0, k1, k2, k3) ==
      (Signed(k0) + 0x100 * Signed(k1) + 0x1_0000 * Signed(k2) + 0x100_0000 * Signed(k3)) % TWO32
  {
    hide Sum4;
    SumIsLinear(Extend(k0), Extend(k1), Extend(k2), Extend(k3));
    SignedSum(Extend(k0), k0, k1, k2, k3);
  }

  /** The lowest of the last chars is taken without its sign. */
  lemma TailIsSigned(k: seq<uint8>)
    requires |k| < 12
    ensures Tail(k).a == (CharAt(k, 0) + 0x100 * Signed(CharAt(k, 1)) + 0x1_0000 * Signed(CharAt(k, 2))
      + 0x100_0000 * Signed(CharAt(k, 3))) % TWO32
    ensures Tail(k).b == (CharAt(k, 4) + 0x100 * Signed(CharAt(k, 5)) + 0x1_0000 * Signed(CharAt(k, 6))
      + 0x100_0000 * Signed(CharAt(k, 7))) % TWO32
    ensures Tail(k).c == (0x100 * Signed(CharAt(k, 8)) + 0x1_0000 * Signed(CharAt(k, 9))
      + 0x100_0000 * Signed(CharAt(k, 10))) % TWO32
  {
    hide Sum4, CharAt, Extend, Signed;
    LowestUnsigned(CharAt(k, 0), CharAt(k, 1), CharAt(k, 2), CharAt(k, 3));
    LowestUnsigned(CharAt(k, 4), CharAt(k, 5), CharAt(k, 6), CharAt(k, 7));
    LowestUnsigned(0, CharAt(k, 8), CharAt(k, 9), CharAt(k, 10));
  }

  lemma LowestUnsigned(k0: uint8, k1: uint8, k2: uint8, k3: uint8)
    ensures Sum4(k0, Extend(k1), Extend(k2), Extend(k3)) ==
      (k0 + 0x100 * Signed(k1) + 0x1_0000 * Signed(k2) + 0x100_0000 * Signed(k3)) % TWO32
  {
    hide Sum4;
    SumIsLinear(k0, Extend(k1), Extend(k2), Extend(k3));
    SignedSum(k0, k0, k1, k2, k3);
  }

  lemma SignedSum(x0: uint32, k0: uint8, k1: uint8, k2: uint8, k3: uint8)
    requires x0 == k0 || x0 == Extend(k0)
    ensures (x0 + 0x100 * Extend(k1) + 0x1_0000 * Extend(k2) + 0x100_0000 * Extend(k3)) % TWO32 ==
      ((if x0 == k0 then k0 else Signed(k0)) + 0x100 * Signed(k1) + 0x1_0000 * Signed(k2)
        + 0x100_0000 * Signed(k3)) % TWO32
  {
    var i, i1, i2, i3 := if x0 == k0 then 0 else 1, Sign(k1), Sign(k2), Sign(k3);
    Shift((if x0 == k0 then k0 else Signed(k0)) + 0x100 * Signed(k1) + 0x1_0000 * Signed(k2) + 0x100_0000 * Signed(k3),
          i + 0x100 * i1 + 0x1_0000 * i2 + 0x100_0000 * i3, TWO32);
  }

  ghost function Sign(k: uint8): (i: nat)
    ensures Extend(k) == Signed(k) + i * TWO32
  {
    if k < 128 then 0 else 1
  }

  /** Four chars that add a given word. */
  lemma WordOf(w: uint32) returns (k: seq<uint8>)
    ensures |k| == 4 && Word(k[0], k[1], k[2], k[3]) == w
  {
    hide Signed, Sum4, Extend;
    var k0, u1 := Digit(w);
    var k1, u2 := Digit(u1);
    var k2, u3 := Digit(u2);
    var k3, u4 := Digit(u3);
    k := [k0, k1, k2, k3];
    WordIsSigned(k0, k1, k2, k3);
    Shift(w, -u4, TWO32);
    SmallResidue(w, TWO32);
  }

  /** The lowest signed digit of a number, and what is above it. */
  lemma Digit(x: int) returns (k: uint8, u: int)
    ensures x == Signed(k) + 256 * u
  {
    k := x % 256;
    u := x / 256 + if k < 128 then 0 else 1;
  }

  lemma BlockOf(s: State) returns (k: seq<uint8>)
    ensures |k| == 12 && Block(k) == s
  {
    hide Word;
    var x := WordOf(s.a);
    var y := WordOf(s.b);
    var z := WordOf(s.c);
    k := x + y + z;
  }

  ghost function Minus(s: State, x: State): State {
    State(Sub32(s.a, x.a), Sub32(s.b, x.b), Sub32(s.c, x.c))
  }

  lemma MinusPlus(s: State, x: State)
    ensures Plus(Minus(s, x), x) == s && Plus(x, Minus(s, x)) == s
  {
    hide Add32, Sub32;
    BackAgain(s.a, x.a);
    BackAgain(s.b, x.b);
    BackAgain(s.c, x.c);
  }

  lemma BackAgain(s: uint32, x: uint32)
    ensures Add32(Sub32(s, x), x) == s && Add32(x, Sub32(s, x)) == s
  {
  }

  /** Some block leads from any state to any other. */
  lemma BlockLeads(s: State, t: State) returns (k: seq<uint8>)
    ensures |k| == 12 && Mix(Plus(s, Block(k))) == t
  {
    hide Mix, Unmix, Block, Plus;
    MixIsBijection(t);
    MinusPlus(Unmix(t), s);
    k := BlockOf(Minus(Unmix(t), s));
  }

  lemma LastLead(v: State, k: seq<uint8>, n: uint32) returns (s: State)
    requires |k| < 12
    ensures Chain(s, k, n) == v
  {
    hide Mix, Unmix, Tail, Plus;
    MixIsBijection(v);
    var x := Minus(Unmix(v), Tail(k));
    MinusPlus(Unmix(v), Tail(k));
    MinusPlus(x, State(0, 0, n));
    s := Minus(x, State(0, 0, n));
  }

  /**
   Across blocks the length keeps nothing apart: under every seed every vector is the one of some key that begins
   with any given chars, for every length with room for one more whole block behind them.
   */
  lemma EveryVector(seed: uint32, start: seq<uint8>, n: uint32, v: State) returns (key: seq<uint8>)
    requires (|start| + 11) / 12 + 1 <= n / 12
    ensures |key| == n && start <= key && VectorHash(seed, key) == v
  {
    hide Mix, Plus, Block, Tail, Through;
    var m := n / 12 * 12 - 12;
    var p := start + seq(m - |start|, i => 0);
    var last: seq<uint8> := seq(n % 12, i => 0);
    var s := Through(State(GOLDEN_RATIO, GOLDEN_RATIO, seed), p);
    var t := LastLead(v, last, n);
    var k := BlockLeads(s, t);
    key := p + (k + last);
    SamePrefix(State(GOLDEN_RATIO, GOLDEN_RATIO, seed), p, k + last, n);
    assert (k + last)[..12] == k && (k + last)[12..] == last;
  }

  /** So every key has a longer one that goes on from it and gets the same vector. */
  lemma PrefixCollides(seed: uint32, key: seq<uint8>, n: uint32) returns (longer: seq<uint8>)
    requires (|key| + 11) / 12 + 1 <= n / 12
    ensures |longer| == n && key <= longer && longer != key && VectorHash(seed, longer) == VectorHash(seed, key)
  {
    hide VectorHash;
    longer := EveryVector(seed, key, n, VectorHash(seed, key));
  }
}
