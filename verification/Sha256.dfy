/**
 Streaming SHA-256, proved against FIPS 180-4.

 The first half states the standard: the functions of section 4.1.2, the constants, the padding of section
 5.1.1 and the hash computation of section 6.2.2. The second half is the streaming implementation, whose
 invariant says what it has absorbed and what is pending, and the proof that however a message is cut into
 updates its digest is the standard's digest of the whole. Words are integers below 2^32; bitwise functions
 go through bit vectors of that width.
 */
module Sha256 {
  import opened Basics

  // ----- the standard -----

  type word = x: int | 0 <= x < 0x1_0000_0000

  /** The round constants (section 4.2.2), eight a row. */
  const K: seq<seq<word>> := [
    [0x428a2f98, 0x71374491, 0xb5c0fbcf, 0xe9b5dba5, 0x3956c25b, 0x59f111f1, 0x923f82a4, 0xab1c5ed5],
    [0xd807aa98, 0x12835b01, 0x243185be, 0x550c7dc3, 0x72be5d74, 0x80deb1fe, 0x9bdc06a7, 0xc19bf174],
    [0xe49b69c1, 0xefbe4786, 0x0fc19dc6, 0x240ca1cc, 0x2de92c6f, 0x4a7484aa, 0x5cb0a9dc, 0x76f988da],
    [0x983e5152, 0xa831c66d, 0xb00327c8, 0xbf597fc7, 0xc6e00bf3, 0xd5a79147, 0x06ca6351, 0x14292967],
    [0x27b70a85, 0x2e1b2138, 0x4d2c6dfc, 0x53380d13, 0x650a7354, 0x766a0abb, 0x81c2c92e, 0x92722c85],
    [0xa2bfe8a1, 0xa81a664b, 0xc24b8b70, 0xc76c51a3, 0xd192e819, 0xd6990624, 0xf40e3585, 0x106aa070],
    [0x19a4c116, 0x1e376c08, 0x2748774c, 0x34b0bcb5, 0x391c0cb3, 0x4ed8aa4a, 0x5b9cca4f, 0x682e6ff3],
    [0x748f82ee, 0x78a5636f, 0x84c87814, 0x8cc70208, 0x90befffa, 0xa4506ceb, 0xbef9a3f7, 0xc67178f2]]

  const H0: seq<word> := [
    0x6a09e667, 0xbb67ae85, 0x3c6ef372, 0xa54ff53a, 0x510e527f, 0x9b05688c, 0x1f83d9ab, 0x5be0cd19]

  /** The round constant, read out of the table. */
  function KAt(t: nat): word
    requires t < 64
  {
    K[t / 8][t % 8]
  }

  // ----- the constants and the functions, otherwise -----

  /** `k` is the first 32 bits of the fractional part of the cube root of `p`, whose whole part is `whole`. */
  ghost predicate IsCubeRoot(p: nat, whole: nat, k: word) {
    var n := whole * 0x1_0000_0000 + k;
    n * n * n <= p * 0x1_0000_0000_0000_0000_0000_0000 < (n + 1) * (n + 1) * (n + 1)
  }

  ghost predicate IsSquareRoot(p: nat, whole: nat, k: word) {
    var n := whole * 0x1_0000_0000 + k;
    n * n <= p * 0x1_0000_0000_0000_0000 < (n + 1) * (n + 1)
  }

  /** The first sixty-four primes, and the whole parts of their cube roots. */
  const PRIMES: seq<seq<nat>> := [
    [2, 3, 5, 7, 11, 13, 17, 19],
    [23, 29, 31, 37, 41, 43, 47, 53],
    [59, 61, 67, 71, 73, 79, 83, 89],
    [97, 101, 103, 107, 109, 113, 127, 131],
    [137, 139, 149, 151, 157, 163, 167, 173],
    [179, 181, 191, 193, 197, 199, 211, 223],
    [227, 229, 233, 239, 241, 251, 257, 263],
    [269, 271, 277, 281, 283, 293, 307, 311]]

  const WHOLES: seq<seq<nat>> := [
    [1, 1, 1, 1, 2, 2, 2, 2],
    [2, 3, 3, 3, 3, 3, 3, 3],
    [3, 3, 4, 4, 4, 4, 4, 4],
    [4, 4, 4, 4, 4, 4, 5, 5],
    [5, 5, 5, 5, 5, 5, 5, 5],
    [5, 5, 5, 5, 5, 5, 5, 6],
    [6, 6, 6, 6, 6, 6, 6, 6],
    [6, 6, 6, 6, 6, 6, 6, 6]]

  ghost predicate CubeRoots(primes: seq<nat>, wholes: seq<nat>, row: seq<word>) {
    |primes| == |wholes| == |row| == 8 && forall i :: 0 <= i < 8 ==> IsCubeRoot(primes[i], wholes[i], row[i])
  }

  lemma Row0()
    ensures CubeRoots(PRIMES[0], WHOLES[0], K[0])
  {
    assert IsCubeRoot(2, 1, 0x428a2f98);
    assert IsCubeRoot(3, 1, 0x71374491);
    assert IsCubeRoot(5, 1, 0xb5c0fbcf);
    assert IsCubeRoot(7, 1, 0xe9b5dba5);
    assert IsCubeRoot(11, 2, 0x3956c25b);
    assert IsCubeRoot(13, 2, 0x59f111f1);
    assert IsCubeRoot(17, 2, 0x923f82a4);
    assert IsCubeRoot(19, 2, 0xab1c5ed5);
    hide IsCubeRoot;
  }

  lemma Row1()
    ensures CubeRoots(PRIMES[1], WHOLES[1], K[1])
  {
    assert IsCubeRoot(23, 2, 0xd807aa98);
    assert IsCubeRoot(29, 3, 0x12835b01);
    assert IsCubeRoot(31, 3, 0x243185be);
    assert IsCubeRoot(37, 3, 0x550c7dc3);
    assert IsCubeRoot(41, 3, 0x72be5d74);
    assert IsCubeRoot(43, 3, 0x80deb1fe);
    assert IsCubeRoot(47, 3, 0x9bdc06a7);
    assert IsCubeRoot(53, 3, 0xc19bf174);
    hide IsCubeRoot;
  }

  lemma Row2()
    ensures CubeRoots(PRIMES[2], WHOLES[2], K[2])
  {
    assert IsCubeRoot(59, 3, 0xe49b69c1);
    assert IsCubeRoot(61, 3, 0xefbe4786);
    assert IsCubeRoot(67, 4, 0xfc19dc6);
    assert IsCubeRoot(71, 4, 0x240ca1cc);
    assert IsCubeRoot(73, 4, 0x2de92c6f);
    assert IsCubeRoot(79, 4, 0x4a7484aa);
    assert IsCubeRoot(83, 4, 0x5cb0a9dc);
    assert IsCubeRoot(89, 4, 0x76f988da);
    hide IsCubeRoot;
  }

  lemma Row3()
    ensures CubeRoots(PRIMES[3], WHOLES[3], K[3])
  {
    assert IsCubeRoot(97, 4, 0x983e5152);
    assert IsCubeRoot(101, 4, 0xa831c66d);
    assert IsCubeRoot(103, 4, 0xb00327c8);
    assert IsCubeRoot(107, 4, 0xbf597fc7);
    assert IsCubeRoot(109, 4, 0xc6e00bf3);
    assert IsCubeRoot(113, 4, 0xd5a79147);
    assert IsCubeRoot(127, 5, 0x6ca6351);
    assert IsCubeRoot(131, 5, 0x14292967);
    hide IsCubeRoot;
  }

  lemma Row4()
    ensures CubeRoots(PRIMES[4], WHOLES[4], K[4])
  {
    assert IsCubeRoot(137, 5, 0x27b70a85);
    assert IsCubeRoot(139, 5, 0x2e1b2138);
    assert IsCubeRoot(149, 5, 0x4d2c6dfc);
    assert IsCubeRoot(151, 5, 0x53380d13);
    assert IsCubeRoot(157, 5, 0x650a7354);
    assert IsCubeRoot(163, 5, 0x766a0abb);
    assert IsCubeRoot(167, 5, 0x81c2c92e);
    assert IsCubeRoot(173, 5, 0x92722c85);
    hide IsCubeRoot;
  }

  lemma Row5()
    ensures CubeRoots(PRIMES[5], WHOLES[5], K[5])
  {
    assert IsCubeRoot(179, 5, 0xa2bfe8a1);
    assert IsCubeRoot(181, 5, 0xa81a664b);
    assert IsCubeRoot(191, 5, 0xc24b8b70);
    assert IsCubeRoot(193, 5, 0xc76c51a3);
    assert IsCubeRoot(197, 5, 0xd192e819);
    assert IsCubeRoot(199, 5, 0xd6990624);
    assert IsCubeRoot(211, 5, 0xf40e3585);
    assert IsCubeRoot(223, 6, 0x106aa070);
    hide IsCubeRoot;
  }

  lemma Row6()
    ensures CubeRoots(PRIMES[6], WHOLES[6], K[6])
  {
    assert IsCubeRoot(227, 6, 0x19a4c116);
    assert IsCubeRoot(229, 6, 0x1e376c08);
    assert IsCubeRoot(233, 6, 0x2748774c);
    assert IsCubeRoot(239, 6, 0x34b0bcb5);
    assert IsCubeRoot(241, 6, 0x391c0cb3);
    assert IsCubeRoot(251, 6, 0x4ed8aa4a);
    assert IsCubeRoot(257, 6, 0x5b9cca4f);
    assert IsCubeRoot(263, 6, 0x682e6ff3);
    hide IsCubeRoot;
  }

  lemma Row7()
    ensures CubeRoots(PRIMES[7], WHOLES[7], K[7])
  {
    assert IsCubeRoot(269, 6, 0x748f82ee);
    assert IsCubeRoot(271, 6, 0x78a5636f);
    assert IsCubeRoot(277, 6, 0x84c87814);
    assert IsCubeRoot(281, 6, 0x8cc70208);
    assert IsCubeRoot(283, 6, 0x90befffa);
    assert IsCubeRoot(293, 6, 0xa4506ceb);
    assert IsCubeRoot(307, 6, 0xbef9a3f7);
    assert IsCubeRoot(311, 6, 0xc67178f2);
    hide IsCubeRoot;
  }

  /** Section 4.2.2: the round constants are the first bits of the cube roots of the first sixty-four primes. */
  lemma RoundConstants(t: nat)
    requires t < 64
    ensures IsCubeRoot(PRIMES[t / 8][t % 8], WHOLES[t / 8][t % 8], KAt(t))
  {
    hide IsCubeRoot;
    Row0();
    Row1();
    Row2();
    Row3();
    Row4();
    Row5();
    Row6();
    Row7();
    assert CubeRoots(PRIMES[t / 8], WHOLES[t / 8], K[t / 8]);
  }

  /** Section 5.3.3: the square roots of the first eight. */
  lemma InitialConstants()
    ensures IsSquareRoot(2, 1, H0[0]) && IsSquareRoot(3, 1, H0[1])
    ensures IsSquareRoot(5, 2, H0[2]) && IsSquareRoot(7, 2, H0[3])
    ensures IsSquareRoot(11, 3, H0[4]) && IsSquareRoot(13, 3, H0[5])
    ensures IsSquareRoot(17, 4, H0[6]) && IsSquareRoot(19, 4, H0[7])
  {
  }

  /** Addition modulo 2^32. */
  function Plus(x: word, y: word): word { (x + y) % 0x1_0000_0000 }

  function Bits(x: word): bv32 { x as bv32 }

  function Value(x: bv32): word { x as int }

  // section 4.1.2
  function Ch(x: word, y: word, z: word): word { Value((Bits(x) & Bits(y)) ^ (!Bits(x) & Bits(z))) }

  function Maj(x: word, y: word, z: word): word {
    Value((Bits(x) & Bits(y)) ^ (Bits(x) & Bits(z)) ^ (Bits(y) & Bits(z)))
  }

  function BigSigma0(x: word): word {
    Value(Bits(x).RotateRight(2) ^ Bits(x).RotateRight(13) ^ Bits(x).RotateRight(22))
  }

  function BigSigma1(x: word): word {
    Value(Bits(x).RotateRight(6) ^ Bits(x).RotateRight(11) ^ Bits(x).RotateRight(25))
  }

  function SmallSigma0(x: word): word {
    Value(Bits(x).RotateRight(7) ^ Bits(x).RotateRight(18) ^ (Bits(x) >> 3))
  }

  function SmallSigma1(x: word): word {
    Value(Bits(x).RotateRight(17) ^ Bits(x).RotateRight(19) ^ (Bits(x) >> 10))
  }

  /** Ch takes each bit from `y` where `x` has one and from `z` where it has none; Maj is what two of three say. */
  lemma ChooseAndMajority(x: word, y: word, z: word)
    ensures Bits(Ch(x, y, z)) == (Bits(x) & Bits(y)) | (!Bits(x) & Bits(z))
    ensures Bits(Maj(x, y, z)) == (Bits(x) & Bits(y)) | (Bits(z) & (Bits(x) | Bits(y)))
  {
    hide Bits, Value;
    Choose(Bits(x), Bits(y), Bits(z));
    Majority(Bits(x), Bits(y), Bits(z));
    BitsOfValue((Bits(x) & Bits(y)) ^ (!Bits(x) & Bits(z)));
    BitsOfValue((Bits(x) & Bits(y)) ^ (Bits(x) & Bits(z)) ^ (Bits(y) & Bits(z)));
  }

  lemma Choose(a: bv32, b: bv32, c: bv32)
    ensures (a & b) ^ (!a & c) == (a & b) | (!a & c)
  {
  }

  lemma Majority(a: bv32, b: bv32, c: bv32)
    ensures (a & b) ^ (a & c) ^ (b & c) == (a & b) | (c & (a | b))
  {
  }

  /** Where the lowest and the highest bit go. */
  lemma SigmaBits()
    ensures BigSigma0(1) == 0x4008_0400 && BigSigma1(1) == 0x0420_0080
    ensures SmallSigma0(1) == 0x0200_4000 && SmallSigma1(1) == 0x0000_A000
    ensures SmallSigma0(0x8000_0000) == 0x1100_2000 && SmallSigma1(0x8000_0000) == 0x0020_5000
  {
  }

  /** Big-endian word `t` of a block (section 5.2.1). */
  function Word(block: seq<bv8>, t: nat): word
    requires |block| == 64 && t < 16
  {
    FromBytes(block[4 * t], block[4 * t + 1], block[4 * t + 2], block[4 * t + 3])
  }

  function FromBytes(a: bv8, b: bv8, c: bv8, d: bv8): word {
    Value(Join(a, b, c, d))
  }

  function Join(a: bv8, b: bv8, c: bv8, d: bv8): bv32 {
    ((a as bv32) << 24) | ((b as bv32) << 16) | ((c as bv32) << 8) | (d as bv32)
  }

  function ToBytes(w: word): (b: seq<bv8>)
    ensures |b| == 4
  {
    Split(Bits(w))
  }

  function Split(w: bv32): seq<bv8> {
    [((w >> 24) & 0xff) as bv8, ((w >> 16) & 0xff) as bv8, ((w >> 8) & 0xff) as bv8, (w & 0xff) as bv8]
  }

  /** Words are written back in the byte order they are read in. */
  lemma WordRoundTrip(a: bv8, b: bv8, c: bv8, d: bv8)
    ensures ToBytes(FromBytes(a, b, c, d)) == [a, b, c, d]
  {
    hide Bits, Value, Join, Split;
    BitsOfValue(Join(a, b, c, d));
    SplitJoin(a, b, c, d);
  }

  lemma BitsOfValue(x: bv32)
    ensures Bits(Value(x)) == x
  {
  }

  lemma SplitJoin(a: bv8, b: bv8, c: bv8, d: bv8)
    ensures Split(Join(a, b, c, d)) == [a, b, c, d]
  {
  }

  /** The message schedule (section 6.2.2, step 1). */
  function W(block: seq<bv8>, t: nat): word
    requires |block| == 64 && t < 64
  {
    if t < 16 then Word(block, t)
    else Plus(Plus(Plus(SmallSigma1(W(block, t - 2)), W(block, t - 7)), SmallSigma0(W(block, t - 15))), W(block, t - 16))
  }

  datatype Working = Working(a: word, b: word, c: word, d: word, e: word, f: word, g: word, h: word)

  /** One round (section 6.2.2, step 3). */
  function Round(v: Working, k: word, w: word): Working {
    var t1 := Plus(Plus(Plus(Plus(v.h, BigSigma1(v.e)), Ch(v.e, v.f, v.g)), k), w);
    var t2 := Plus(BigSigma0(v.a), Maj(v.a, v.b, v.c));
    Working(Plus(t1, t2), v.a, v.b, v.c, Plus(v.d, t1), v.e, v.f, v.g)
  }

  function Initial(s: seq<word>): Working
    requires |s| == 8
  {
    Working(s[0], s[1], s[2], s[3], s[4], s[5], s[6], s[7])
  }

  /** Step 4 of section 6.2.2. */
  function AddTo(h: seq<word>, v: Working): (r: seq<word>)
    requires |h| == 8
    ensures |r| == 8
  {
    [Plus(h[0], v.a), Plus(h[1], v.b), Plus(h[2], v.c), Plus(h[3], v.d),
     Plus(h[4], v.e), Plus(h[5], v.f), Plus(h[6], v.g), Plus(h[7], v.h)]
  }

  function FinalBlock(m: seq<bv8>): (r: seq<bv8>)
    requires |m| % 64 == 0 && |m| > 0
    ensures |r| == 64
  {
    m[|m| - 64..]
  }

  /** The hash value after every block of `m` (section 6.2.2), and the working variables of its last block after
      `t` rounds: each is defined by the other one block, or one round, earlier. */
  function AbsorbAll(s: seq<word>, m: seq<bv8>): (r: seq<word>)
    requires |s| == 8 && |m| % 64 == 0
    ensures |r| == 8
    decreases |m|, 65
  {
    if |m| == 0 then s
    else
      var h := AbsorbAll(s, m[..|m| - 64]);
      AddTo(h, Variables(s, m, 64))
  }

  function Variables(s: seq<word>, m: seq<bv8>, t: nat): Working
    requires |s| == 8 && |m| % 64 == 0 && |m| > 0 && t <= 64
    decreases |m|, t
  {
    if t == 0 then Initial(AbsorbAll(s, m[..|m| - 64]))
    else Round(Variables(s, m, t - 1), KAt(t - 1), W(FinalBlock(m), t - 1))
  }

  function Zeros(n: nat): (z: seq<bv8>)
    ensures |z| == n && forall i :: 0 <= i < n ==> z[i] == 0
  {
    seq(n, _ => 0)
  }

  function BigEndian(x: nat, width: nat): (b: seq<bv8>)
    ensures |b| == width
  {
    if width == 0 then [] else BigEndian(x / 256, width - 1) + [(x % 256) as bv8]
  }

  /** How many zero bytes the padding needs (section 5.1.1). */
  function ZeroCount(n: nat): nat {
    (55 - n) % 64
  }

  function LengthField(m: seq<bv8>): (b: seq<bv8>)
    ensures |b| == 8
  {
    BigEndian((8 * |m|) % TWO64, 8)
  }

  /** The padded message; beyond 2^64 bits, where the standard stops, the length is taken modulo 2^64. */
  function Pad(m: seq<bv8>): (p: seq<bv8>)
    ensures |p| % 64 == 0
  {
    PadLength(|m|);
    m + [0x80] + Zeros(ZeroCount(|m|)) + LengthField(m)
  }

  lemma PadLength(n: nat)
    ensures (n + 1 + ZeroCount(n) + 8) % 64 == 0
  {
  }

  /** The zeros are the fewest that leave exactly eight bytes to the end of a block. */
  lemma PaddingIsMinimal(n: nat, k: nat)
    ensures (n + 1 + ZeroCount(n)) % 64 == 56
    ensures (n + 1 + k) % 64 == 56 ==> ZeroCount(n) <= k
  {
  }

  function Concat4(s: seq<word>): (d: seq<bv8>)
    ensures |d| == 4 * |s|
  {
    if |s| == 0 then [] else Concat4(s[..|s| - 1]) + ToBytes(s[|s| - 1])
  }

  /** SHA-256 (section 6.2). */
  function Digest(m: seq<bv8>): (d: seq<bv8>)
    ensures |d| == 32
  {
    Concat4(AbsorbAll(H0, Pad(m)))
  }

  // ----- facts about the standard -----

  /** The rounds of one block, from any working variables. */
  function Rounds(v: Working, block: seq<bv8>, t: nat): Working
    requires |block| == 64 && t <= 64
  {
    if t == 0 then v else Round(Rounds(v, block, t - 1), KAt(t - 1), W(block, t - 1))
  }

  /** One block into a hash value. */
  function Absorb(s: seq<word>, block: seq<bv8>): (r: seq<word>)
    requires |s| == 8 && |block| == 64
    ensures |r| == 8
  {
    AddTo(s, Rounds(Initial(s), block, 64))
  }

  lemma {:induction false} VariablesAreRounds(s: seq<word>, m: seq<bv8>, block: seq<bv8>, t: nat)
    requires |s| == 8 && |m| % 64 == 0 && |m| > 0 && t <= 64 && block == m[|m| - 64..]
    ensures Variables(s, m, t) == Rounds(Variables(s, m, 0), block, t)
  {
    hide Variables, Rounds, Round, W, KAt;
    if t == 0 {
      RoundsStart(Variables(s, m, 0), block);
    } else {
      VariablesAreRounds(s, m, block, t - 1);
      VariablesStep(s, m, t);
      RoundsStep(Variables(s, m, 0), block, t);
    }
  }

  lemma VariablesStep(s: seq<word>, m: seq<bv8>, t: nat)
    requires |s| == 8 && |m| % 64 == 0 && |m| > 0 && 0 < t <= 64
    ensures Variables(s, m, t) == Round(Variables(s, m, t - 1), KAt(t - 1), W(FinalBlock(m), t - 1))
  {
    hide Round, W, Initial, AbsorbAll, KAt;
  }

  lemma RoundsStart(v: Working, block: seq<bv8>)
    requires |block| == 64
    ensures Rounds(v, block, 0) == v
  {
    hide Round, W, KAt;
  }

  lemma RoundsStep(v: Working, block: seq<bv8>, t: nat)
    requires |block| == 64 && 0 < t <= 64
    ensures Rounds(v, block, t) == Round(Rounds(v, block, t - 1), KAt(t - 1), W(block, t - 1))
  {
    hide Round, W, KAt;
  }

  lemma FirstVariables(s: seq<word>, m: seq<bv8>, front: seq<bv8>)
    requires |s| == 8 && |m| % 64 == 0 && |m| > 0 && |front| % 64 == 0 && front == m[..|m| - 64]
    ensures Variables(s, m, 0) == Initial(AbsorbAll(s, front))
    ensures AbsorbAll(s, m) == AddTo(AbsorbAll(s, front), Variables(s, m, 64))
  {
    hide Round, W, KAt, Initial, AddTo;
  }

  lemma LastBlock(s: seq<word>, m: seq<bv8>, front: seq<bv8>, block: seq<bv8>)
    requires |s| == 8 && |m| % 64 == 0 && |m| > 0 && |front| % 64 == 0
    requires front == m[..|m| - 64] && block == m[|m| - 64..]
    ensures AbsorbAll(s, m) == Absorb(AbsorbAll(s, front), block)
  {
    hide Rounds, Variables, AbsorbAll, Round, W, KAt, Initial, AddTo;
    FirstVariables(s, m, front);
    VariablesAreRounds(s, m, block, 64);
  }

  /** The absorbed state after one more whole block of the same message. */
  lemma NextBlock(s: seq<word>, m: seq<bv8>, q: nat)
    requires |s| == 8 && q % 64 == 0 && q + 64 <= |m|
    ensures AbsorbAll(s, m[..q + 64]) == Absorb(AbsorbAll(s, m[..q]), m[q..q + 64])
  {
    hide Absorb, AbsorbAll;
    var n := m[..q + 64];
    assert |n| == q + 64;
    LastBlock(s, n, m[..q], m[q..q + 64]);
    assert n[..|n| - 64] == m[..q];
    assert n[|n| - 64..] == m[q..q + 64];
  }

  lemma {:induction false} BigEndianAt(x: nat, width: nat, i: nat)
    requires i < width
    ensures BigEndian(x, width)[i] == ((x / Pow256(width - 1 - i)) % 256) as bv8
  {
    if i == width - 1 {
      assert x / 1 == x;
    } else {
      BigEndianAt(x / 256, width - 1, i);
      DivDiv(x, Pow256(width - 2 - i));
    }
  }

  function Pow256(n: nat): (p: nat)
    ensures p > 0
  {
    if n == 0 then 1 else 256 * Pow256(n - 1)
  }

  lemma DivDiv(x: nat, p: nat)
    requires p > 0
    ensures (x / 256) / p == x / (256 * p)
  {
    var q, r := (x / 256) / p, (x / 256) % p;
    assert x / 256 == p * q + r;
    assert x == 256 * (x / 256) + x % 256;
    assert x == (256 * p) * q + (256 * r + x % 256);
    DivUnique(x, 256 * p, q, 256 * r + x % 256);
  }

  // ----- the implementation -----

  // The rotation macro expanded, as the compression function uses it.

  function MixS0(x: word): word {
    Value(((Bits(x) >> 7) | (Bits(x) << 25)) ^ ((Bits(x) >> 18) | (Bits(x) << 14)) ^ (Bits(x) >> 3))
  }

  function MixS1(x: word): word {
    Value(((Bits(x) >> 17) | (Bits(x) << 15)) ^ ((Bits(x) >> 19) | (Bits(x) << 13)) ^ (Bits(x) >> 10))
  }

  function MixE(x: word): word {
    Value(((Bits(x) >> 6) | (Bits(x) << 26)) ^ ((Bits(x) >> 11) | (Bits(x) << 21))
            ^ ((Bits(x) >> 25) | (Bits(x) << 7)))
  }

  function MixA(x: word): word {
    Value(((Bits(x) >> 2) | (Bits(x) << 30)) ^ ((Bits(x) >> 13) | (Bits(x) << 19))
            ^ ((Bits(x) >> 22) | (Bits(x) << 10)))
  }

  lemma Mixes(x: word)
    ensures MixS0(x) == SmallSigma0(x) && MixS1(x) == SmallSigma1(x)
    ensures MixE(x) == BigSigma1(x) && MixA(x) == BigSigma0(x)
  {
    MixesSmall(x);
    MixesBig(x);
  }

  lemma MixesSmall(x: word)
    ensures MixS0(x) == SmallSigma0(x) && MixS1(x) == SmallSigma1(x)
  {
  }

  lemma MixesBig(x: word)
    ensures MixE(x) == BigSigma1(x) && MixA(x) == BigSigma0(x)
  {
  }

  lemma Reassociate(a: word, b: word, c: word, d: word)
    ensures Plus(Plus(Plus(a, b), c), d) == Plus(Plus(Plus(d, c), b), a)
  {
    SumOfFour(a, b, c, d);
    SumOfFour(d, c, b, a);
  }

  lemma SumOfFour(a: word, b: word, c: word, d: word)
    ensures Plus(Plus(Plus(a, b), c), d) == (a + b + c + d) % 0x1_0000_0000
  {
    ModAdd(a + b, c, 0x1_0000_0000);
    ModAdd(a + b + c, d, 0x1_0000_0000);
  }

  lemma Associate(a: word, b: word, c: word)
    ensures Plus(a, Plus(b, c)) == Plus(Plus(a, b), c)
  {
    ModAdd(b + c, a, 0x1_0000_0000);
    ModAdd(a + b, c, 0x1_0000_0000);
  }

  lemma FirstWord(p: seq<bv8>, i: nat)
    requires |p| == 64 && i < 16
    ensures W(p, i) == FromBytes(p[i * 4], p[i * 4 + 1], p[i * 4 + 2], p[i * 4 + 3])
  {
    hide FromBytes;
  }

  /** The schedule recurrence, in the order the code adds. */
  lemma NextWord(p: seq<bv8>, i: nat)
    requires |p| == 64 && 16 <= i < 64
    ensures Plus(Plus(Plus(W(p, i - 16), MixS0(W(p, i - 15))), W(p, i - 7)), MixS1(W(p, i - 2))) == W(p, i)
  {
    hide MixS0, MixS1, SmallSigma0, SmallSigma1, Plus;
    Mixes(W(p, i - 15));
    Mixes(W(p, i - 2));
    Reassociate(W(p, i - 16), SmallSigma0(W(p, i - 15)), W(p, i - 7), SmallSigma1(W(p, i - 2)));
  }

  /** The round, in the order the code adds. */
  lemma NextRound(v: Working, k: word, w: word)
    ensures var t1 := Plus(Plus(Plus(Plus(v.h, MixE(v.e)), Ch(v.e, v.f, v.g)), k), w);
            Working(Plus(Plus(t1, MixA(v.a)), Maj(v.a, v.b, v.c)), v.a, v.b, v.c, Plus(v.d, t1), v.e, v.f, v.g)
              == Round(v, k, w)
  {
    hide MixA, MixE, BigSigma0, BigSigma1, Ch, Maj, Plus;
    Mixes(v.a);
    Mixes(v.e);
    Associate(Plus(Plus(Plus(Plus(v.h, BigSigma1(v.e)), Ch(v.e, v.f, v.g)), k), w), BigSigma0(v.a), Maj(v.a, v.b, v.c));
  }

  /** Both shapes of the padding, as blocks: one block when the marker leaves room for the length ... */
  lemma PadShort(m: seq<bv8>, q: nat)
    requires q == |m| - |m| % 64 && |m| % 64 < 56
    ensures |Pad(m)| == q + 64 && Pad(m)[..q] == m[..q]
    ensures Pad(m)[q..q + 64] == m[q..] + [0x80] + Zeros(55 - |m| % 64) + LengthField(m)
  {
    hide LengthField;
    assert Zeros(ZeroCount(|m|)) == Zeros(55 - |m| % 64);
  }

  /** ... else two. */
  lemma PadLong(m: seq<bv8>, q: nat)
    requires q == |m| - |m| % 64 && |m| % 64 >= 56
    ensures |Pad(m)| == q + 128 && Pad(m)[..q] == m[..q]
    ensures Pad(m)[q..q + 64] == m[q..] + [0x80] + Zeros(63 - |m| % 64)
    ensures Pad(m)[q + 64..q + 128] == Zeros(56) + LengthField(m)
  {
    hide LengthField;
    assert Zeros(ZeroCount(|m|)) == Zeros(63 - |m| % 64) + Zeros(56);
    var head := m[q..] + [0x80] + Zeros(63 - |m| % 64);
    assert Pad(m) == m[..q] + head + (Zeros(56) + LengthField(m));
  }

  lemma LengthWraps(n: nat)
    ensures (8 * (n % TWO64)) % TWO64 == (8 * n) % TWO64
  {
    var k, t := n / TWO64, n % TWO64;
    var j, r := (8 * t) / TWO64, (8 * t) % TWO64;
    DivUnique(8 * n, TWO64, 8 * k + j, r);
  }

  /** The streaming context: what was absorbed, and the bytes of a block not yet full. */
  class Context {
    const state: array<word>
    const block: array<bv8>
    var total: nat            // modulo 2^64
    var blockLen: nat
    ghost var message: seq<bv8>

    ghost predicate Shaped()
    {
      state.Length == 8 && block.Length == 64
    }

    /** Between calls the pending block is never full, and the state has absorbed exactly the rest. */
    ghost predicate Valid()
      reads this, state, block
    {
      && Shaped()
      && total == |message| % TWO64
      && Pending(message)
      && Took(message, |message| - blockLen)
    }

    /** The pending block is the part of `m` beyond its last whole block. */
    ghost predicate Pending(m: seq<bv8>)
      requires Shaped()
      reads this`blockLen, block
    {
      blockLen == |m| % 64 && block[..blockLen] == m[|m| - blockLen..]
    }

    /** The first `q` bytes of `m`, whole blocks, have been absorbed. */
    ghost predicate Took(m: seq<bv8>, q: int)
      requires Shaped()
      reads state
    {
      0 <= q <= |m| && q % 64 == 0 && state[..] == AbsorbAll(H0, m[..q])
    }

    lemma TookMore(m: seq<bv8>, data: seq<bv8>, q: int)
      requires Shaped() && Took(m, q)
      ensures Took(m + data, q)
    {
      assert (m + data)[..q] == m[..q];
    }

    constructor ()
      ensures Valid() && message == [] && fresh(state) && fresh(block)
    {
      state := new word[8](i requires 0 <= i < 8 => H0[i]);
      block := new bv8[64];
      total, blockLen, message := 0, 0, [];
      new;
      assert state[..] == H0;
    }

    /** The sixty-four schedule words of one block. */
    static method Schedule(p: seq<bv8>) returns (w: array<word>)
      requires |p| == 64
      ensures fresh(w) && w.Length == 64 && forall i :: 0 <= i < 64 ==> w[i] == W(p, i)
    {
      hide FromBytes, MixS0, MixS1, Plus, W;
      w := new word[64];
      for i := 0 to 16
        invariant forall k :: 0 <= k < i ==> w[k] == W(p, k)
      {
        FirstWord(p, i);
        w[i] := FromBytes(p[i * 4], p[i * 4 + 1], p[i * 4 + 2], p[i * 4 + 3]);
      }
      for i := 16 to 64
        invariant forall k :: 0 <= k < i ==> w[k] == W(p, k)
      {
        var s0 := MixS0(w[i - 15]);
        var s1 := MixS1(w[i - 2]);
        NextWord(p, i);
        w[i] := Plus(Plus(Plus(w[i - 16], s0), w[i - 7]), s1);
      }
    }

    /** The sixty-four rounds. */
    static method AllRounds(v: Working, p: seq<bv8>) returns (r: Working)
      requires |p| == 64
      ensures r == Rounds(v, p, 64)
    {
      hide MixA, MixE, Ch, Maj, W, Round, Plus, KAt;
      var w := Schedule(p);
      var a, b, cc, d, e, f, g, h := v.a, v.b, v.c, v.d, v.e, v.f, v.g, v.h;
      for i := 0 to 64
        invariant forall k :: 0 <= k < 64 ==> w[k] == W(p, k)
        invariant Working(a, b, cc, d, e, f, g, h) == Rounds(v, p, i)
      {
        var s1 := MixE(e);
        var ch := Ch(e, f, g);
        var t1 := Plus(Plus(Plus(Plus(h, s1), ch), KAt(i)), w[i]);
        var s0 := MixA(a);
        var maj := Maj(a, b, cc);
        NextRound(Working(a, b, cc, d, e, f, g, h), KAt(i), w[i]);
        h := g;
        g := f;
        f := e;
        e := Plus(d, t1);
        d := cc;
        cc := b;
        b := a;
        a := Plus(Plus(t1, s0), maj);
      }
      r := Working(a, b, cc, d, e, f, g, h);
    }

    method Compress(p: seq<bv8>)
      requires Shaped() && |p| == 64
      modifies state
      ensures state[..] == Absorb(old(state[..]), p)
    {
      hide Rounds, Plus;
      ghost var s := state[..];
      var v := AllRounds(Initial(state[..]), p);
      state[0] := Plus(state[0], v.a);
      state[1] := Plus(state[1], v.b);
      state[2] := Plus(state[2], v.c);
      state[3] := Plus(state[3], v.d);
      state[4] := Plus(state[4], v.e);
      state[5] := Plus(state[5], v.f);
      state[6] := Plus(state[6], v.g);
      state[7] := Plus(state[7], v.h);
      assert state[..] == Absorb(s, p);
    }

    /** Append bytes to the pending block. */
    method Append(data: seq<bv8>)
      requires Shaped() && blockLen + |data| <= 64
      modifies block, this`blockLen
      ensures blockLen == old(blockLen) + |data|
      ensures block[..blockLen] == old(block[..blockLen]) + data
    {
      forall i | 0 <= i < |data| {
        block[blockLen + i] := data[i];
      }
      blockLen := blockLen + |data|;
    }

    /** Absorb the pending block, which has just filled up. */
    method Flush(ghost all: seq<bv8>, ghost q: nat)
      requires Shaped() && blockLen == 64 && Took(all, q) && q + 64 <= |all|
      requires block[..64] == all[q..q + 64]
      modifies state, this`blockLen
      ensures Took(all, q + 64) && blockLen == 0
    {
      hide AbsorbAll, Absorb;
      assert block[..] == all[q..q + 64];
      NextBlock(H0, all, q);
      Compress(block[..]);
      blockLen := 0;
    }

    /** Absorb whole blocks straight from the input. */
    method AbsorbBlocks(data: seq<bv8>, from: nat, ghost m: seq<bv8>) returns (pos: nat)
      requires Shaped() && from <= |data| && Took(m + data, |m| + from)
      modifies state
      ensures from <= pos <= |data| && |data| - pos < 64 && Took(m + data, |m| + pos)
    {
      hide AbsorbAll, Absorb;
      ghost var all := m + data;
      pos := from;
      while |data| - pos >= 64
        invariant from <= pos <= |data| && Took(all, |m| + pos)
      {
        NextBlock(H0, all, |m| + pos);
        TailSlice(m, data, pos, pos + 64);
        Compress(data[pos..pos + 64]);
        pos := pos + 64;
      }
    }

    /** ... and keep what is left over. */
    method Absorbed(data: seq<bv8>, from: nat, ghost m: seq<bv8>)
      requires Shaped() && blockLen == 0 && from <= |data| && Took(m + data, |m| + from)
      modifies state, block, this`blockLen
      ensures Pending(m + data) && Took(m + data, |m| + |data| - blockLen)
    {
      hide AbsorbAll;
      var pos := AbsorbBlocks(data, from, m);
      assert data[pos..] == (m + data)[|m| + pos..];
      if pos < |data| {
        Append(data[pos..]);
      }
    }

    /** Fill up the pending block first; false when the input ran out before it was full. */
    method TopUp(data: seq<bv8>, ghost m: seq<bv8>) returns (full: bool, pos: nat)
      requires Shaped() && blockLen > 0 && Pending(m) && Took(m, |m| - blockLen)
      modifies state, block, this`blockLen
      ensures full ==> blockLen == 0 && pos <= |data| && Took(m + data, |m| + pos)
      ensures !full ==> Pending(m + data) && Took(m + data, |m| + |data| - blockLen)
    {
      hide AbsorbAll;
      ghost var all := m + data;
      ghost var q := |m| - blockLen;
      TookMore(m, data, q);
      hide Took;
      var n := 64 - blockLen;
      if n > |data| {
        n := |data|;
      }
      Append(data[..n]);
      assert block[..blockLen] == m[q..] + data[..n] == all[q..|m| + n];
      full, pos := blockLen == 64, n;
      if full {
        Flush(all, q);
      } else {
        assert all[q..] == all[q..|m| + n];
      }
    }

    /** Feed any number of bytes. */
    method Update(data: seq<bv8>)
      requires Valid()
      modifies this, state, block
      ensures Valid() && message == old(message) + data
    {
      hide AbsorbAll;
      ghost var m := message;
      hide Pending, Took;
      total := (total + |data|) % TWO64;
      message := m + data;
      var pos := 0;
      if blockLen > 0 {
        var full: bool;
        full, pos := TopUp(data, m);
        if !full {
          return;
        }
      } else {
        TookMore(m, data, |m|);
      }
      Absorbed(data, pos, m);
    }

    /** Pad, absorb the last one or two blocks, and write the digest out. */
    method Final(digest: array<bv8>)
      requires Valid() && digest.Length == 32 && digest != block
      modifies this, state, block, digest
      ensures digest[..] == Digest(old(message))
    {
      hide AbsorbAll, Pad, LengthField, Digest;
      ghost var m := message;
      ghost var p, q := Pad(m), |m| - blockLen;
      if |m| % 64 < 56 { PadShort(m, q); } else { PadLong(m, q); }
      LengthWraps(|m|);
      var bits := (total * 8) % TWO64;
      Append([0x80]);
      if blockLen > 56 {
        Append(Zeros(64 - blockLen));
        Flush(p, q);
        q := q + 64;
      }
      Append(Zeros(56 - blockLen));
      AppendLength(bits, m);
      Flush(p, q);
      assert p[..q + 64] == p;
      WriteDigest(digest);
      DigestIs(m);
    }

    /** The bit length, most significant byte first. */
    method AppendLength(bits: nat, ghost m: seq<bv8>)
      requires Shaped() && blockLen == 56 && bits == (8 * |m|) % TWO64
      modifies block, this`blockLen
      ensures blockLen == 64 && block[..64] == old(block[..56]) + LengthField(m)
    {
      ghost var field := LengthField(m);
      for i := 0 to 8
        invariant block[..56] == old(block[..56])
        invariant forall k :: 0 <= k < i ==> block[56 + k] == field[k]
      {
        BigEndianAt(bits, 8, i);
        block[56 + i] := ((bits / Pow256(7 - i)) % 256) as bv8;   // bits >> (56 - 8 * i)
      }
      blockLen := 64;
      assert block[56..64] == field;
      assert block[..64] == block[..56] + block[56..64];
    }

    method WriteDigest(digest: array<bv8>)
      requires Shaped() && digest.Length == 32 && digest != block
      modifies digest
      ensures digest[..] == Concat4(state[..])
    {
      hide ToBytes, Concat4;
      Concat4More(state[..], 0);
      for i := 0 to 8
        invariant digest[..4 * i] == Concat4(state[..][..i])
      {
        Concat4More(state[..], i);
        var b := ToBytes(state[i]);
        digest[i * 4] := b[0];
        digest[i * 4 + 1] := b[1];
        digest[i * 4 + 2] := b[2];
        digest[i * 4 + 3] := b[3];
        assert digest[..4 * (i + 1)] == digest[..4 * i] + b;
      }
      assert state[..][..8] == state[..];
      assert digest[..32] == digest[..];
    }
  }

  lemma Concat4More(s: seq<word>, i: nat)
    requires i < |s|
    ensures Concat4(s[..0]) == []
    ensures Concat4(s[..i + 1]) == Concat4(s[..i]) + ToBytes(s[i])
  {
    assert s[..i + 1][..i] == s[..i];
  }

  lemma DigestIs(m: seq<bv8>)
    ensures Digest(m) == Concat4(AbsorbAll(H0, Pad(m)))
  {
  }

  function Joined(parts: seq<seq<bv8>>): seq<bv8> {
    if |parts| == 0 then [] else Joined(parts[..|parts| - 1]) + parts[|parts| - 1]
  }

  lemma JoinedNone(parts: seq<seq<bv8>>)
    requires |parts| == 0
    ensures Joined(parts) == []
  {
  }

  lemma JoinedOneMore(parts: seq<seq<bv8>>, i: nat)
    requires i < |parts|
    ensures Joined(parts[..i + 1]) == Joined(parts[..i]) + parts[i]
  {
    assert parts[..i + 1][..i] == parts[..i];
  }

  /** However a message is cut into updates, the digest is the standard's digest of the whole. */
  method HashParts(parts: seq<seq<bv8>>, digest: array<bv8>)
    requires digest.Length == 32
    modifies digest
    ensures digest[..] == Digest(Joined(parts))
  {
    hide Digest, Context.Valid, Joined;
    var c := new Context();
    assert Joined(parts[..0]) == [] by { JoinedNone(parts[..0]); }
    for i := 0 to |parts|
      invariant c.Valid() && fresh(c) && fresh(c.state) && fresh(c.block)
      invariant c.message == Joined(parts[..i])
    {
      JoinedOneMore(parts, i);
      c.Update(parts[i]);
    }
    assert parts[..|parts|] == parts;
    c.Final(digest);
  }

  /** The one-shot entry point. */
  method Hash(data: seq<bv8>, digest: array<bv8>)
    requires digest.Length == 32
    modifies digest
    ensures digest[..] == Digest(data)
  {
    hide Digest, Context.Valid;
    var c := new Context();
    c.Update(data);
    assert c.message == data;
    c.Final(digest);
  }
}
