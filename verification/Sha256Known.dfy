/**
 Independent checks of the tables and functions of SHA-256: the constants as roots of primes
 (FIPS 180-4, sections 4.2.2 and 5.3.3), the functions bit by bit, the steps as sums modulo 2^32,
 and the published first round of the one-block message "abc".
 */
module Sha256Known {
  import opened Octets
  import opened Sha256Spec

  // ----- the constants -----

  /** `k` is the first 32 bits of the fraction of the cube root of `p`, `whole` being what precedes it. */
  predicate CubeAt(p: nat, k: Word, whole: nat) {
    var n: nat := whole * 0x1_0000_0000 + k;
    n * n * n <= p * 0x1_0000_0000_0000_0000_0000_0000 < (n + 1) * (n + 1) * (n + 1)
  }

  /** The same for the square root. */
  predicate SquareAt(p: nat, k: Word, whole: nat) {
    var n: nat := whole * 0x1_0000_0000 + k;
    n * n <= p * 0x1_0000_0000_0000_0000 < (n + 1) * (n + 1)
  }

  /** The round constants, four at a time. */
  lemma CubeRoots0()
    ensures CubeAt(2, K[0], 1) && CubeAt(3, K[1], 1) && CubeAt(5, K[2], 1) && CubeAt(7, K[3], 1)
  {}

  lemma CubeRoots1()
    ensures CubeAt(11, K[4], 2) && CubeAt(13, K[5], 2) && CubeAt(17, K[6], 2) && CubeAt(19, K[7], 2)
  {}

  lemma CubeRoots2()
    ensures CubeAt(23, K[8], 2) && CubeAt(29, K[9], 3) && CubeAt(31, K[10], 3) && CubeAt(37, K[11], 3)
  {}

  lemma CubeRoots3()
    ensures CubeAt(41, K[12], 3) && CubeAt(43, K[13], 3) && CubeAt(47, K[14], 3) && CubeAt(53, K[15], 3)
  {}

  lemma CubeRoots4()
    ensures CubeAt(59, K[16], 3) && CubeAt(61, K[17], 3) && CubeAt(67, K[18], 4) && CubeAt(71, K[19], 4)
  {}

  lemma CubeRoots5()
    ensures CubeAt(73, K[20], 4) && CubeAt(79, K[21], 4) && CubeAt(83, K[22], 4) && CubeAt(89, K[23], 4)
  {}

  lemma CubeRoots6()
    ensures CubeAt(97, K[24], 4) && CubeAt(101, K[25], 4) && CubeAt(103, K[26], 4) && CubeAt(107, K[27], 4)
  {}

  lemma CubeRoots7()
    ensures CubeAt(109, K[28], 4) && CubeAt(113, K[29], 4) && CubeAt(127, K[30], 5) && CubeAt(131, K[31], 5)
  {}

  lemma CubeRoots8()
    ensures CubeAt(137, K[32], 5) && CubeAt(139, K[33], 5) && CubeAt(149, K[34], 5) && CubeAt(151, K[35], 5)
  {}

  lemma CubeRoots9()
    ensures CubeAt(157, K[36], 5) && CubeAt(163, K[37], 5) && CubeAt(167, K[38], 5) && CubeAt(173, K[39], 5)
  {}

  lemma CubeRoots10()
    ensures CubeAt(179, K[40], 5) && CubeAt(181, K[41], 5) && CubeAt(191, K[42], 5) && CubeAt(193, K[43], 5)
  {}

  lemma CubeRoots11()
    ensures CubeAt(197, K[44], 5) && CubeAt(199, K[45], 5) && CubeAt(211, K[46], 5) && CubeAt(223, K[47], 6)
  {}

  lemma CubeRoots12()
    ensures CubeAt(227, K[48], 6) && CubeAt(229, K[49], 6) && CubeAt(233, K[50], 6) && CubeAt(239, K[51], 6)
  {}

  lemma CubeRoots13()
    ensures CubeAt(241, K[52], 6) && CubeAt(251, K[53], 6) && CubeAt(257, K[54], 6) && CubeAt(263, K[55], 6)
  {}

  lemma CubeRoots14()
    ensures CubeAt(269, K[56], 6) && CubeAt(271, K[57], 6) && CubeAt(277, K[58], 6) && CubeAt(281, K[59], 6)
  {}

  lemma CubeRoots15()
    ensures CubeAt(283, K[60], 6) && CubeAt(293, K[61], 6) && CubeAt(307, K[62], 6) && CubeAt(311, K[63], 6)
  {}

  /** The initial value. */
  lemma SquareRoots()
    ensures SquareAt(2, H0[0], 1) && SquareAt(3, H0[1], 1) && SquareAt(5, H0[2], 2) && SquareAt(7, H0[3], 2)
    ensures SquareAt(11, H0[4], 3) && SquareAt(13, H0[5], 3) && SquareAt(17, H0[6], 4) && SquareAt(19, H0[7], 4)
  {}

  // ----- the functions, bit by bit -----

  /** Choice takes the bits of `y` where `x` has ones and those of `z` elsewhere. */
  lemma Choice(x: Word, y: Word, z: Word)
    ensures var a, b, c := x as bv32, y as bv32, z as bv32; Ch(x, y, z) == (c ^ (a & (b ^ c))) as int
  {}

  /** Majority is the vote. */
  lemma Majority(x: Word, y: Word, z: Word)
    ensures var a, b, c := x as bv32, y as bv32, z as bv32; Maj(x, y, z) == ((a & b) | (c & (a | b))) as int
  {
    Votes(x as bv32, y as bv32, z as bv32);
  }

  lemma Votes(a: bv32, b: bv32, c: bv32)
    ensures (a & b) ^ (a & c) ^ (b & c) == (a & b) | (c & (a | b))
  {}

  /** Where each bit of the sums comes from: the rotations, spelled with shifts. */
  lemma SumsByShifts(x: Word)
    ensures var v := x as bv32;
            && BigSigma0(x) == (((v >> 2) | (v << 30)) ^ ((v >> 13) | (v << 19)) ^ ((v >> 22) | (v << 10))) as int
            && BigSigma1(x) == (((v >> 6) | (v << 26)) ^ ((v >> 11) | (v << 21)) ^ ((v >> 25) | (v << 7))) as int
            && Sigma0(x) == (((v >> 7) | (v << 25)) ^ ((v >> 18) | (v << 14)) ^ (v >> 3)) as int
            && Sigma1(x) == (((v >> 17) | (v << 15)) ^ ((v >> 19) | (v << 13)) ^ (v >> 10)) as int
  {}

  // ----- the published example -----

  lemma FirstSums()
    ensures BigSigma0(0x6a09e667) == 0xce20b47e && BigSigma1(0x510e527f) == 0x3587272b
    ensures Ch(0x510e527f, 0x9b05688c, 0x1f83d9ab) == 0x1f85c98c
    ensures Maj(0x6a09e667, 0xbb67ae85, 0x3c6ef372) == 0x3a6fe667
  {
    var a: bv32, b: bv32, c: bv32 := 0x6a09e667, 0xbb67ae85, 0x3c6ef372;
    var e: bv32, f: bv32, g: bv32 := 0x510e527f, 0x9b05688c, 0x1f83d9ab;
    assert 0x6a09e667 as bv32 == a && 0xbb67ae85 as bv32 == b && 0x3c6ef372 as bv32 == c;
    assert 0x510e527f as bv32 == e && 0x9b05688c as bv32 == f && 0x1f83d9ab as bv32 == g;
  }

  /** The first of the 64 rounds. */
  lemma PublishedRound()
    ensures Round(Load(H0), K[0], 0x61626380)
         == Vars(0x5d6aebcd, 0x6a09e667, 0xbb67ae85, 0x3c6ef372, 0xfa2a4622, 0x510e527f, 0x9b05688c, 0x1f83d9ab)
  {
    hide BigSigma0, BigSigma1, Ch, Maj;
    FirstSums();
  }

  // ----- sums modulo 2^32, in one step -----

  lemma PlusPlus(x: Word, y: int)
    requires y >= 0
    ensures Plus(y % 0x1_0000_0000, x) == (y + x) % 0x1_0000_0000
  {}

  function FourBytes(a: int, b: int, c: int, d: int): int {
    ((a * 256 + b) * 256 + c) * 256 + d
  }

  /** The message schedule (section 6.2.2, step 1). */
  lemma ScheduleEquations(b: seq<byte>, t: nat)
    requires |b| == 64
    ensures t < 16 ==>
              Schedule(b, t) == FourBytes(b[4 * t], b[4 * t + 1], b[4 * t + 2], b[4 * t + 3])
    ensures t >= 16 ==>
              Schedule(b, t) == (Sigma1(Schedule(b, t - 2)) + Schedule(b, t - 7)
                                 + Sigma0(Schedule(b, t - 15)) + Schedule(b, t - 16)) % 0x1_0000_0000
  {
    hide Sigma0, Sigma1, Plus;
    if t >= 16 {
      SumOfFour(Sigma1(Schedule(b, t - 2)), Schedule(b, t - 7), Sigma0(Schedule(b, t - 15)), Schedule(b, t - 16));
    }
  }

  lemma SumOfFour(x: Word, y: Word, z: Word, w: Word)
    ensures Plus(Plus(Plus(x, y), z), w) == (x + y + z + w) % 0x1_0000_0000
  {
    hide Plus;
    PlusPlus(y, x);
    PlusPlus(z, x + y);
    PlusPlus(w, x + y + z);
  }

  /** Round after round, each with its own constant and word (step 3). */
  lemma RoundsInOrder(v: Vars, b: seq<byte>, t: nat)
    requires |b| == 64 && t < 64
    ensures Rounds(v, b, 0) == v && Rounds(v, b, t + 1) == Round(Rounds(v, b, t), K[t], Schedule(b, t))
  {}

  /** Padding (section 5.1.1): a one bit, as few zeros as reach a full block, and the length in bits. */
  lemma Padding(message: seq<byte>)
    ensures var n, p := |message|, Pad(message);
            && |p| % 64 == 0 && n + 9 <= |p| < n + 9 + 64 && p[..n] == message && p[n] == 0x80
            && (forall k | n < k < |p| - 8 :: p[k] == 0)
            && FourBytes(p[|p| - 8], p[|p| - 7], p[|p| - 6], p[|p| - 5]) * 0x1_0000_0000
               + FourBytes(p[|p| - 4], p[|p| - 3], p[|p| - 2], p[|p| - 1]) == (8 * n) % 0x1_0000_0000_0000_0000
  {
    hide FourBytes, ZeroPad, BigEndian;
    var n, p := |message|, Pad(message);
    EightBytes(8 * n % TWO64);
    FewZeros(n);
    ZeroPadIsLeast(n, 0);
  }

  lemma FewZeros(length: nat)
    ensures ZeroPad(length) < 64
  {}

  lemma EightBytes(n: nat)
    requires n < 0x1_0000_0000_0000_0000
    ensures var q := BigEndian(n, 8);
            FourBytes(q[0], q[1], q[2], q[3]) * 0x1_0000_0000 + FourBytes(q[4], q[5], q[6], q[7]) == n
  {
    hide FourBytes, BigEndian;
    FourLast(n, 4);
    FourLast(n / 0x1_0000_0000, 0);
    var q, high := BigEndian(n, 8), BigEndian(n / 0x1_0000_0000, 4);
    assert q[0] == q[..4][0] && q[1] == q[..4][1] && q[2] == q[..4][2] && q[3] == q[..4][3];
  }

  /** The last four of `k + 4` bytes; the others are those of the quotient. */
  lemma FourLast(n: nat, k: nat)
    ensures var q, high := BigEndian(n, k + 4), BigEndian(n / 0x1_0000_0000, k);
            q[..k] == high && FourBytes(q[k], q[k + 1], q[k + 2], q[k + 3]) == n % 0x1_0000_0000
  {
    hide BigEndian;
    var a, b, c := n / 256, n / 256 / 256, n / 256 / 256 / 256;
    LastByte(n, k + 3);
    LastByte(a, k + 2);
    LastByte(b, k + 1);
    LastByte(c, k);
    assert c / 256 == n / 0x1_0000_0000;
    assert BigEndian(n, k + 4) == BigEndian(c / 256, k) + [c % 256, b % 256, a % 256, n % 256];
  }

  lemma LastByte(n: nat, k: nat)
    ensures BigEndian(n, k + 1) == BigEndian(n / 256, k) + [n % 256]
  {}

  /** Each word plus the working variable of its place. */
  predicate IsSum(r: seq<Word>, h: seq<Word>, v: Vars) {
    && |r| == 8 && |h| == 8
    && r[0] == (h[0] + v.a) % 0x1_0000_0000 && r[1] == (h[1] + v.b) % 0x1_0000_0000
    && r[2] == (h[2] + v.c) % 0x1_0000_0000 && r[3] == (h[3] + v.d) % 0x1_0000_0000
    && r[4] == (h[4] + v.e) % 0x1_0000_0000 && r[5] == (h[5] + v.f) % 0x1_0000_0000
    && r[6] == (h[6] + v.g) % 0x1_0000_0000 && r[7] == (h[7] + v.h) % 0x1_0000_0000
  }

  lemma AddsInPlace(h: seq<Word>, v: Vars)
    requires |h| == 8
    ensures IsSum(AddVars(h, v), h, v)
  {}

  /** The intermediate hash value (step 4): 64 rounds from the old one, then added to it. */
  lemma FeedForward(h: seq<Word>, b: seq<byte>)
    requires |h| == 8 && |b| == 64
    ensures IsSum(Compress(h, b), h, Rounds(Vars(h[0], h[1], h[2], h[3], h[4], h[5], h[6], h[7]), b, 64))
  {
    hide Rounds, AddVars, IsSum;
    AddsInPlace(h, Rounds(Load(h), b, |K|));
  }

  /** The digest is the final hash value, word by word, most significant byte first. */
  lemma DigestBytes(message: seq<byte>, i: nat)
    requires i < 8
    ensures var d := Digest(message);
            FourBytes(d[4 * i], d[4 * i + 1], d[4 * i + 2], d[4 * i + 3]) == Blocks(H0, Pad(message))[i]
  {
    hide Blocks, Pad, WordAt, WordBytes, FourBytes;
    var w := Blocks(H0, Pad(message))[i];
    BytesOfWord(w);
    Quarter(i, 0);
    Quarter(i, 1);
    Quarter(i, 2);
    Quarter(i, 3);
  }

  lemma Quarter(i: nat, j: nat)
    requires j < 4
    ensures (4 * i + j) / 4 == i && (4 * i + j) % 4 == j
  {}

  lemma BytesOfWord(w: Word)
    ensures var q := WordBytes(w); FourBytes(q[0], q[1], q[2], q[3]) == w
  {
    WordRoundTrip(w);
  }
}
