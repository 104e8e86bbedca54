/**
 SHA-256 as FIPS 180-4 defines it: sections 4.1.2 (functions), 4.2.2 (constants), 5.1.1 (padding),
 5.2.1 (parsing), 5.3.3 (initial value) and 6.2.2 (the computation).
 */
module Sha256Spec {
  import opened Arith
  import opened Octets

  /** A 32-bit word, as the number it stands for; additions are modulo 2^32. */
  type Word = w: int | 0 <= w < 0x1_0000_0000

  const K: seq<Word> :=
    ([0x428a2f98, 0x71374491, 0xb5c0fbcf, 0xe9b5dba5,
      0x3956c25b, 0x59f111f1, 0x923f82a4, 0xab1c5ed5] +
    ([0xd807aa98, 0x12835b01, 0x243185be, 0x550c7dc3,
      0x72be5d74, 0x80deb1fe, 0x9bdc06a7, 0xc19bf174] +
    ([0xe49b69c1, 0xefbe4786, 0x0fc19dc6, 0x240ca1cc,
      0x2de92c6f, 0x4a7484aa, 0x5cb0a9dc, 0x76f988da] +
    ([0x983e5152, 0xa831c66d, 0xb00327c8, 0xbf597fc7,
      0xc6e00bf3, 0xd5a79147, 0x06ca6351, 0x14292967] +
    ([0x27b70a85, 0x2e1b2138, 0x4d2c6dfc, 0x53380d13,
      0x650a7354, 0x766a0abb, 0x81c2c92e, 0x92722c85] +
    ([0xa2bfe8a1, 0xa81a664b, 0xc24b8b70, 0xc76c51a3,
      0xd192e819, 0xd6990624, 0xf40e3585, 0x106aa070] +
    ([0x19a4c116, 0x1e376c08, 0x2748774c, 0x34b0bcb5,
      0x391c0cb3, 0x4ed8aa4a, 0x5b9cca4f, 0x682e6ff3] +
    ([0x748f82ee, 0x78a5636f, 0x84c87814, 0x8cc70208,
      0x90befffa, 0xa4506ceb, 0xbef9a3f7, 0xc67178f2]))))))))

  const H0: seq<Word> := [
    0x6a09e667, 0xbb67ae85, 0x3c6ef372, 0xa54ff53a,
    0x510e527f, 0x9b05688c, 0x1f83d9ab, 0x5be0cd19
  ]

  function Plus(x: Word, y: Word): Word { (x + y) % 0x1_0000_0000 }

  function Xor3(x: bv32, y: bv32, z: bv32): Word { (x ^ y ^ z) as int }

  function Ch(x: Word, y: Word, z: Word): Word { ((x as bv32 & y as bv32) ^ (!(x as bv32) & z as bv32)) as int }

  function Maj(x: Word, y: Word, z: Word): Word {
    ((x as bv32 & y as bv32) ^ (x as bv32 & z as bv32) ^ (y as bv32 & z as bv32)) as int
  }

  function BigSigma0(x: Word): Word {
    var v := x as bv32; Xor3(v.RotateRight(2), v.RotateRight(13), v.RotateRight(22))
  }

  function BigSigma1(x: Word): Word {
    var v := x as bv32; Xor3(v.RotateRight(6), v.RotateRight(11), v.RotateRight(25))
  }

  function Sigma0(x: Word): Word {
    var v := x as bv32; Xor3(v.RotateRight(7), v.RotateRight(18), v >> 3)
  }

  function Sigma1(x: Word): Word {
    var v := x as bv32; Xor3(v.RotateRight(17), v.RotateRight(19), v >> 10)
  }

  // ----- one block -----

  /** A big-endian word. */
  function WordAt(b: seq<byte>, i: nat): Word
    requires 4 * i + 4 <= |b|
  {
    b[4 * i] as int * 0x100_0000 + b[4 * i + 1] as int * 0x1_0000 + b[4 * i + 2] as int * 0x100 + b[4 * i + 3]
  }

  /** The message schedule of a block. */
  function Schedule(b: seq<byte>, t: nat): Word
    requires |b| == 64
  {
    if t < 16 then WordAt(b, t)
    else Plus(Plus(Plus(Sigma1(Schedule(b, t - 2)), Schedule(b, t - 7)), Sigma0(Schedule(b, t - 15))), Schedule(b, t - 16))
  }

  datatype Vars = Vars(a: Word, b: Word, c: Word, d: Word, e: Word, f: Word, g: Word, h: Word)

  function Round(v: Vars, k: Word, w: Word): Vars {
    var t1 := Plus(Plus(Plus(Plus(v.h, BigSigma1(v.e)), Ch(v.e, v.f, v.g)), k), w);
    var t2 := Plus(BigSigma0(v.a), Maj(v.a, v.b, v.c));
    Vars(Plus(t1, t2), v.a, v.b, v.c, Plus(v.d, t1), v.e, v.f, v.g)
  }

  function Rounds(v: Vars, b: seq<byte>, t: nat): Vars
    requires |b| == 64 && t <= |K|
  {
    if t == 0 then v else Round(Rounds(v, b, t - 1), K[t - 1], Schedule(b, t - 1))
  }

  function Load(h: seq<Word>): Vars
    requires |h| == 8
  {
    Vars(h[0], h[1], h[2], h[3], h[4], h[5], h[6], h[7])
  }

  function AddVars(h: seq<Word>, v: Vars): seq<Word>
    requires |h| == 8
  {
    [Plus(h[0], v.a), Plus(h[1], v.b), Plus(h[2], v.c), Plus(h[3], v.d),
     Plus(h[4], v.e), Plus(h[5], v.f), Plus(h[6], v.g), Plus(h[7], v.h)]
  }

  function Compress(h: seq<Word>, b: seq<byte>): (r: seq<Word>)
    requires |h| == 8 && |b| == 64
    ensures |r| == 8
  {
    AddVars(h, Rounds(Load(h), b, |K|))
  }

  // ----- a message -----

  /** The hash value after every block of `data`. */
  function Blocks(h: seq<Word>, data: seq<byte>): (r: seq<Word>)
    requires |h| == 8 && |data| % 64 == 0
    ensures |r| == 8
    decreases |data|
  {
    if data == [] then h
    else Compress(Blocks(h, data[..|data| - 64]), data[|data| - 64..])
  }

  const TWO64: nat := 0x1_0000_0000_0000_0000

  /** A number as `k` big-endian bytes. */
  function BigEndian(n: nat, k: nat): (r: seq<byte>)
    ensures |r| == k
  {
    if k == 0 then [] else BigEndian(n / 256, k - 1) + [n % 256]
  }

  function ZeroPad(length: nat): (z: nat)
    ensures (length + 1 + z + 8) % 64 == 0
  {
    (119 - length % 64) % 64
  }

  function Zeros(k: nat): (r: seq<byte>)
    ensures |r| == k
  {
    seq(k, _ => 0)
  }

  /** The padded message: 0x80, zeros, and the bit count. */
  function Pad(message: seq<byte>): (r: seq<byte>)
    ensures |r| % 64 == 0
  {
    message + [0x80] + Zeros(ZeroPad(|message|)) + BigEndian(8 * |message| % TWO64, 8)
  }

  /** The zeros are the fewest that complete a block (section 5.1.1). */
  lemma ZeroPadIsLeast(length: nat, k: nat)
    ensures (length + 1 + ZeroPad(length)) % 64 == 56
    ensures (length + 1 + k) % 64 == 56 ==> ZeroPad(length) <= k
  {
    var q, r := length / 64, length % 64;
    if k < ZeroPad(length) {
      var j := r + 1 + k;
      assert length + 1 + k == 64 * q + j;
      if j < 64 { Residue(q, j); } else { Residue(q + 1, j - 64); }
    }
  }

  lemma Residue(q: nat, j: nat)
    requires j < 64
    ensures (64 * q + j) % 64 == j
  {}

  function Pow256(k: nat): (r: nat)
    ensures r > 0
  {
    if k == 0 then 1 else 256 * Pow256(k - 1)
  }

  /** The number some big-endian bytes stand for. */
  function FromBigEndian(b: seq<byte>): nat {
    if b == [] then 0 else 256 * FromBigEndian(b[..|b| - 1]) + b[|b| - 1]
  }

  /** The bytes stand for the number, as long as they can hold it. */
  lemma {:induction false} BigEndianStands(n: nat, k: nat)
    requires n < Pow256(k)
    ensures FromBigEndian(BigEndian(n, k)) == n
  {
    if k > 0 {
      BigEndianStands(n / 256, k - 1);
      var b := BigEndian(n, k);
      assert b[..k - 1] == BigEndian(n / 256, k - 1);
    }
  }

  /** Each byte by a shift: byte `i` of `k` is what is left after dropping the lower k-1-i bytes. */
  lemma {:induction false} BigEndianByte(n: nat, k: nat, i: nat)
    requires i < k
    ensures BigEndian(n, k)[i] == n / Pow256(k - 1 - i) % 256
  {
    if i < k - 1 {
      BigEndianByte(n / 256, k - 1, i);
      DivDiv(n, 256, Pow256(k - 2 - i));
    }
  }

  function WordBytes(w: Word): (r: seq<byte>)
    ensures |r| == 4
  {
    [w / 0x100_0000 % 256, w / 0x1_0000 % 256, w / 0x100 % 256, w % 256]
  }

  function HashBytes(h: seq<Word>): (r: seq<byte>)
    requires |h| == 8
    ensures |r| == 32
  {
    seq(32, k requires 0 <= k < 32 => WordBytes(h[k / 4])[k % 4])
  }

  /** The digest; FIPS 180-4 defines it for messages of fewer than 2^64 bits. */
  function Digest(message: seq<byte>): (r: seq<byte>)
    ensures |r| == 32
  {
    HashBytes(Blocks(H0, Pad(message)))
  }

  /** Big-endian writing and reading are inverse. */
  lemma WordRoundTrip(w: Word)
    ensures WordAt(WordBytes(w), 0) == w
  {
    var a, b := w / 0x100, w / 0x1_0000;
    DivDiv(w, 0x100, 0x100);
    DivDiv(w, 0x1_0000, 0x100);
    assert w == 0x100 * a + w % 0x100 && a == 0x100 * b + a % 0x100 && b == 0x100 * (b / 0x100) + b % 0x100;
    assert b / 0x100 < 0x100;
  }

  lemma NoBlocks(h: seq<Word>)
    requires |h| == 8
    ensures Blocks(h, []) == h
  {}

  /** One more block of a message. */
  lemma NextBlock(h: seq<Word>, m: seq<byte>, done: nat)
    requires |h| == 8 && done % 64 == 0 && done + 64 <= |m|
    ensures Blocks(h, m[..done + 64]) == Compress(Blocks(h, m[..done]), m[done..done + 64])
  {
    hide Compress;
    var t := m[..done + 64];
    assert t[..done] == m[..done] && t[done..] == m[done..done + 64];
  }
}
