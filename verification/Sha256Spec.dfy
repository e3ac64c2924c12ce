/** SHA-256 as FIPS 180-4 defines it: padding (section 5.1.1) and the hash of
    a padded message (section 6.2.2). */
module Sha256Spec {

  type Word = bv32

  /** The constants of section 4.2.2, eight to a row. */
  const ROWS: seq<seq<Word>> := [
    [0x428a2f98, 0x71374491, 0xb5c0fbcf, 0xe9b5dba5, 0x3956c25b, 0x59f111f1, 0x923f82a4, 0xab1c5ed5],
    [0xd807aa98, 0x12835b01, 0x243185be, 0x550c7dc3, 0x72be5d74, 0x80deb1fe, 0x9bdc06a7, 0xc19bf174],
    [0xe49b69c1, 0xefbe4786, 0x0fc19dc6, 0x240ca1cc, 0x2de92c6f, 0x4a7484aa, 0x5cb0a9dc, 0x76f988da],
    [0x983e5152, 0xa831c66d, 0xb00327c8, 0xbf597fc7, 0xc6e00bf3, 0xd5a79147, 0x06ca6351, 0x14292967],
    [0x27b70a85, 0x2e1b2138, 0x4d2c6dfc, 0x53380d13, 0x650a7354, 0x766a0abb, 0x81c2c92e, 0x92722c85],
    [0xa2bfe8a1, 0xa81a664b, 0xc24b8b70, 0xc76c51a3, 0xd192e819, 0xd6990624, 0xf40e3585, 0x106aa070],
    [0x19a4c116, 0x1e376c08, 0x2748774c, 0x34b0bcb5, 0x391c0cb3, 0x4ed8aa4a, 0x5b9cca4f, 0x682e6ff3],
    [0x748f82ee, 0x78a5636f, 0x84c87814, 0x8cc70208, 0x90befffa, 0xa4506ceb, 0xbef9a3f7, 0xc67178f2]]

  function K(t: nat): (k: Word)
    requires t < 64
  {
    ROWS[t / 8][t % 8]
  }

  /** The eight working variables, or the eight words of a hash value. */
  datatype Vars = Vars(a: Word, b: Word, c: Word, d: Word, e: Word, f: Word, g: Word, h: Word)

  const H0 := Vars(0x6a09e667, 0xbb67ae85, 0x3c6ef372, 0xa54ff53a, 0x510e527f, 0x9b05688c, 0x1f83d9ab, 0x5be0cd19)

  type Octets = seq<bv8>

  // ---- the functions of section 4.1.2 ------------------------------------------------------------

  /** Addition modulo 2^32, of two, four or five words. */
  function Plus(x: Word, y: Word): (r: Word) { x + y }

  function Plus4(x: Word, y: Word, z: Word, u: Word): (r: Word) { x + y + z + u }

  function Plus5(x: Word, y: Word, z: Word, u: Word, v: Word): (r: Word) { x + y + z + u + v }

  function Ch(x: Word, y: Word, z: Word): (r: Word) { (x & y) ^ (!x & z) }

  function Maj(x: Word, y: Word, z: Word): (r: Word) { (x & y) ^ (x & z) ^ (y & z) }

  function BigSigma0(x: Word): (r: Word) { x.RotateRight(2) ^ x.RotateRight(13) ^ x.RotateRight(22) }

  function BigSigma1(x: Word): (r: Word) { x.RotateRight(6) ^ x.RotateRight(11) ^ x.RotateRight(25) }

  function Sigma0(x: Word): (r: Word) { x.RotateRight(7) ^ x.RotateRight(18) ^ (x >> 3) }

  function Sigma1(x: Word): (r: Word) { x.RotateRight(17) ^ x.RotateRight(19) ^ (x >> 10) }

  // ---- one block -----------------------------------------------------------------------------------

  /** Four bytes as a word, the first the most significant. */
  function BigEndian(b0: bv8, b1: bv8, b2: bv8, b3: bv8): (w: Word) {
    ((b0 as bv32) << 24) | ((b1 as bv32) << 16) | ((b2 as bv32) << 8) | (b3 as bv32)
  }

  /** The message schedule. */
  function Schedule(block: Octets, t: nat): (w: Word)
    requires |block| == 64 && t < 64
  {
    if t < 16 then BigEndian(block[4 * t], block[4 * t + 1], block[4 * t + 2], block[4 * t + 3])
    else Plus4(Sigma1(Schedule(block, t - 2)), Schedule(block, t - 7), Sigma0(Schedule(block, t - 15)),
               Schedule(block, t - 16))
  }

  function Round(v: Vars, k: Word, w: Word): (r: Vars) {
    var t1 := Plus5(v.h, BigSigma1(v.e), Ch(v.e, v.f, v.g), k, w);
    var t2 := Plus(BigSigma0(v.a), Maj(v.a, v.b, v.c));
    Vars(Plus(t1, t2), v.a, v.b, v.c, Plus(v.d, t1), v.e, v.f, v.g)
  }

  /** The working variables after `t` rounds. */
  function Rounds(v: Vars, block: Octets, t: nat): (r: Vars)
    requires |block| == 64 && t <= 64
  {
    if t == 0 then v else Round(Rounds(v, block, t - 1), K(t - 1), Schedule(block, t - 1))
  }

  function Add(x: Vars, y: Vars): (r: Vars) {
    Vars(Plus(x.a, y.a), Plus(x.b, y.b), Plus(x.c, y.c), Plus(x.d, y.d), Plus(x.e, y.e), Plus(x.f, y.f),
         Plus(x.g, y.g), Plus(x.h, y.h))
  }

  function Compress(h: Vars, block: Octets): (r: Vars)
    requires |block| == 64
  {
    Add(h, Rounds(h, block, 64))
  }

  // ---- whole messages ------------------------------------------------------------------------------

  /** The hash value after the whole blocks of `m`, one after the other. */
  function Absorb(h: Vars, m: Octets): (r: Vars)
    decreases |m|
  {
    if |m| < 64 then h else Absorb(Compress(h, m[..64]), m[64..])
  }

  function Zeros(n: nat): (z: Octets)
    ensures |z| == n
  {
    if n == 0 then [] else Zeros(n - 1) + [0]
  }

  /** The least number of zero bytes after which 8 bytes remain in a block. */
  function ZeroCount(n: nat): (k: nat)
    ensures k < 64 && (n + 1 + k) % 64 == 56
  {
    (119 - n % 64) % 64
  }

  function Octet(n: nat): (b: bv8) { (n % 256) as bv8 }

  /** A 64-bit number, the most significant byte first. */
  function Length64(n: nat): (r: Octets)
    ensures |r| == 8
  {
    [Octet(n / 0x100_0000_0000_0000), Octet(n / 0x1_0000_0000_0000), Octet(n / 0x100_0000_0000),
     Octet(n / 0x1_0000_0000), Octet(n / 0x100_0000), Octet(n / 0x1_0000), Octet(n / 0x100), Octet(n)]
  }

  /** The message, a one bit, zeros, and the length in bits. */
  function Padded(m: Octets): (r: Octets) { m + [0x80] + Zeros(ZeroCount(|m|)) + Length64(8 * |m|) }

  function WordBytes(w: Word): (r: Octets)
    ensures |r| == 4
  {
    [((w >> 24) & 0xFF) as bv8, ((w >> 16) & 0xFF) as bv8, ((w >> 8) & 0xFF) as bv8, (w & 0xFF) as bv8]
  }

  function Digest(v: Vars): (r: Octets)
    ensures |r| == 32
  {
    WordBytes(v.a) + WordBytes(v.b) + WordBytes(v.c) + WordBytes(v.d)
    + WordBytes(v.e) + WordBytes(v.f) + WordBytes(v.g) + WordBytes(v.h)
  }

  function Hash(m: Octets): (r: Octets) { Digest(Absorb(H0, Padded(m))) }

  lemma PaddedBlocks(m: Octets)
    ensures |Padded(m)| % 64 == 0
  {
    hide Length64, ZeroCount, Zeros;
    var n, k := |m|, ZeroCount(|m|);
    assert |Padded(m)| == n + 1 + k + 8;
  }

  /** Whole blocks may be absorbed in parts. */
  lemma {:induction false} AbsorbSplit(h: Vars, a: Octets, b: Octets)
    requires |a| % 64 == 0
    ensures Absorb(h, a + b) == Absorb(Absorb(h, a), b)
    decreases |a|
  {
    hide Compress;
    if a == [] {
      assert a + b == b;
    } else {
      assert |a| >= 64 && (a + b)[..64] == a[..64] && (a + b)[64..] == a[64..] + b;
      AbsorbSplit(Compress(h, a[..64]), a[64..], b);
    }
  }
}
