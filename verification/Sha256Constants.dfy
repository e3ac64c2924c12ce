/** Where the constants of SHA-256 come from (sections 4.2.2 and 5.3.3 of FIPS
    180-4), and what its logical functions do bit by bit (section 4.1.2). */
module Sha256Constants {
  import opened Sha256Spec

  // ---- the constants ---------------------------------------------------------------------------

  /** The first 64 primes, eight to a row. */
  const PRIMES: seq<seq<nat>> := [
    [2, 3, 5, 7, 11, 13, 17, 19],
    [23, 29, 31, 37, 41, 43, 47, 53],
    [59, 61, 67, 71, 73, 79, 83, 89],
    [97, 101, 103, 107, 109, 113, 127, 131],
    [137, 139, 149, 151, 157, 163, 167, 173],
    [179, 181, 191, 193, 197, 199, 211, 223],
    [227, 229, 233, 239, 241, 251, 257, 263],
    [269, 271, 277, 281, 283, 293, 307, 311]]

  function Prime(t: nat): (p: nat)
    requires t < 64
  {
    PRIMES[t / 8][t % 8]
  }

  function Number(w: Word): (n: nat) { w as nat }

  /** `x / 2^32` is at most the cube root of `p`. */
  predicate BelowCubeRoot(x: nat, p: nat) { x * x * x <= p * 0x1_0000_0000_0000_0000_0000_0000 }

  predicate BelowSquareRoot(x: nat, p: nat) { x * x <= p * 0x1_0000_0000_0000_0000 }

  /** `k` is the first 32 bits of the fraction of the cube root of `p`, whose whole
      part is `r`. */
  predicate CubeRootBits(k: nat, p: nat, r: nat) {
    var x := r * 0x1_0000_0000 + k; k < 0x1_0000_0000 && BelowCubeRoot(x, p) && !BelowCubeRoot(x + 1, p)
  }

  predicate SquareRootBits(k: nat, p: nat, r: nat) {
    var x := r * 0x1_0000_0000 + k; k < 0x1_0000_0000 && BelowSquareRoot(x, p) && !BelowSquareRoot(x + 1, p)
  }

  /** The whole part of the cube root of the `t`-th prime, counted from 0. */
  function Whole(t: nat): (r: nat) {
    if t < 4 then 1 else if t < 9 then 2 else if t < 18 then 3 else if t < 30 then 4 else if t < 47 then 5 else 6
  }

  lemma Cubes0()
    ensures CubeRootBits(0x428a2f98, 2, 1) && CubeRootBits(0x71374491, 3, 1)
    ensures CubeRootBits(0xb5c0fbcf, 5, 1) && CubeRootBits(0xe9b5dba5, 7, 1)
    ensures CubeRootBits(0x3956c25b, 11, 2) && CubeRootBits(0x59f111f1, 13, 2)
    ensures CubeRootBits(0x923f82a4, 17, 2) && CubeRootBits(0xab1c5ed5, 19, 2)
  {
  }

  lemma Words0()
    ensures K(0) == 0x428a2f98 && K(1) == 0x71374491 && K(2) == 0xb5c0fbcf && K(3) == 0xe9b5dba5
    ensures K(4) == 0x3956c25b && K(5) == 0x59f111f1 && K(6) == 0x923f82a4 && K(7) == 0xab1c5ed5
  {
  }

  lemma Numbers0()
    ensures Number(0x428a2f98) == 0x428a2f98 && Number(0x71374491) == 0x71374491
    ensures Number(0xb5c0fbcf) == 0xb5c0fbcf && Number(0xe9b5dba5) == 0xe9b5dba5
    ensures Number(0x3956c25b) == 0x3956c25b && Number(0x59f111f1) == 0x59f111f1
    ensures Number(0x923f82a4) == 0x923f82a4 && Number(0xab1c5ed5) == 0xab1c5ed5
  {
  }

  lemma Row0(t: nat)
    requires 0 <= t < 8
    ensures CubeRootBits(Number(K(t)), Prime(t), Whole(t))
  {
    hide Number, CubeRootBits, K;
    Cubes0();
    Words0();
    Numbers0();
  }

  lemma Cubes1()
    ensures CubeRootBits(0xd807aa98, 23, 2) && CubeRootBits(0x12835b01, 29, 3)
    ensures CubeRootBits(0x243185be, 31, 3) && CubeRootBits(0x550c7dc3, 37, 3)
    ensures CubeRootBits(0x72be5d74, 41, 3) && CubeRootBits(0x80deb1fe, 43, 3)
    ensures CubeRootBits(0x9bdc06a7, 47, 3) && CubeRootBits(0xc19bf174, 53, 3)
  {
  }

  lemma Words1()
    ensures K(8) == 0xd807aa98 && K(9) == 0x12835b01 && K(10) == 0x243185be && K(11) == 0x550c7dc3
    ensures K(12) == 0x72be5d74 && K(13) == 0x80deb1fe && K(14) == 0x9bdc06a7 && K(15) == 0xc19bf174
  {
  }

  lemma Numbers1()
    ensures Number(0xd807aa98) == 0xd807aa98 && Number(0x12835b01) == 0x12835b01
    ensures Number(0x243185be) == 0x243185be && Number(0x550c7dc3) == 0x550c7dc3
    ensures Number(0x72be5d74) == 0x72be5d74 && Number(0x80deb1fe) == 0x80deb1fe
    ensures Number(0x9bdc06a7) == 0x9bdc06a7 && Number(0xc19bf174) == 0xc19bf174
  {
  }

  lemma Row1(t: nat)
    requires 8 <= t < 16
    ensures CubeRootBits(Number(K(t)), Prime(t), Whole(t))
  {
    hide Number, CubeRootBits, K;
    Cubes1();
    Words1();
    Numbers1();
  }

  lemma Cubes2()
    ensures CubeRootBits(0xe49b69c1, 59, 3) && CubeRootBits(0xefbe4786, 61, 3)
    ensures CubeRootBits(0x0fc19dc6, 67, 4) && CubeRootBits(0x240ca1cc, 71, 4)
    ensures CubeRootBits(0x2de92c6f, 73, 4) && CubeRootBits(0x4a7484aa, 79, 4)
    ensures CubeRootBits(0x5cb0a9dc, 83, 4) && CubeRootBits(0x76f988da, 89, 4)
  {
  }

  lemma Words2()
    ensures K(16) == 0xe49b69c1 && K(17) == 0xefbe4786 && K(18) == 0x0fc19dc6 && K(19) == 0x240ca1cc
    ensures K(20) == 0x2de92c6f && K(21) == 0x4a7484aa && K(22) == 0x5cb0a9dc && K(23) == 0x76f988da
  {
  }

  lemma Numbers2()
    ensures Number(0xe49b69c1) == 0xe49b69c1 && Number(0xefbe4786) == 0xefbe4786
    ensures Number(0x0fc19dc6) == 0x0fc19dc6 && Number(0x240ca1cc) == 0x240ca1cc
    ensures Number(0x2de92c6f) == 0x2de92c6f && Number(0x4a7484aa) == 0x4a7484aa
    ensures Number(0x5cb0a9dc) == 0x5cb0a9dc && Number(0x76f988da) == 0x76f988da
  {
  }

  lemma Row2(t: nat)
    requires 16 <= t < 24
    ensures CubeRootBits(Number(K(t)), Prime(t), Whole(t))
  {
    hide Number, CubeRootBits, K;
    Cubes2();
    Words2();
    Numbers2();
  }

  lemma Cubes3()
    ensures CubeRootBits(0x983e5152, 97, 4) && CubeRootBits(0xa831c66d, 101, 4)
    ensures CubeRootBits(0xb00327c8, 103, 4) && CubeRootBits(0xbf597fc7, 107, 4)
    ensures CubeRootBits(0xc6e00bf3, 109, 4) && CubeRootBits(0xd5a79147, 113, 4)
    ensures CubeRootBits(0x06ca6351, 127, 5) && CubeRootBits(0x14292967, 131, 5)
  {
  }

  lemma Words3()
    ensures K(24) == 0x983e5152 && K(25) == 0xa831c66d && K(26) == 0xb00327c8 && K(27) == 0xbf597fc7
    ensures K(28) == 0xc6e00bf3 && K(29) == 0xd5a79147 && K(30) == 0x06ca6351 && K(31) == 0x14292967
  {
  }

  lemma Numbers3()
    ensures Number(0x983e5152) == 0x983e5152 && Number(0xa831c66d) == 0xa831c66d
    ensures Number(0xb00327c8) == 0xb00327c8 && Number(0xbf597fc7) == 0xbf597fc7
    ensures Number(0xc6e00bf3) == 0xc6e00bf3 && Number(0xd5a79147) == 0xd5a79147
    ensures Number(0x06ca6351) == 0x06ca6351 && Number(0x14292967) == 0x14292967
  {
  }

  lemma Row3(t: nat)
    requires 24 <= t < 32
    ensures CubeRootBits(Number(K(t)), Prime(t), Whole(t))
  {
    hide Number, CubeRootBits, K;
    Cubes3();
    Words3();
    Numbers3();
  }

  lemma Cubes4()
    ensures CubeRootBits(0x27b70a85, 137, 5) && CubeRootBits(0x2e1b2138, 139, 5)
    ensures CubeRootBits(0x4d2c6dfc, 149, 5) && CubeRootBits(0x53380d13, 151, 5)
    ensures CubeRootBits(0x650a7354, 157, 5) && CubeRootBits(0x766a0abb, 163, 5)
    ensures CubeRootBits(0x81c2c92e, 167, 5) && CubeRootBits(0x92722c85, 173, 5)
  {
  }

  lemma Words4()
    ensures K(32) == 0x27b70a85 && K(33) == 0x2e1b2138 && K(34) == 0x4d2c6dfc && K(35) == 0x53380d13
    ensures K(36) == 0x650a7354 && K(37) == 0x766a0abb && K(38) == 0x81c2c92e && K(39) == 0x92722c85
  {
  }

  lemma Numbers4()
    ensures Number(0x27b70a85) == 0x27b70a85 && Number(0x2e1b2138) == 0x2e1b2138
    ensures Number(0x4d2c6dfc) == 0x4d2c6dfc && Number(0x53380d13) == 0x53380d13
    ensures Number(0x650a7354) == 0x650a7354 && Number(0x766a0abb) == 0x766a0abb
    ensures Number(0x81c2c92e) == 0x81c2c92e && Number(0x92722c85) == 0x92722c85
  {
  }

  lemma Row4(t: nat)
    requires 32 <= t < 40
    ensures CubeRootBits(Number(K(t)), Prime(t), Whole(t))
  {
    hide Number, CubeRootBits, K;
    Cubes4();
    Words4();
    Numbers4();
  }

  lemma Cubes5()
    ensures CubeRootBits(0xa2bfe8a1, 179, 5) && CubeRootBits(0xa81a664b, 181, 5)
    ensures CubeRootBits(0xc24b8b70, 191, 5) && CubeRootBits(0xc76c51a3, 193, 5)
    ensures CubeRootBits(0xd192e819, 197, 5) && CubeRootBits(0xd6990624, 199, 5)
    ensures CubeRootBits(0xf40e3585, 211, 5) && CubeRootBits(0x106aa070, 223, 6)
  {
  }

  lemma Words5()
    ensures K(40) == 0xa2bfe8a1 && K(41) == 0xa81a664b && K(42) == 0xc24b8b70 && K(43) == 0xc76c51a3
    ensures K(44) == 0xd192e819 && K(45) == 0xd6990624 && K(46) == 0xf40e3585 && K(47) == 0x106aa070
  {
  }

  lemma Numbers5()
    ensures Number(0xa2bfe8a1) == 0xa2bfe8a1 && Number(0xa81a664b) == 0xa81a664b
    ensures Number(0xc24b8b70) == 0xc24b8b70 && Number(0xc76c51a3) == 0xc76c51a3
    ensures Number(0xd192e819) == 0xd192e819 && Number(0xd6990624) == 0xd6990624
    ensures Number(0xf40e3585) == 0xf40e3585 && Number(0x106aa070) == 0x106aa070
  {
  }

  lemma Row5(t: nat)
    requires 40 <= t < 48
    ensures CubeRootBits(Number(K(t)), Prime(t), Whole(t))
  {
    hide Number, CubeRootBits, K;
    Cubes5();
    Words5();
    Numbers5();
  }

  lemma Cubes6()
    ensures CubeRootBits(0x19a4c116, 227, 6) && CubeRootBits(0x1e376c08, 229, 6)
    ensures CubeRootBits(0x2748774c, 233, 6) && CubeRootBits(0x34b0bcb5, 239, 6)
    ensures CubeRootBits(0x391c0cb3, 241, 6) && CubeRootBits(0x4ed8aa4a, 251, 6)
    ensures CubeRootBits(0x5b9cca4f, 257, 6) && CubeRootBits(0x682e6ff3, 263, 6)
  {
  }

  lemma Words6()
    ensures K(48) == 0x19a4c116 && K(49) == 0x1e376c08 && K(50) == 0x2748774c && K(51) == 0x34b0bcb5
    ensures K(52) == 0x391c0cb3 && K(53) == 0x4ed8aa4a && K(54) == 0x5b9cca4f && K(55) == 0x682e6ff3
  {
  }

  lemma Numbers6()
    ensures Number(0x19a4c116) == 0x19a4c116 && Number(0x1e376c08) == 0x1e376c08
    ensures Number(0x2748774c) == 0x2748774c && Number(0x34b0bcb5) == 0x34b0bcb5
    ensures Number(0x391c0cb3) == 0x391c0cb3 && Number(0x4ed8aa4a) == 0x4ed8aa4a
    ensures Number(0x5b9cca4f) == 0x5b9cca4f && Number(0x682e6ff3) == 0x682e6ff3
  {
  }

  lemma Row6(t: nat)
    requires 48 <= t < 56
    ensures CubeRootBits(Number(K(t)), Prime(t), Whole(t))
  {
    hide Number, CubeRootBits, K;
    Cubes6();
    Words6();
    Numbers6();
  }

  lemma Cubes7()
    ensures CubeRootBits(0x748f82ee, 269, 6) && CubeRootBits(0x78a5636f, 271, 6)
    ensures CubeRootBits(0x84c87814, 277, 6) && CubeRootBits(0x8cc70208, 281, 6)
    ensures CubeRootBits(0x90befffa, 283, 6) && CubeRootBits(0xa4506ceb, 293, 6)
    ensures CubeRootBits(0xbef9a3f7, 307, 6) && CubeRootBits(0xc67178f2, 311, 6)
  {
  }

  lemma Words7()
    ensures K(56) == 0x748f82ee && K(57) == 0x78a5636f && K(58) == 0x84c87814 && K(59) == 0x8cc70208
    ensures K(60) == 0x90befffa && K(61) == 0xa4506ceb && K(62) == 0xbef9a3f7 && K(63) == 0xc67178f2
  {
  }

  lemma Numbers7()
    ensures Number(0x748f82ee) == 0x748f82ee && Number(0x78a5636f) == 0x78a5636f
    ensures Number(0x84c87814) == 0x84c87814 && Number(0x8cc70208) == 0x8cc70208
    ensures Number(0x90befffa) == 0x90befffa && Number(0xa4506ceb) == 0xa4506ceb
    ensures Number(0xbef9a3f7) == 0xbef9a3f7 && Number(0xc67178f2) == 0xc67178f2
  {
  }

  lemma Row7(t: nat)
    requires 56 <= t < 64
    ensures CubeRootBits(Number(K(t)), Prime(t), Whole(t))
  {
    hide Number, CubeRootBits, K;
    Cubes7();
    Words7();
    Numbers7();
  }

  /** Constant `t` of the rounds is the first 32 bits of the fraction of the cube
      root of the `t`-th prime. */
  lemma RoundConstants(t: nat)
    requires t < 64
    ensures CubeRootBits(Number(K(t)), Prime(t), Whole(t))
  {
    hide Number, CubeRootBits, K, Prime, Whole;
    if t < 8 { Row0(t); } else if t < 16 { Row1(t); } else if t < 24 { Row2(t); } else if t < 32 { Row3(t); }
    else if t < 40 { Row4(t); } else if t < 48 { Row5(t); } else if t < 56 { Row6(t); } else { Row7(t); }
  }

  /** The initial hash value is made of the square roots of the first eight. */
  lemma InitialWords()
    ensures SquareRootBits(Number(H0.a), 2, 1) && SquareRootBits(Number(H0.b), 3, 1)
    ensures SquareRootBits(Number(H0.c), 5, 2) && SquareRootBits(Number(H0.d), 7, 2)
    ensures SquareRootBits(Number(H0.e), 11, 3) && SquareRootBits(Number(H0.f), 13, 3)
    ensures SquareRootBits(Number(H0.g), 17, 4) && SquareRootBits(Number(H0.h), 19, 4)
  {
    assert SquareRootBits(0x6a09e667, 2, 1);
    assert SquareRootBits(0xbb67ae85, 3, 1);
    assert SquareRootBits(0x3c6ef372, 5, 2);
    assert SquareRootBits(0xa54ff53a, 7, 2);
    assert SquareRootBits(0x510e527f, 11, 3);
    assert SquareRootBits(0x9b05688c, 13, 3);
    assert SquareRootBits(0x1f83d9ab, 17, 4);
    assert SquareRootBits(0x5be0cd19, 19, 4);
  }

  // ---- the functions -----------------------------------------------------------------------------

  /** Where `x` has a one, the choice is `y`, and where it has a zero, `z`. */
  lemma ChChooses(x: Word, y: Word, z: Word)
    ensures Ch(x, y, z) & x == y & x && Ch(x, y, z) & !x == z & !x
  {
  }

  /** Where `x` and `y` agree, the majority is theirs, and where not, that of `z`. */
  lemma MajIsMajority(x: Word, y: Word, z: Word)
    ensures Maj(x, y, z) & !(x ^ y) == x & !(x ^ y) && Maj(x, y, z) & (x ^ y) == z & (x ^ y)
  {
  }

  /** Bit 0 is moved to the places 2, 13 and 22 and 6, 11 and 25 below it, round the
      word. */
  lemma BigSigmasOfOne()
    ensures BigSigma0(1) == 0x40080400 && BigSigma1(1) == 0x04200080
  {
  }

  /** The small ones shift bit 3 and bit 10 to the bottom, and the bits below them
      out. */
  lemma SigmasOfOne()
    ensures Sigma0(8) == 0x10020001 && Sigma1(0x400) == 0x02800001
    ensures Sigma0(4) == 0x08010000 && Sigma1(0x200) == 0x01400000
  {
  }
}
