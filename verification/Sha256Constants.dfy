/** Where the constants of SHA-256 come from: FIPS 180-4 takes the round constants from the cube roots of the first 64
    primes (section 4.2.2) and the initial hash value from the square roots of the first eight (section 5.3.3). */
module Sha256Constants {
  import opened Sha256Spec

  const PRIME_ROWS: seq<seq<nat>> := [
    [2, 3, 5, 7, 11, 13, 17, 19],
    [23, 29, 31, 37, 41, 43, 47, 53],
    [59, 61, 67, 71, 73, 79, 83, 89],
    [97, 101, 103, 107, 109, 113, 127, 131],
    [137, 139, 149, 151, 157, 163, 167, 173],
    [179, 181, 191, 193, 197, 199, 211, 223],
    [227, 229, 233, 239, 241, 251, 257, 263],
    [269, 271, 277, 281, 283, 293, 307, 311]
  ]

  /** The t-th prime. */
  function Prime(t: nat): nat
    requires t < 64
  {
    PRIME_ROWS[t / 8][t % 8]
  }

  /** k is the first 32 bits of the fractional part of the cube root of p. */
  ghost predicate IsCubeRootFraction(k: Word, p: nat) {
    exists n: nat :: IsScaledCubeRoot(n, p) && n % 0x1_0000_0000 == k as nat
  }

  /** n is 2^32 times the cube root of p, rounded down. */
  predicate IsScaledCubeRoot(n: nat, p: nat) {
    n * n * n <= p * 0x1_0000_0000_0000_0000_0000_0000 < (n + 1) * (n + 1) * (n + 1)
  }

  lemma Row0(j: nat)
    requires j < 8
    ensures IsCubeRootFraction(K_ROWS[0][j], PRIME_ROWS[0][j])
  {
    assert IsScaledCubeRoot(0x1_428a2f98, 2);
    assert IsScaledCubeRoot(0x1_71374491, 3);
    assert IsScaledCubeRoot(0x1_b5c0fbcf, 5);
    assert IsScaledCubeRoot(0x1_e9b5dba5, 7);
    assert IsScaledCubeRoot(0x2_3956c25b, 11);
    assert IsScaledCubeRoot(0x2_59f111f1, 13);
    assert IsScaledCubeRoot(0x2_923f82a4, 17);
    assert IsScaledCubeRoot(0x2_ab1c5ed5, 19);
  }

  lemma Row1(j: nat)
    requires j < 8
    ensures IsCubeRootFraction(K_ROWS[1][j], PRIME_ROWS[1][j])
  {
    assert IsScaledCubeRoot(0x2_d807aa98, 23);
    assert IsScaledCubeRoot(0x3_12835b01, 29);
    assert IsScaledCubeRoot(0x3_243185be, 31);
    assert IsScaledCubeRoot(0x3_550c7dc3, 37);
    assert IsScaledCubeRoot(0x3_72be5d74, 41);
    assert IsScaledCubeRoot(0x3_80deb1fe, 43);
    assert IsScaledCubeRoot(0x3_9bdc06a7, 47);
    assert IsScaledCubeRoot(0x3_c19bf174, 53);
  }

  lemma Row2(j: nat)
    requires j < 8
    ensures IsCubeRootFraction(K_ROWS[2][j], PRIME_ROWS[2][j])
  {
    assert IsScaledCubeRoot(0x3_e49b69c1, 59);
    assert IsScaledCubeRoot(0x3_efbe4786, 61);
    assert IsScaledCubeRoot(0x4_0fc19dc6, 67);
    assert IsScaledCubeRoot(0x4_240ca1cc, 71);
    assert IsScaledCubeRoot(0x4_2de92c6f, 73);
    assert IsScaledCubeRoot(0x4_4a7484aa, 79);
    assert IsScaledCubeRoot(0x4_5cb0a9dc, 83);
    assert IsScaledCubeRoot(0x4_76f988da, 89);
  }

  lemma Row3(j: nat)
    requires j < 8
    ensures IsCubeRootFraction(K_ROWS[3][j], PRIME_ROWS[3][j])
  {
    assert IsScaledCubeRoot(0x4_983e5152, 97);
    assert IsScaledCubeRoot(0x4_a831c66d, 101);
    assert IsScaledCubeRoot(0x4_b00327c8, 103);
    assert IsScaledCubeRoot(0x4_bf597fc7, 107);
    assert IsScaledCubeRoot(0x4_c6e00bf3, 109);
    assert IsScaledCubeRoot(0x4_d5a79147, 113);
    assert IsScaledCubeRoot(0x5_06ca6351, 127);
    assert IsScaledCubeRoot(0x5_14292967, 131);
  }

  lemma Row4(j: nat)
    requires j < 8
    ensures IsCubeRootFraction(K_ROWS[4][j], PRIME_ROWS[4][j])
  {
    assert IsScaledCubeRoot(0x5_27b70a85, 137);
    assert IsScaledCubeRoot(0x5_2e1b2138, 139);
    assert IsScaledCubeRoot(0x5_4d2c6dfc, 149);
    assert IsScaledCubeRoot(0x5_53380d13, 151);
    assert IsScaledCubeRoot(0x5_650a7354, 157);
    assert IsScaledCubeRoot(0x5_766a0abb, 163);
    assert IsScaledCubeRoot(0x5_81c2c92e, 167);
    assert IsScaledCubeRoot(0x5_92722c85, 173);
  }

  lemma Row5(j: nat)
    requires j < 8
    ensures IsCubeRootFraction(K_ROWS[5][j], PRIME_ROWS[5][j])
  {
    assert IsScaledCubeRoot(0x5_a2bfe8a1, 179);
    assert IsScaledCubeRoot(0x5_a81a664b, 181);
    assert IsScaledCubeRoot(0x5_c24b8b70, 191);
    assert IsScaledCubeRoot(0x5_c76c51a3, 193);
    assert IsScaledCubeRoot(0x5_d192e819, 197);
    assert IsScaledCubeRoot(0x5_d6990624, 199);
    assert IsScaledCubeRoot(0x5_f40e3585, 211);
    assert IsScaledCubeRoot(0x6_106aa070, 223);
  }

  lemma Row6(j: nat)
    requires j < 8
    ensures IsCubeRootFraction(K_ROWS[6][j], PRIME_ROWS[6][j])
  {
    assert IsScaledCubeRoot(0x6_19a4c116, 227);
    assert IsScaledCubeRoot(0x6_1e376c08, 229);
    assert IsScaledCubeRoot(0x6_2748774c, 233);
    assert IsScaledCubeRoot(0x6_34b0bcb5, 239);
    assert IsScaledCubeRoot(0x6_391c0cb3, 241);
    assert IsScaledCubeRoot(0x6_4ed8aa4a, 251);
    assert IsScaledCubeRoot(0x6_5b9cca4f, 257);
    assert IsScaledCubeRoot(0x6_682e6ff3, 263);
  }

  lemma Row7(j: nat)
    requires j < 8
    ensures IsCubeRootFraction(K_ROWS[7][j], PRIME_ROWS[7][j])
  {
    assert IsScaledCubeRoot(0x6_748f82ee, 269);
    assert IsScaledCubeRoot(0x6_78a5636f, 271);
    assert IsScaledCubeRoot(0x6_84c87814, 277);
    assert IsScaledCubeRoot(0x6_8cc70208, 281);
    assert IsScaledCubeRoot(0x6_90befffa, 283);
    assert IsScaledCubeRoot(0x6_a4506ceb, 293);
    assert IsScaledCubeRoot(0x6_bef9a3f7, 307);
    assert IsScaledCubeRoot(0x6_c67178f2, 311);
  }

  /** Every round constant is the one of the standard. */
  lemma RoundConstants(t: nat)
    requires t < 64
    ensures IsCubeRootFraction(K(t), Prime(t))
  {
    hide IsCubeRootFraction;
    match t / 8
    case 0 => Row0(t % 8);
    case 1 => Row1(t % 8);
    case 2 => Row2(t % 8);
    case 3 => Row3(t % 8);
    case 4 => Row4(t % 8);
    case 5 => Row5(t % 8);
    case 6 => Row6(t % 8);
    case 7 => Row7(t % 8);
  }

  ghost predicate IsSquareRootFraction(h: Word, p: nat) {
    exists n: nat :: IsScaledSquareRoot(n, p) && n % 0x1_0000_0000 == h as nat
  }

  /** n is 2^32 times the square root of p, rounded down. */
  predicate IsScaledSquareRoot(n: nat, p: nat) {
    n * n <= p * 0x1_0000_0000_0000_0000 < (n + 1) * (n + 1)
  }

  /** The initial hash value is the one of the standard. */
  lemma InitialHash()
    ensures IsSquareRootFraction(H0.a, Prime(0)) && IsSquareRootFraction(H0.b, Prime(1))
    ensures IsSquareRootFraction(H0.c, Prime(2)) && IsSquareRootFraction(H0.d, Prime(3))
    ensures IsSquareRootFraction(H0.e, Prime(4)) && IsSquareRootFraction(H0.f, Prime(5))
    ensures IsSquareRootFraction(H0.g, Prime(6)) && IsSquareRootFraction(H0.h, Prime(7))
  {
    assert IsScaledSquareRoot(0x1_6a09e667, 2) && IsScaledSquareRoot(0x1_bb67ae85, 3);
    assert IsScaledSquareRoot(0x2_3c6ef372, 5) && IsScaledSquareRoot(0x2_a54ff53a, 7);
    assert IsScaledSquareRoot(0x3_510e527f, 11) && IsScaledSquareRoot(0x3_9b05688c, 13);
    assert IsScaledSquareRoot(0x4_1f83d9ab, 17) && IsScaledSquareRoot(0x4_5be0cd19, 19);
  }
}
