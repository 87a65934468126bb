/** The hashing helpers of core/hash.cpp: splitting and combining 64-bit
    words, integer mixers, the Jenkins mix, the two simpleHash overloads
    and the text form of Hash128. uint64_t and uint32_t are bv64 and bv32,
    whose arithmetic wraps as the C++ does. */
module Hash {
  import opened Wrappers
  import opened Numbers

  // ---------------------------------------------------------------------
  // bits

  /** Hash::highBits (hash.cpp:12-15). */
  function HighBits(x: bv64): bv32 {
    ((x >> 32) & 0xFFFF_FFFF) as bv32
  }

  /** Hash::lowBits (hash.cpp:17-20). */
  function LowBits(x: bv64): bv32 {
    (x & 0xFFFF_FFFF) as bv32
  }

  /** Hash::combine (hash.cpp:22-25). */
  function Combine(hi: bv32, lo: bv32): bv64 {
    ((hi as bv64) << 32) | (lo as bv64)
  }

  /** Splitting a word into halves and combining them are inverse. */
  lemma CombineSplit(x: bv64, hi: bv32, lo: bv32)
    ensures Combine(HighBits(x), LowBits(x)) == x
    ensures HighBits(Combine(hi, lo)) == hi
    ensures LowBits(Combine(hi, lo)) == lo
  {
  }

  // ---------------------------------------------------------------------
  // the steps the mixers are built of
  //
  // Each mixer is a composition of three kinds of step, each a bijection
  // on 64-bit words: a wrapping multiplication by an odd constant, an
  // addition of a constant, and x ^ (x >> s).

  /** x *= k on a uint64_t. */
  function Mul(x: bv64, k: bv64): bv64 {
    x * k
  }

  /** x ^= x >> s on a uint64_t. */
  function XorShift(x: bv64, s: bv64): bv64
    requires s < 64
  {
    x ^ (x >> s)
  }

  /** The inverse of XorShift(., s) for 22 <= s < 64: y ^ (y >> s) ^
      (y >> 2s) ^ ..., while the shift stays inside the word. */
  function UnXorShift(y: bv64, s: bv64): bv64
    requires 22 <= s < 64
  {
    y ^ (y >> s) ^ (if 2 * s < 64 then y >> (2 * s) else 0)
      ^ (if 3 * s < 64 then y >> (3 * s) else 0)
  }

  lemma XorShiftUnfold(x: bv64, s: bv64)
    requires s < 64
    ensures XorShift(x, s) == x ^ (x >> s)
  {
  }

  lemma UnXorShift27Fold(x: bv64)
    ensures UnXorShift(x ^ (x >> 27), 27) == x
  {
  }

  lemma UnXorShift28Fold(x: bv64)
    ensures UnXorShift(x ^ (x >> 28), 28) == x
  {
  }

  lemma UnXorShift30Fold(x: bv64)
    ensures UnXorShift(x ^ (x >> 30), 30) == x
  {
  }

  lemma UnXorShift31Fold(x: bv64)
    ensures UnXorShift(x ^ (x >> 31), 31) == x
  {
  }

  lemma UnXorShift33Fold(x: bv64)
    ensures UnXorShift(x ^ (x >> 33), 33) == x
  {
  }

  /** Each xor-shift the mixers use is undone by UnXorShift. */
  lemma XorShift27Inverse(x: bv64)
    ensures UnXorShift(XorShift(x, 27), 27) == x
  {
    XorShiftUnfold(x, 27);
    UnXorShift27Fold(x);
  }

  lemma XorShift28Inverse(x: bv64)
    ensures UnXorShift(XorShift(x, 28), 28) == x
  {
    XorShiftUnfold(x, 28);
    UnXorShift28Fold(x);
  }

  lemma XorShift30Inverse(x: bv64)
    ensures UnXorShift(XorShift(x, 30), 30) == x
  {
    XorShiftUnfold(x, 30);
    UnXorShift30Fold(x);
  }

  lemma XorShift31Inverse(x: bv64)
    ensures UnXorShift(XorShift(x, 31), 31) == x
  {
    XorShiftUnfold(x, 31);
    UnXorShift31Fold(x);
  }

  lemma XorShift33Inverse(x: bv64)
    ensures UnXorShift(XorShift(x, 33), 33) == x
  {
    XorShiftUnfold(x, 33);
    UnXorShift33Fold(x);
  }

  lemma MulUnfold(x: bv64, k: bv64)
    ensures Mul(x, k) == x * k
  {
  }

  lemma MulFold1(x: bv64)
    ensures Mul(x * 0xff51_afd7_ed55_8ccd, 0x4f74_430c_22a5_4005) == x
  {
  }

  lemma MulFold2(x: bv64)
    ensures Mul(x * 0xc4ce_b9fe_1a85_ec53, 0x9cb4_b2f8_1293_37db) == x
  {
  }

  lemma MulFold3(x: bv64)
    ensures Mul(x * 0xbf58_476d_1ce4_e5b9, 0x96de_1b17_3f11_9089) == x
  {
  }

  lemma MulFold4(x: bv64)
    ensures Mul(x * 0x94d0_49bb_1331_11eb, 0x3196_42b2_d24d_8ec3) == x
  {
  }

  lemma MulFold5(x: bv64)
    ensures Mul(x * 0x9fb2_1c65_1e98_df25, 0x2ab9_c720_d102_4ad) == x
  {
  }

  /** The multipliers of murmurMix, splitMix64 and rrmxmx are odd, so each
      has an inverse modulo 2^64 that undoes the multiplication. */
  lemma Mul1Inverse(x: bv64)
    ensures Mul(Mul(x, 0xff51_afd7_ed55_8ccd), 0x4f74_430c_22a5_4005) == x
  {
    MulUnfold(x, 0xff51_afd7_ed55_8ccd);
    MulFold1(x);
  }

  lemma Mul2Inverse(x: bv64)
    ensures Mul(Mul(x, 0xc4ce_b9fe_1a85_ec53), 0x9cb4_b2f8_1293_37db) == x
  {
    MulUnfold(x, 0xc4ce_b9fe_1a85_ec53);
    MulFold2(x);
  }

  lemma Mul3Inverse(x: bv64)
    ensures Mul(Mul(x, 0xbf58_476d_1ce4_e5b9), 0x96de_1b17_3f11_9089) == x
  {
    MulUnfold(x, 0xbf58_476d_1ce4_e5b9);
    MulFold3(x);
  }

  lemma Mul4Inverse(x: bv64)
    ensures Mul(Mul(x, 0x94d0_49bb_1331_11eb), 0x3196_42b2_d24d_8ec3) == x
  {
    MulUnfold(x, 0x94d0_49bb_1331_11eb);
    MulFold4(x);
  }

  lemma Mul5Inverse(x: bv64)
    ensures Mul(Mul(x, 0x9fb2_1c65_1e98_df25), 0x2ab9_c720_d102_4ad) == x
  {
    MulUnfold(x, 0x9fb2_1c65_1e98_df25);
    MulFold5(x);
  }

  // ---------------------------------------------------------------------
  // linear congruential steps

  /** Hash::basicLCong (hash.cpp:28-31). */
  function BasicLCong(x: bv64): bv64 {
    2862933555777941757 * x + 3037000493
  }

  /** Hash::basicLCong2 (hash.cpp:33-36). */
  function BasicLCong2(x: bv64): bv64 {
    6364136223846793005 * x + 1442695040888963407
  }

  /** Subtracting the increment and multiplying by the inverse of the odd
      multiplier undo each step. */
  function BasicLCongInverse(y: bv64): bv64 {
    (y - 3037000493) * 0xdfe6_6807_999c_ec55
  }

  function BasicLCong2Inverse(y: bv64): bv64 {
    (y - 1442695040888963407) * 0xc097_ef87_329e_28a5
  }

  lemma BasicLCongUnfold(x: bv64)
    ensures BasicLCong(x) == 2862933555777941757 * x + 3037000493
  {
  }

  lemma BasicLCongFold(x: bv64)
    ensures BasicLCongInverse(2862933555777941757 * x + 3037000493) == x
  {
  }

  lemma BasicLCong2Unfold(x: bv64)
    ensures BasicLCong2(x) == 6364136223846793005 * x + 1442695040888963407
  {
  }

  lemma BasicLCong2Fold(x: bv64)
    ensures BasicLCong2Inverse(6364136223846793005 * x + 1442695040888963407) == x
  {
  }

  lemma BasicLCongInverseUnfold(x: bv64)
    ensures BasicLCongInverse(x) == (x - 3037000493) * 0xdfe6_6807_999c_ec55
  {
  }

  lemma BasicLCongInverseFold(x: bv64)
    ensures BasicLCong((x - 3037000493) * 0xdfe6_6807_999c_ec55) == x
  {
  }

  lemma BasicLCong2InverseUnfold(x: bv64)
    ensures BasicLCong2Inverse(x) == (x - 1442695040888963407) * 0xc097_ef87_329e_28a5
  {
  }

  lemma BasicLCong2InverseFold(x: bv64)
    ensures BasicLCong2((x - 1442695040888963407) * 0xc097_ef87_329e_28a5) == x
  {
  }

  /** Both congruential steps are bijections on 64-bit words. */
  lemma BasicLCongBijective(x: bv64)
    ensures BasicLCongInverse(BasicLCong(x)) == x
    ensures BasicLCong(BasicLCongInverse(x)) == x
    ensures BasicLCong2Inverse(BasicLCong2(x)) == x
    ensures BasicLCong2(BasicLCong2Inverse(x)) == x
  {
    BasicLCongUnfold(x);
    BasicLCongFold(x);
    BasicLCongInverseUnfold(x);
    BasicLCongInverseFold(x);
    BasicLCong2Unfold(x);
    BasicLCong2Fold(x);
    BasicLCong2InverseUnfold(x);
    BasicLCong2InverseFold(x);
  }

  // ---------------------------------------------------------------------
  // mixers

  /** Hash::murmurMix (hash.cpp:40-48), the MurmurHash3 finaliser. */
  function MurmurMix(x: bv64): bv64 {
    var x := XorShift(x, 33);
    var x := Mul(x, 0xff51_afd7_ed55_8ccd);
    var x := XorShift(x, 33);
    var x := Mul(x, 0xc4ce_b9fe_1a85_ec53);
    XorShift(x, 33)
  }

  /** The steps of murmurMix undone in reverse order. */
  function MurmurUnmix(y: bv64): bv64 {
    var y := UnXorShift(y, 33);
    var y := Mul(y, 0x9cb4_b2f8_1293_37db);
    var y := UnXorShift(y, 33);
    var y := Mul(y, 0x4f74_430c_22a5_4005);
    UnXorShift(y, 33)
  }

  /** murmurMix is invertible and maps 0 to 0 (hash.cpp:38-39). */
  lemma MurmurMixInvertible(x: bv64)
    ensures MurmurUnmix(MurmurMix(x)) == x
    ensures MurmurMix(0) == 0
  {
    var a := XorShift(x, 33);
    var b := XorShift(Mul(a, 0xff51_afd7_ed55_8ccd), 33);
    XorShift33Inverse(Mul(b, 0xc4ce_b9fe_1a85_ec53));
    Mul2Inverse(b);
    XorShift33Inverse(Mul(a, 0xff51_afd7_ed55_8ccd));
    Mul1Inverse(a);
    XorShift33Inverse(x);
  }

  /** Hash::splitMix64 (hash.cpp:51-57). */
  function SplitMix64(x: bv64): bv64 {
    var x := x + 0x9e37_79b9_7f4a_7c15;
    var x := Mul(XorShift(x, 30), 0xbf58_476d_1ce4_e5b9);
    var x := Mul(XorShift(x, 27), 0x94d0_49bb_1331_11eb);
    XorShift(x, 31)
  }

  /** The steps of splitMix64 undone in reverse order. */
  function SplitUnmix64(y: bv64): bv64 {
    var y := UnXorShift(y, 31);
    var y := UnXorShift(Mul(y, 0x3196_42b2_d24d_8ec3), 27);
    var y := UnXorShift(Mul(y, 0x96de_1b17_3f11_9089), 30);
    y - 0x9e37_79b9_7f4a_7c15
  }

  /** splitMix64 is a bijection on 64-bit words; from 0 it gives the first
      output of the SplitMix64 generator seeded with 0. */
  lemma SplitMix64Invertible(x: bv64)
    ensures SplitUnmix64(SplitMix64(x)) == x
    ensures SplitMix64(0) == 0xe220_a839_7b1d_cdaf
  {
    var a := x + 0x9e37_79b9_7f4a_7c15;
    var b := Mul(XorShift(a, 30), 0xbf58_476d_1ce4_e5b9);
    XorShift31Inverse(Mul(XorShift(b, 27), 0x94d0_49bb_1331_11eb));
    Mul4Inverse(XorShift(b, 27));
    XorShift27Inverse(b);
    Mul3Inverse(XorShift(a, 30));
    XorShift30Inverse(a);
  }

  /** rotateRight (hash.cpp:60-63), for the amounts 0 < r < 64 at which
      both of its shifts are defined in C++. */
  function RotateRight(x: bv64, r: bv64): bv64
    requires 0 < r < 64
  {
    (x >> r) | (x << (64 - r))
  }

  /** rotateRight at each fixed amount, spelled out; grouped so that every
      group is a small proof. */
  lemma RotateRightUnfold0(x: bv64)
    ensures RotateRight(x, 1) == (x >> 1) | (x << 63)
    ensures RotateRight(x, 2) == (x >> 2) | (x << 62)
    ensures RotateRight(x, 3) == (x >> 3) | (x << 61)
    ensures RotateRight(x, 4) == (x >> 4) | (x << 60)
    ensures RotateRight(x, 5) == (x >> 5) | (x << 59)
    ensures RotateRight(x, 6) == (x >> 6) | (x << 58)
    ensures RotateRight(x, 7) == (x >> 7) | (x << 57)
    ensures RotateRight(x, 8) == (x >> 8) | (x << 56)
    ensures RotateRight(x, 9) == (x >> 9) | (x << 55)
    ensures RotateRight(x, 10) == (x >> 10) | (x << 54)
    ensures RotateRight(x, 11) == (x >> 11) | (x << 53)
    ensures RotateRight(x, 12) == (x >> 12) | (x << 52)
    ensures RotateRight(x, 13) == (x >> 13) | (x << 51)
    ensures RotateRight(x, 14) == (x >> 14) | (x << 50)
    ensures RotateRight(x, 15) == (x >> 15) | (x << 49)
    ensures RotateRight(x, 16) == (x >> 16) | (x << 48)
  {
  }

  lemma RotateRightUnfold1(x: bv64)
    ensures RotateRight(x, 17) == (x >> 17) | (x << 47)
    ensures RotateRight(x, 18) == (x >> 18) | (x << 46)
    ensures RotateRight(x, 19) == (x >> 19) | (x << 45)
    ensures RotateRight(x, 20) == (x >> 20) | (x << 44)
    ensures RotateRight(x, 21) == (x >> 21) | (x << 43)
    ensures RotateRight(x, 22) == (x >> 22) | (x << 42)
    ensures RotateRight(x, 23) == (x >> 23) | (x << 41)
    ensures RotateRight(x, 24) == (x >> 24) | (x << 40)
    ensures RotateRight(x, 25) == (x >> 25) | (x << 39)
    ensures RotateRight(x, 26) == (x >> 26) | (x << 38)
    ensures RotateRight(x, 27) == (x >> 27) | (x << 37)
    ensures RotateRight(x, 28) == (x >> 28) | (x << 36)
    ensures RotateRight(x, 29) == (x >> 29) | (x << 35)
    ensures RotateRight(x, 30) == (x >> 30) | (x << 34)
    ensures RotateRight(x, 31) == (x >> 31) | (x << 33)
    ensures RotateRight(x, 32) == (x >> 32) | (x << 32)
  {
  }

  lemma RotateRightUnfold2(x: bv64)
    ensures RotateRight(x, 33) == (x >> 33) | (x << 31)
    ensures RotateRight(x, 34) == (x >> 34) | (x << 30)
    ensures RotateRight(x, 35) == (x >> 35) | (x << 29)
    ensures RotateRight(x, 36) == (x >> 36) | (x << 28)
    ensures RotateRight(x, 37) == (x >> 37) | (x << 27)
    ensures RotateRight(x, 38) == (x >> 38) | (x << 26)
    ensures RotateRight(x, 39) == (x >> 39) | (x << 25)
    ensures RotateRight(x, 40) == (x >> 40) | (x << 24)
    ensures RotateRight(x, 41) == (x >> 41) | (x << 23)
    ensures RotateRight(x, 42) == (x >> 42) | (x << 22)
    ensures RotateRight(x, 43) == (x >> 43) | (x << 21)
    ensures RotateRight(x, 44) == (x >> 44) | (x << 20)
    ensures RotateRight(x, 45) == (x >> 45) | (x << 19)
    ensures RotateRight(x, 46) == (x >> 46) | (x << 18)
    ensures RotateRight(x, 47) == (x >> 47) | (x << 17)
    ensures RotateRight(x, 48) == (x >> 48) | (x << 16)
  {
  }

  lemma RotateRightUnfold3(x: bv64)
    ensures RotateRight(x, 49) == (x >> 49) | (x << 15)
    ensures RotateRight(x, 50) == (x >> 50) | (x << 14)
    ensures RotateRight(x, 51) == (x >> 51) | (x << 13)
    ensures RotateRight(x, 52) == (x >> 52) | (x << 12)
    ensures RotateRight(x, 53) == (x >> 53) | (x << 11)
    ensures RotateRight(x, 54) == (x >> 54) | (x << 10)
    ensures RotateRight(x, 55) == (x >> 55) | (x << 9)
    ensures RotateRight(x, 56) == (x >> 56) | (x << 8)
    ensures RotateRight(x, 57) == (x >> 57) | (x << 7)
    ensures RotateRight(x, 58) == (x >> 58) | (x << 6)
    ensures RotateRight(x, 59) == (x >> 59) | (x << 5)
    ensures RotateRight(x, 60) == (x >> 60) | (x << 4)
    ensures RotateRight(x, 61) == (x >> 61) | (x << 3)
    ensures RotateRight(x, 62) == (x >> 62) | (x << 2)
    ensures RotateRight(x, 63) == (x >> 63) | (x << 1)
  {
  }

  /** Rotating a spelled-out rotation back, at each fixed amount. */
  lemma RotateRightFold0(x: bv64)
    ensures RotateRight((x >> 1) | (x << 63), 63) == x
    ensures RotateRight((x >> 2) | (x << 62), 62) == x
    ensures RotateRight((x >> 3) | (x << 61), 61) == x
    ensures RotateRight((x >> 4) | (x << 60), 60) == x
    ensures RotateRight((x >> 5) | (x << 59), 59) == x
    ensures RotateRight((x >> 6) | (x << 58), 58) == x
    ensures RotateRight((x >> 7) | (x << 57), 57) == x
    ensures RotateRight((x >> 8) | (x << 56), 56) == x
    ensures RotateRight((x >> 9) | (x << 55), 55) == x
    ensures RotateRight((x >> 10) | (x << 54), 54) == x
    ensures RotateRight((x >> 11) | (x << 53), 53) == x
    ensures RotateRight((x >> 12) | (x << 52), 52) == x
    ensures RotateRight((x >> 13) | (x << 51), 51) == x
    ensures RotateRight((x >> 14) | (x << 50), 50) == x
    ensures RotateRight((x >> 15) | (x << 49), 49) == x
    ensures RotateRight((x >> 16) | (x << 48), 48) == x
  {
  }

  lemma RotateRightFold1(x: bv64)
    ensures RotateRight((x >> 17) | (x << 47), 47) == x
    ensures RotateRight((x >> 18) | (x << 46), 46) == x
    ensures RotateRight((x >> 19) | (x << 45), 45) == x
    ensures RotateRight((x >> 20) | (x << 44), 44) == x
    ensures RotateRight((x >> 21) | (x << 43), 43) == x
    ensures RotateRight((x >> 22) | (x << 42), 42) == x
    ensures RotateRight((x >> 23) | (x << 41), 41) == x
    ensures RotateRight((x >> 24) | (x << 40), 40) == x
    ensures RotateRight((x >> 25) | (x << 39), 39) == x
    ensures RotateRight((x >> 26) | (x << 38), 38) == x
    ensures RotateRight((x >> 27) | (x << 37), 37) == x
    ensures RotateRight((x >> 28) | (x << 36), 36) == x
    ensures RotateRight((x >> 29) | (x << 35), 35) == x
    ensures RotateRight((x >> 30) | (x << 34), 34) == x
    ensures RotateRight((x >> 31) | (x << 33), 33) == x
    ensures RotateRight((x >> 32) | (x << 32), 32) == x
  {
  }

  lemma RotateRightFold2(x: bv64)
    ensures RotateRight((x >> 33) | (x << 31), 31) == x
    ensures RotateRight((x >> 34) | (x << 30), 30) == x
    ensures RotateRight((x >> 35) | (x << 29), 29) == x
    ensures RotateRight((x >> 36) | (x << 28), 28) == x
    ensures RotateRight((x >> 37) | (x << 27), 27) == x
    ensures RotateRight((x >> 38) | (x << 26), 26) == x
    ensures RotateRight((x >> 39) | (x << 25), 25) == x
    ensures RotateRight((x >> 40) | (x << 24), 24) == x
    ensures RotateRight((x >> 41) | (x << 23), 23) == x
    ensures RotateRight((x >> 42) | (x << 22), 22) == x
    ensures RotateRight((x >> 43) | (x << 21), 21) == x
    ensures RotateRight((x >> 44) | (x << 20), 20) == x
    ensures RotateRight((x >> 45) | (x << 19), 19) == x
    ensures RotateRight((x >> 46) | (x << 18), 18) == x
    ensures RotateRight((x >> 47) | (x << 17), 17) == x
    ensures RotateRight((x >> 48) | (x << 16), 16) == x
  {
  }

  lemma RotateRightFold3(x: bv64)
    ensures RotateRight((x >> 49) | (x << 15), 15) == x
    ensures RotateRight((x >> 50) | (x << 14), 14) == x
    ensures RotateRight((x >> 51) | (x << 13), 13) == x
    ensures RotateRight((x >> 52) | (x << 12), 12) == x
    ensures RotateRight((x >> 53) | (x << 11), 11) == x
    ensures RotateRight((x >> 54) | (x << 10), 10) == x
    ensures RotateRight((x >> 55) | (x << 9), 9) == x
    ensures RotateRight((x >> 56) | (x << 8), 8) == x
    ensures RotateRight((x >> 57) | (x << 7), 7) == x
    ensures RotateRight((x >> 58) | (x << 6), 6) == x
    ensures RotateRight((x >> 59) | (x << 5), 5) == x
    ensures RotateRight((x >> 60) | (x << 4), 4) == x
    ensures RotateRight((x >> 61) | (x << 3), 3) == x
    ensures RotateRight((x >> 62) | (x << 2), 2) == x
    ensures RotateRight((x >> 63) | (x << 1), 1) == x
  {
  }

  /** Rotating right by r and then by 64 - r gives x back, for every
      amount 0 < r < 64 at which rotateRight is defined. */
  lemma RotateRightInverse(x: bv64, r: bv64)
    requires 0 < r < 64
    ensures RotateRight(RotateRight(x, r), 64 - r) == x
  {
    if r <= 16 {
      RotateRightUnfold0(x);
      RotateRightFold0(x);
    } else if r <= 32 {
      RotateRightUnfold1(x);
      RotateRightFold1(x);
    } else if r <= 48 {
      RotateRightUnfold2(x);
      RotateRightFold2(x);
    } else {
      RotateRightUnfold3(x);
      RotateRightFold3(x);
    }
  }

  /** Hash::rrmxmx (hash.cpp:66-82): a rotating xor step, then the
      multiply and xor-shift steps of RrmxmxTail. */
  function Rrmxmx(x: bv64): bv64 {
    RrmxmxTail(x ^ (RotateRight(x, 49) ^ RotateRight(x, 24)))
  }

  /** The steps of rrmxmx after the rotations: multiply by an odd
      constant, xor-shift by 28, twice. */
  function RrmxmxTail(a: bv64): bv64 {
    var x := Mul(a, 0x9fb2_1c65_1e98_df25);
    var x := XorShift(x, 28);
    var x := Mul(x, 0x9fb2_1c65_1e98_df25);
    XorShift(x, 28)
  }

  /** Hash::nasam (hash.cpp:87-101). */
  function Nasam(x: bv64): bv64 {
    var x := x ^ (RotateRight(x, 25) ^ RotateRight(x, 47));
    var x := Mul(x, 0x9e6c_63d0_676a_9a99);
    var x := x ^ ((x >> 23) ^ (x >> 51));
    var x := Mul(x, 0x9e6d_62d0_6f6a_9a9b);
    x ^ ((x >> 23) ^ (x >> 51))
  }

  /** After its first, rotating step, rrmxmx only multiplies by an odd
      constant and xor-shifts; RrmxmxUnmixTail undoes that part. */
  function RrmxmxUnmixTail(y: bv64): bv64 {
    var y := UnXorShift(y, 28);
    var y := Mul(y, 0x2ab9_c720_d102_4ad);
    var y := UnXorShift(y, 28);
    Mul(y, 0x2ab9_c720_d102_4ad)
  }

  /** rrmxmx and nasam map 0 to 0. */
  lemma RrmxmxNasamFixZero()
    ensures Rrmxmx(0) == 0
    ensures Nasam(0) == 0
  {
  }

  /** The steps of rrmxmx after the rotations are a bijection:
      RrmxmxUnmixTail undoes them. */
  lemma RrmxmxTailInvertible(a: bv64)
    ensures RrmxmxUnmixTail(RrmxmxTail(a)) == a
  {
    var b := XorShift(Mul(a, 0x9fb2_1c65_1e98_df25), 28);
    XorShift28Inverse(Mul(b, 0x9fb2_1c65_1e98_df25));
    Mul5Inverse(b);
    XorShift28Inverse(Mul(a, 0x9fb2_1c65_1e98_df25));
    Mul5Inverse(a);
  }

  // ---------------------------------------------------------------------
  // the Jenkins mix

  /** The three words of the Jenkins mix. */
  datatype Words = Words(a: bv32, b: bv32, c: bv32)

  function Shr32(x: bv32, s: bv32): bv32
    requires s < 32
  {
    x >> s
  }

  function Shl32(x: bv32, s: bv32): bv32
    requires s < 32
  {
    x << s
  }

  function Xor32(x: bv32, t: bv32): bv32 {
    x ^ t
  }

  function Sub2(x: bv32, y: bv32, z: bv32): bv32 {
    x - y - z
  }

  function Add2(x: bv32, y: bv32, z: bv32): bv32 {
    x + y + z
  }

  /** One statement line of the mix: x -= y; x -= z; x ^= t. */
  function SubSubXor(x: bv32, y: bv32, z: bv32, t: bv32): bv32 {
    Xor32(Sub2(x, y, z), t)
  }

  /** Undoes SubSubXor, given the same y, z and t. */
  function UnSubSubXor(x: bv32, y: bv32, z: bv32, t: bv32): bv32 {
    Add2(Xor32(x, t), y, z)
  }

  lemma XorTwice(x: bv32, t: bv32)
    ensures Xor32(Xor32(x, t), t) == x
  {
  }

  lemma Sub2Unfold(x: bv32, y: bv32, z: bv32)
    ensures Sub2(x, y, z) == x - y - z
  {
  }

  lemma Add2Fold(x: bv32, y: bv32, z: bv32)
    ensures Add2(x - y - z, y, z) == x
  {
  }

  lemma SubSubXorInverse(x: bv32, y: bv32, z: bv32, t: bv32)
    ensures UnSubSubXor(SubSubXor(x, y, z, t), y, z, t) == x
  {
    XorTwice(Sub2(x, y, z), t);
    Sub2Unfold(x, y, z);
    Add2Fold(x, y, z);
  }

  /** The line updating a: a -= b; a -= c; a ^= (c >> s). */
  function RoundA(w: Words, s: bv32): Words
    requires s < 32
  {
    Words(SubSubXor(w.a, w.b, w.c, Shr32(w.c, s)), w.b, w.c)
  }

  /** The line updating b: b -= c; b -= a; b ^= (a << s). */
  function RoundB(w: Words, s: bv32): Words
    requires s < 32
  {
    Words(w.a, SubSubXor(w.b, w.c, w.a, Shl32(w.a, s)), w.c)
  }

  /** The line updating c: c -= a; c -= b; c ^= (b >> s). */
  function RoundC(w: Words, s: bv32): Words
    requires s < 32
  {
    Words(w.a, w.b, SubSubXor(w.c, w.a, w.b, Shr32(w.b, s)))
  }

  function UnRoundA(w: Words, s: bv32): Words
    requires s < 32
  {
    Words(UnSubSubXor(w.a, w.b, w.c, Shr32(w.c, s)), w.b, w.c)
  }

  function UnRoundB(w: Words, s: bv32): Words
    requires s < 32
  {
    Words(w.a, UnSubSubXor(w.b, w.c, w.a, Shl32(w.a, s)), w.c)
  }

  function UnRoundC(w: Words, s: bv32): Words
    requires s < 32
  {
    Words(w.a, w.b, UnSubSubXor(w.c, w.a, w.b, Shr32(w.b, s)))
  }

  lemma RoundAInverse(w: Words, s: bv32)
    requires s < 32
    ensures UnRoundA(RoundA(w, s), s) == w
  {
    SubSubXorInverse(w.a, w.b, w.c, Shr32(w.c, s));
  }

  lemma RoundBInverse(w: Words, s: bv32)
    requires s < 32
    ensures UnRoundB(RoundB(w, s), s) == w
  {
    SubSubXorInverse(w.b, w.c, w.a, Shl32(w.a, s));
  }

  lemma RoundCInverse(w: Words, s: bv32)
    requires s < 32
    ensures UnRoundC(RoundC(w, s), s) == w
  {
    SubSubXorInverse(w.c, w.a, w.b, Shr32(w.b, s));
  }

  /** Three lines of the mix: a, then b, then c. */
  function Round(w: Words, sa: bv32, sb: bv32, sc: bv32): Words
    requires sa < 32 && sb < 32 && sc < 32
  {
    RoundC(RoundB(RoundA(w, sa), sb), sc)
  }

  function UnRound(w: Words, sa: bv32, sb: bv32, sc: bv32): Words
    requires sa < 32 && sb < 32 && sc < 32
  {
    UnRoundA(UnRoundB(UnRoundC(w, sc), sb), sa)
  }

  lemma RoundInverse(w: Words, sa: bv32, sb: bv32, sc: bv32)
    requires sa < 32 && sb < 32 && sc < 32
    ensures UnRound(Round(w, sa, sb, sc), sa, sb, sc) == w
  {
    RoundCInverse(RoundB(RoundA(w, sa), sb), sc);
    RoundBInverse(RoundA(w, sa), sb);
    RoundAInverse(w, sa);
  }

  /** Hash::jenkinsMix (hash.cpp:118-129): nine lines of
      subtract-and-xor on a, b and c, which the C++ updates through its
      reference parameters; the result holds their final values. */
  function JenkinsMix(w: Words): Words {
    Round(Round(Round(w, 13, 8, 13), 12, 16, 5), 3, 10, 15)
  }

  /** The nine lines of the mix undone in reverse order. */
  function JenkinsUnmix(w: Words): Words {
    UnRound(UnRound(UnRound(w, 3, 10, 15), 12, 16, 5), 13, 8, 13)
  }

  /** The Jenkins mix is a bijection on three 32-bit words: no two
      inputs collide, and JenkinsUnmix recovers the input. */
  lemma JenkinsMixInvertible(w: Words)
    ensures JenkinsUnmix(JenkinsMix(w)) == w
  {
    RoundInverse(Round(Round(w, 13, 8, 13), 12, 16, 5), 3, 10, 15);
    RoundInverse(Round(w, 13, 8, 13), 12, 16, 5);
    RoundInverse(w, 13, 8, 13);
  }

  /** Two inputs with the same mix are equal. */
  lemma JenkinsMixInjective(v: Words, w: Words)
    requires JenkinsMix(v) == JenkinsMix(w)
    ensures v == w
  {
    JenkinsMixInvertible(v);
    JenkinsMixInvertible(w);
  }

  /** Hash::jenkinsMixSingle (hash.cpp:104-116): its own nine lines of
      subtract-and-xor on copies of a, b and c, returning the last c. */
  function JenkinsMixSingle(a: bv32, b: bv32, c: bv32): bv32 {
    var a1 := SubSubXor(a, b, c, Shr32(c, 13));
    var b1 := SubSubXor(b, c, a1, Shl32(a1, 8));
    var c1 := SubSubXor(c, a1, b1, Shr32(b1, 13));
    var a2 := SubSubXor(a1, b1, c1, Shr32(c1, 12));
    var b2 := SubSubXor(b1, c1, a2, Shl32(a2, 16));
    var c2 := SubSubXor(c1, a2, b2, Shr32(b2, 5));
    var a3 := SubSubXor(a2, b2, c2, Shr32(c2, 3));
    var b3 := SubSubXor(b2, c2, a3, Shl32(a3, 10));
    SubSubXor(c2, a3, b3, Shr32(b3, 15))
  }

  /** jenkinsMixSingle returns the value jenkinsMix leaves in c. */
  lemma JenkinsMixSingleIsMixC(a: bv32, b: bv32, c: bv32)
    ensures JenkinsMixSingle(a, b, c) == JenkinsMix(Words(a, b, c)).c
  {
  }

  // ---------------------------------------------------------------------
  // simpleHash

  /** (uint64_t)c for a signed char c: the bytes from 128 on are negative
      and sign-extend. */
  function SignExtend8(b: bv8): bv64 {
    if b < 128 then b as bv64 else (b as bv64) | 0xFFFF_FFFF_FFFF_FF00
  }

  /** (uint64_t)c for an int c, given as its 32 bits: sign extension. */
  function SignExtend32(v: bv32): bv64 {
    if v < 0x8000_0000 then v as bv64 else (v as bv64) | 0xFFFF_FFFF_0000_0000
  }

  /** One step of the accumulators of simpleHash: m * k + c. */
  function Step(m: bv64, k: bv64, c: bv64): bv64 {
    m * k + c
  }

  /** The accumulator after reading the words cs from m. */
  function Poly(cs: seq<bv64>, m: bv64, k: bv64): bv64 {
    if cs == [] then m else Step(Poly(cs[..|cs| - 1], m, k), k, cs[|cs| - 1])
  }

  lemma PolyPrefixSnoc(w: seq<bv64>, i: nat, m: bv64, k: bv64)
    requires i < |w|
    ensures Poly(w[..i + 1], m, k) == Step(Poly(w[..i], m, k), k, w[i])
  {
    assert w[..i + 1][..i] == w[..i];
  }

  lemma PolySnoc(cs: seq<bv64>, c: bv64, m: bv64, k: bv64)
    ensures Poly(cs + [c], m, k) == Step(Poly(cs, m, k), k, c)
  {
    assert (cs + [c])[..|cs|] == cs;
  }

  /** The bytes of a C string: everything before the first NUL. */
  function CBytes(s: seq<bv8>): (r: seq<bv8>)
    ensures |r| <= |s| && r == s[..|r|]
    ensures forall i :: 0 <= i < |r| ==> r[i] != 0
    ensures |r| < |s| ==> s[|r|] == 0
  {
    if s == [] || s[0] == 0 then [] else [s[0]] + CBytes(s[1..])
  }

  function Widened(s: seq<bv8>): (r: seq<bv64>)
    ensures |r| == |s|
    ensures forall i :: 0 <= i < |s| ==> r[i] == SignExtend8(s[i])
  {
    seq(|s|, i requires 0 <= i < |s| => SignExtend8(s[i]))
  }

  /** The final step of both overloads: the three accumulators folded by
      two Jenkins mixes into a high (a) and a low (b) half. */
  function FinalMix(m1: bv64, m2: bv64, m3: bv64): Words {
    Words(JenkinsMixSingle(HighBits(m1), LowBits(m2), HighBits(m3)),
          JenkinsMixSingle(LowBits(m1), HighBits(m2), LowBits(m3)), 0)
  }

  /** What Hash::simpleHash(const char*) returns for the bytes s. */
  function SimpleHashOfBytes(s: seq<bv8>): bv64 {
    var w := Widened(CBytes(s));
    var f := FinalMix(Poly(w, 123456789, 31), Poly(w, 314159265, 317), Poly(w, 958473711, 1609));
    Combine(f.a, f.b)
  }

  /** Hash::simpleHash(const char*) (hash.cpp:132-148): the bytes up to
      the first NUL feed three polynomial accumulators, which are folded
      by two Jenkins mixes into one 64-bit hash. */
  method SimpleHash(str: seq<bv8>) returns (h: bv64)
    ensures h == SimpleHashOfBytes(str)
  {
    var m1: bv64 := 123456789;
    var m2: bv64 := 314159265;
    var m3: bv64 := 958473711;
    ghost var w := Widened(str);
    var i := 0;
    while i < |str| && str[i] != 0
      invariant 0 <= i <= |str|
      invariant forall j :: 0 <= j < i ==> str[j] != 0
      invariant m1 == Poly(w[..i], 123456789, 31)
      invariant m2 == Poly(w[..i], 314159265, 317)
      invariant m3 == Poly(w[..i], 958473711, 1609)
    {
      var c := SignExtend8(str[i]);
      PolyPrefixSnoc(w, i, 123456789, 31);
      PolyPrefixSnoc(w, i, 314159265, 317);
      PolyPrefixSnoc(w, i, 958473711, 1609);
      m1 := Step(m1, 31, c);
      m2 := Step(m2, 317, c);
      m3 := Step(m3, 1609, c);
      i := i + 1;
    }
    CBytesIsPrefix(str, i);
    var lo := JenkinsMixSingle(LowBits(m1), HighBits(m2), LowBits(m3));
    var hi := JenkinsMixSingle(HighBits(m1), LowBits(m2), HighBits(m3));
    return Combine(hi, lo);
  }

  /** When the first i bytes are not NUL and byte i is (or the bytes end
      there), the C string is the first i bytes. */
  lemma {:induction false} CBytesIsPrefix(s: seq<bv8>, i: nat)
    requires i <= |s|
    requires forall j :: 0 <= j < i ==> s[j] != 0
    requires i == |s| || s[i] == 0
    ensures CBytes(s) == s[..i]
    ensures Widened(CBytes(s)) == Widened(s)[..i]
  {
    if i > 0 {
      CBytesIsPrefix(s[1..], i - 1);
      assert [s[0]] + s[1..][..i - 1] == s[..i];
    }
  }

  lemma {:induction false} CBytesStopsAtNul(s: seq<bv8>, t: seq<bv8>)
    requires forall i :: 0 <= i < |s| ==> s[i] != 0
    ensures CBytes(s + [0] + t) == s
  {
    if s != [] {
      assert (s + [0] + t)[1..] == s[1..] + [0] + t;
      CBytesStopsAtNul(s[1..], t);
    } else {
      assert (s + [0] + t)[0] == 0;
    }
  }

  /** The hash of a C string depends only on the bytes before its first
      NUL: whatever follows the terminator is never read. */
  lemma SimpleHashStopsAtNul(s: seq<bv8>, t: seq<bv8>)
    requires forall i :: 0 <= i < |s| ==> s[i] != 0
    ensures SimpleHashOfBytes(s + [0] + t) == SimpleHashOfBytes(s + [0])
  {
    CBytesStopsAtNul(s, t);
    CBytesStopsAtNul(s, []);
    assert s + [0] + [] == s + [0];
  }

  /** The three statements that update m4 for one input word. */
  function M4Step(m4: bv32, c: bv32): bv32 {
    var m4 := m4 + c;
    var m4 := m4 + (m4 << 10);
    m4 ^ (m4 >> 6)
  }

  function M4Acc(cs: seq<bv32>, m4: bv32): bv32 {
    if cs == [] then m4 else M4Step(M4Acc(cs[..|cs| - 1], m4), cs[|cs| - 1])
  }

  lemma M4AccPrefixSnoc(s: seq<bv32>, i: nat, m4: bv32)
    requires i < |s|
    ensures M4Acc(s[..i + 1], m4) == M4Step(M4Acc(s[..i], m4), s[i])
  {
    assert s[..i + 1][..i] == s[..i];
  }

  /** The avalanche of m4 after the loop. */
  function M4Final(m4: bv32): bv32 {
    var m4 := m4 + (m4 << 3);
    var m4 := m4 ^ (m4 >> 11);
    m4 + (m4 << 15)
  }

  function Widened32(s: seq<bv32>): (r: seq<bv64>)
    ensures |r| == |s|
    ensures forall i :: 0 <= i < |s| ==> r[i] == SignExtend32(s[i])
  {
    seq(|s|, i requires 0 <= i < |s| => SignExtend32(s[i]))
  }

  /** What Hash::simpleHash(const int*, len) returns for the words s. */
  function SimpleHashOfInts(s: seq<bv32>): bv64 {
    var w := Widened32(s);
    var f := FinalMix(Poly(w, 123456789, 31), Poly(w, 314159265, 317), Poly(w, 958473711, 1609));
    MixInM4(f, M4Final(M4Acc(s, 0xCAFE_BABE)))
  }

  /** The last statement of simpleHash(const int*, len): m4 folded into
      both halves. */
  function MixInM4(f: Words, m4: bv32): bv64 {
    Combine(f.a ^ m4, f.b + m4)
  }

  /** Hash::simpleHash(const int*, len) (hash.cpp:151-174): the same
      accumulators and a 32-bit one-at-a-time hash m4, folded into both
      halves. */
  method SimpleHashInts(input: seq<bv32>) returns (h: bv64)
    ensures h == SimpleHashOfInts(input)
  {
    var m1: bv64 := 123456789;
    var m2: bv64 := 314159265;
    var m3: bv64 := 958473711;
    var m4: bv32 := 0xCAFE_BABE;
    ghost var w := Widened32(input);
    var i := 0;
    while i < |input|
      invariant 0 <= i <= |input|
      invariant m1 == Poly(w[..i], 123456789, 31)
      invariant m2 == Poly(w[..i], 314159265, 317)
      invariant m3 == Poly(w[..i], 958473711, 1609)
      invariant m4 == M4Acc(input[..i], 0xCAFE_BABE)
    {
      var c := input[i];
      var x := SignExtend32(c);
      PolyPrefixSnoc(w, i, 123456789, 31);
      PolyPrefixSnoc(w, i, 314159265, 317);
      PolyPrefixSnoc(w, i, 958473711, 1609);
      M4AccPrefixSnoc(input, i, 0xCAFE_BABE);
      m1 := Step(m1, 31, x);
      m2 := Step(m2, 317, x);
      m3 := Step(m3, 1609, x);
      m4 := M4Step(m4, c);
      i := i + 1;
    }
    assert input[..i] == input && w[..i] == w;
    m4 := M4Final(m4);
    h := MixInM4(FinalMix(m1, m2, m3), m4);
  }

  // ---------------------------------------------------------------------
  // Hash128

  /** A 128-bit hash as two 64-bit halves; hash1 is printed first. */
  datatype Hash128 = Hash128(hash0: U64, hash1: U64)

  /** A uint64_t as a number. */
  type U64 = x: nat | x < Two64

  /** What Hash128::toString returns: 32 upper-case hex digits, hash1's
      first. */
  function Hash128Text(h: Hash128): (s: string)
    ensures |s| == 32
  {
    HexDigits(h.hash1, 16) + HexDigits(h.hash0, 16)
  }

  /** Hash128::toString (hash.cpp:187-190). */
  method ToString(h: Hash128) returns (s: string)
    ensures s == Hash128Text(h)
  {
    var s1 := Uint64ToHexString(h.hash1);
    var s0 := Uint64ToHexString(h.hash0);
    s := s1 + s0;
  }

  /** What Hash128::ofString returns for s. */
  function Hash128OfText(s: string): (r: Result<Hash128>)
    ensures r.Failure? ==> r.error == IOError
  {
    if |s| != 32 || !AllHex(s) then Failure(IOError)
    else
      var h1 := HexStringToUInt64(s[..16]);
      var h0 := HexStringToUInt64(s[16..]);
      if h1.Success? && h0.Success? then Success(Hash128(h0.value, h1.value))
      else Failure(IOError)
  }

  /** Hash128::ofString (hash.cpp:193-209): IOError unless s is exactly 32
      hex digits, in either case; the first 16 give hash1, the last 16
      hash0. */
  method OfString(s: string) returns (r: Result<Hash128>)
    ensures r == Hash128OfText(s)
  {
    if |s| != 32 {
      return Failure(IOError);
    }
    for i := 0 to |s|
      invariant forall j :: 0 <= j < i ==> IsHexChar(s[j])
    {
      var c := s[i];
      if !('0' <= c <= '9') && !('A' <= c <= 'F') && !('a' <= c <= 'f') {
        return Failure(IOError);
      }
    }
    var h1 := HexStringToUInt64(s[..16]);
    var h0 := HexStringToUInt64(s[16..]);
    if h1.Failure? || h0.Failure? {
      return Failure(IOError);
    }
    return Success(Hash128(h0.value, h1.value));
  }

  /** Sixteen hex digits always fit in 64 bits. */
  lemma HexFitsSixteen(s: string)
    requires |s| == 16 && AllHex(s)
    ensures HexStringToUInt64(s).Success?
  {
    Pow16Widths();
  }

  /** ofString accepts exactly the strings of 32 hex digits, and reads back
      what toString prints. */
  lemma Hash128RoundTrip(h: Hash128, s: string)
    ensures Hash128OfText(Hash128Text(h)) == Success(h)
    ensures Hash128OfText(s).Success? <==> |s| == 32 && AllHex(s)
  {
    var t := Hash128Text(h);
    assert t[..16] == HexDigits(h.hash1, 16);
    assert t[16..] == HexDigits(h.hash0, 16);
    HexStringRoundTrip(h.hash1);
    HexStringRoundTrip(h.hash0);
    HexDigitsAreHex(h.hash1, 16);
    HexDigitsAreHex(h.hash0, 16);
    assert AllHex(t);
    if |s| == 32 && AllHex(s) {
      HexFitsSixteen(s[..16]);
      HexFitsSixteen(s[16..]);
    }
  }
}
