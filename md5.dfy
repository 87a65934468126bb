/** MD5::get of core/md5.cpp: the MD5 message digest of RFC 1321. The
    message is padded (sections 3.1 and 3.2 of RFC 1321), the four
    registers start from the constants of section 3.3, and every 64-byte
    block goes through the 64 steps of section 3.4. A uint8_t is a Byte
    (an integer below 256, only ever stored and read) and a uint32_t a
    bv32, whose arithmetic wraps modulo 2^32 as the C++ does. */
module Md5 {
  import opened Numbers

  // ---------------------------------------------------------------------
  // constants

  /** The rotation amount of step i, r[i] (md5.cpp:19-23): four amounts
      per group of 16 steps, repeating every four steps. */
  function Shift(i: nat): (r: bv32)
    requires i < 64
    ensures 4 <= r <= 23
  {
    var j := i % 4;
    if i < 16 then (if j == 0 then 7 else if j == 1 then 12 else if j == 2 then 17 else 22)
    else if i < 32 then (if j == 0 then 5 else if j == 1 then 9 else if j == 2 then 14 else 20)
    else if i < 48 then (if j == 0 then 4 else if j == 1 then 11 else if j == 2 then 16 else 23)
    else (if j == 0 then 6 else if j == 1 then 10 else if j == 2 then 15 else 21)
  }

  /** The additive constant of each step, k[] (md5.cpp:25-42). */
  const K: seq<bv32> :=
    [0xd76aa478, 0xe8c7b756, 0x242070db, 0xc1bdceee,
     0xf57c0faf, 0x4787c62a, 0xa8304613, 0xfd469501,
     0x698098d8, 0x8b44f7af, 0xffff5bb1, 0x895cd7be,
     0x6b901122, 0xfd987193, 0xa679438e, 0x49b40821,
     0xf61e2562, 0xc040b340, 0x265e5a51, 0xe9b6c7aa,
     0xd62f105d, 0x02441453, 0xd8a1e681, 0xe7d3fbc8,
     0x21e1cde6, 0xc33707d6, 0xf4d50d87, 0x455a14ed,
     0xa9e3e905, 0xfcefa3f8, 0x676f02d9, 0x8d2a4c8a,
     0xfffa3942, 0x8771f681, 0x6d9d6122, 0xfde5380c,
     0xa4beea44, 0x4bdecfa9, 0xf6bb4b60, 0xbebfbc70,
     0x289b7ec6, 0xeaa127fa, 0xd4ef3085, 0x04881d05,
     0xd9d4d039, 0xe6db99e5, 0x1fa27cf8, 0xc4ac5665,
     0xf4292244, 0x432aff97, 0xab9423a7, 0xfc93a039,
     0x655b59c3, 0x8f0ccc92, 0xffeff47d, 0x85845dd1,
     0x6fa87e4f, 0xfe2ce6e0, 0xa3014314, 0x4e0811a1,
     0xf7537e82, 0xbd3af235, 0x2ad7d2bb, 0xeb86d391]

  /** The number of steps per block. */
  const StepCount: nat := 64

  /** A uint8_t. */
  type Byte = x: int | 0 <= x < 256

  /** The four registers a, b, c and d (or h0 to h3). */
  datatype Regs = Regs(a: bv32, b: bv32, c: bv32, d: bv32)

  /** The initial h0 to h3 of section 3.3 of RFC 1321 (md5.cpp:54-57). */
  const Init: Regs := Regs(0x67452301, 0xefcdab89, 0x98badcfe, 0x10325476)

  // ---------------------------------------------------------------------
  // padding

  /** The padded length in bits: the least value at least 8 * len + 1
      that is 448 modulo 512. */
  function PaddedBits(len: nat): (n: nat)
    ensures n % 512 == 448 && 8 * len + 1 <= n < 8 * len + 1 + 512
  {
    var m := 8 * len + 1;
    PadTo448(m);
    m + (448 - m) % 512
  }

  /** Adding (448 - m) mod 512 to m lands on 448 modulo 512. */
  lemma PadTo448(m: int)
    ensures 0 <= (448 - m) % 512 < 512
    ensures (m + (448 - m) % 512) % 512 == 448
  {
    var q := (448 - m) / 512;
    assert 448 - m == 512 * q + (448 - m) % 512;
    assert m + (448 - m) % 512 == 448 + 512 * -q;
    ModMultiple(448, -q);
  }

  lemma ModMultiple(a: int, k: int)
    requires 0 <= a < 512
    ensures (a + 512 * k) % 512 == a
  {
  }

  /** PaddedBits(len) is the least such length: any length past the
      message that is 448 modulo 512 is at least as large. */
  lemma PaddedBitsLeast(len: nat, v: nat)
    requires 8 * len + 1 <= v && v % 512 == 448
    ensures PaddedBits(len) <= v
  {
    var n := PaddedBits(len);
    var a, b := v / 512, n / 512;
    assert v == 512 * a + 448;
    assert n == 512 * b + 448;
  }

  /** The padded length is a whole number of bytes, past the message,
      and 8 bytes short of a whole number of 64-byte blocks. */
  lemma PaddedBytes(len: nat)
    ensures var n := PaddedBits(len); n % 8 == 0 && len < n / 8 && (n / 8) % 64 == 56
  {
    var n := PaddedBits(len);
    var q := n / 512;
    assert n == 512 * q + 448;
    assert n / 8 == 64 * q + 56;
  }

  /** The loop of md5.cpp:67-70 that finds new_len: counts up from
      8 * len + 1 to the first value that is 448 modulo 512, and divides
      it by 8. */
  method PaddedLength(len: nat) returns (newLen: nat)
    ensures 8 * newLen == PaddedBits(len)
    ensures newLen % 64 == 56 && len < newLen
  {
    var bits := len * 8 + 1;
    while bits % 512 != 448
      invariant 8 * len + 1 <= bits <= PaddedBits(len)
      decreases PaddedBits(len) - bits
    {
      bits := bits + 1;
    }
    PaddedBitsLeast(len, bits);
    PaddedBytes(len);
    newLen := bits / 8;
  }

  /** The bit count of a message of len bytes as a uint64_t: 8 * len
      modulo 2^64 (md5.cpp:78). */
  function BitLength(len: nat): (n: nat)
    ensures n < Two64
  {
    (8 * len) % Two64
  }

  function Pow256(n: nat): (r: nat)
    ensures r > 0
  {
    if n == 0 then 1 else 256 * Pow256(n - 1)
  }

  /** The n little-endian bytes of x, as memcpy stores an integer on a
      little-endian host. */
  function LeBytes(x: nat, n: nat): (s: seq<Byte>)
    ensures |s| == n
  {
    if n == 0 then [] else [x % 256] + LeBytes(x / 256, n - 1)
  }

  /** The number whose little-endian bytes are s. */
  function LeValue(s: seq<Byte>): nat {
    if s == [] then 0 else s[0] + 256 * LeValue(s[1..])
  }

  /** Reading back the stored bytes of x gives x, when x fits. */
  lemma {:induction false} LeRoundTrip(x: nat, n: nat)
    requires x < Pow256(n)
    ensures LeValue(LeBytes(x, n)) == x
  {
    if n > 0 {
      var s := LeBytes(x, n);
      assert s[1..] == LeBytes(x / 256, n - 1);
      LeRoundTrip(x / 256, n - 1);
    }
  }

  /** The value of two byte strings one after the other. */
  lemma {:induction false} LeValueAppend(s: seq<Byte>, t: seq<Byte>)
    ensures LeValue(s + t) == LeValue(s) + Pow256(|s|) * LeValue(t)
  {
    if s != [] {
      assert (s + t)[1..] == s[1..] + t;
      LeValueAppend(s[1..], t);
      var v, u := LeValue(s[1..]), LeValue(t);
      calc {
        LeValue(s + t);
        s[0] + 256 * (v + Pow256(|s| - 1) * u);
        { MulDistributes(256, v, Pow256(|s| - 1) * u); }
        s[0] + 256 * v + 256 * (Pow256(|s| - 1) * u);
        { MulAssociates(256, Pow256(|s| - 1), u); }
        s[0] + 256 * v + Pow256(|s|) * u;
      }
    } else {
      assert s + t == t;
    }
  }

  lemma MulDistributes(a: int, b: int, c: int)
    ensures a * (b + c) == a * b + a * c
  {
  }

  lemma MulAssociates(a: int, b: int, c: int)
    ensures a * (b * c) == (a * b) * c
  {
  }

  function Zeros(n: nat): (s: seq<Byte>)
    ensures |s| == n && forall i :: 0 <= i < n ==> s[i] == 0
  {
    seq(n, i => 0)
  }

  /** The padded message of sections 3.1 and 3.2 of RFC 1321: m, the byte
      0x80, zeros up to PaddedBits(|m|) bits, then the bit count as its
      low and high uint32_t, each little-endian (md5.cpp:73-82). */
  function Padded(m: seq<Byte>): (p: seq<Byte>)
    ensures 8 * (|p| - 8) == PaddedBits(|m|)
  {
    var bl := BitLength(|m|);
    PaddedBytes(|m|);
    m + [0x80] + Zeros(PaddedBits(|m|) / 8 - |m| - 1) + LeBytes(bl % Two32, 4) + LeBytes(bl / Two32, 4)
  }

  /** The padded message cut at the boundaries of its parts. */
  lemma PaddedParts(m: seq<Byte>)
    ensures var p, n, bl := Padded(m), PaddedBits(|m|) / 8, BitLength(|m|);
      && |p| == n + 8
      && p[..|m|] == m
      && p[|m|] == 0x80
      && p[|m| + 1..n] == Zeros(n - |m| - 1)
      && p[n..] == LeBytes(bl % Two32, 4) + LeBytes(bl / Two32, 4)
  {
    PaddedBytes(|m|);
    var n, bl := PaddedBits(|m|) / 8, BitLength(|m|);
    var z := Zeros(n - |m| - 1);
    var p := Padded(m);
    var tail := LeBytes(bl % Two32, 4) + LeBytes(bl / Two32, 4);
    assert p == m + [0x80] + z + tail;
    assert p[..|m|] == m;
    assert p[|m| + 1..n] == z;
    assert p[n..] == tail;
  }

  /** The padded message is a whole number of 64-byte blocks that starts
      with m and the byte 0x80. */
  lemma PaddedLayout(m: seq<Byte>)
    ensures var p := Padded(m);
      && |p| % 64 == 0
      && p[..|m|] == m
      && p[|m|] == 0x80
  {
    PaddedBytes(|m|);
    PaddedParts(m);
    var n := PaddedBits(|m|) / 8;
    var q := n / 64;
    assert n == 64 * q + 56;
    assert |Padded(m)| == 64 * (q + 1);
    WholeBlocks(q + 1);
  }

  lemma WholeBlocks(k: nat)
    ensures (64 * k) % 64 == 0
  {
  }

  /** Between the byte 0x80 and the bit count the padded message holds
      only zeros. */
  lemma PaddedZeros(m: seq<Byte>)
    ensures var p := Padded(m);
      forall i :: |m| < i < |p| - 8 ==> p[i] == 0
  {
    PaddedParts(m);
    var p, n := Padded(m), PaddedBits(|m|) / 8;
    forall i | |m| < i < |p| - 8
      ensures p[i] == 0
    {
      assert p[i] == p[|m| + 1..n][i - |m| - 1];
    }
  }

  /** The last eight bytes of the padded message, read as a
      little-endian number, are 8 * |m| modulo 2^64: the bit count
      survives the padding. */
  lemma PaddedBitCount(m: seq<Byte>)
    ensures var p := Padded(m);
      LeValue(p[|p| - 8..]) == BitLength(|m|)
  {
    PaddedParts(m);
    var bl := BitLength(|m|);
    assert Pow256(4) == Two32;
    LeValueAppend(LeBytes(bl % Two32, 4), LeBytes(bl / Two32, 4));
    LeRoundTrip(bl % Two32, 4);
    LeRoundTrip(bl / Two32, 4);
  }

  /** The little-endian uint32_t at byte offset p of s, as the cast of
      md5.cpp:90 reads it. */
  function LoadWord(s: seq<Byte>, p: nat): bv32
    requires p + 4 <= |s|
  {
    (s[p] as int + 0x100 * (s[p + 1] as int) + 0x1_0000 * (s[p + 2] as int) + 0x100_0000 * (s[p + 3] as int)) as bv32
  }

  /** The cast reads the four bytes at p as their little-endian value. */
  lemma LoadWordValue(s: seq<Byte>, p: nat)
    requires p + 4 <= |s|
    ensures LeValue(s[p..p + 4]) < Two32
    ensures LoadWord(s, p) == LeValue(s[p..p + 4]) as bv32
  {
    var t := s[p..p + 4];
    var v3: int := t[3];
    var v2: int := t[2] as int + 256 * v3;
    var v1: int := t[1] as int + 256 * v2;
    assert LeValue(t[3..]) == v3 by { assert t[3..][1..] == []; }
    assert LeValue(t[2..]) == v2 by { assert t[2..][1..] == t[3..]; }
    assert LeValue(t[1..]) == v1 by { assert t[1..][1..] == t[2..]; }
    assert LeValue(t) == s[p] as int + 0x100 * (s[p + 1] as int) + 0x1_0000 * (s[p + 2] as int) + 0x100_0000 * (s[p + 3] as int);
  }

  /** A word stored little-endian at p is read back by LoadWord. */
  lemma LoadWordOfStore(s: seq<Byte>, p: nat, x: nat)
    requires p + 4 <= |s| && x < Two32 && s[p..p + 4] == LeBytes(x, 4)
    ensures LoadWord(s, p) == x as bv32
  {
    LoadWordValue(s, p);
    assert Pow256(4) == Two32;
    LeRoundTrip(x, 4);
  }

  // ---------------------------------------------------------------------
  // the 64 steps

  /** The rotation LEFTROTATE(x, c) of md5.cpp:15, for 0 < c < 32. */
  function RotL(x: bv32, c: bv32): bv32
    requires 0 < c < 32
  {
    (x << c) | (x >> (32 - c))
  }

  /** The auxiliary functions F, G, H and I of section 3.4 of RFC 1321
      (md5.cpp:106, 111, 116 and 121). */
  function FF(x: bv32, y: bv32, z: bv32): bv32 {
    (x & y) | (!x & z)
  }

  function GG(x: bv32, y: bv32, z: bv32): bv32 {
    (z & x) | (!z & y)
  }

  function HH(x: bv32, y: bv32, z: bv32): bv32 {
    x ^ y ^ z
  }

  function II(x: bv32, y: bv32, z: bv32): bv32 {
    y ^ (x | !z)
  }

  /** F is a bitwise conditional: where x has a one bit it takes y's bit,
      elsewhere z's; G is F with its arguments rotated, as section 3.4 of
      RFC 1321 defines it. */
  lemma AuxiliarySelect(x: bv32, y: bv32, z: bv32)
    ensures FF(x, y, z) & x == y & x
    ensures FF(x, y, z) & !x == z & !x
    ensures GG(x, y, z) == FF(z, x, y)
  {
  }

  /** The auxiliary function of step i: F, G, H or I by i / 16
      (md5.cpp:104-123). */
  function Aux(i: nat, b: bv32, c: bv32, d: bv32): bv32 {
    if i < 16 then FF(b, c, d)
    else if i < 32 then GG(b, c, d)
    else if i < 48 then HH(b, c, d)
    else II(b, c, d)
  }

  /** The new b of a step (md5.cpp:128): b plus the rotated sum of a, the
      auxiliary function's value f, the constant k and the word x. */
  function NewB(a: bv32, b: bv32, f: bv32, k: bv32, x: bv32, r: bv32): bv32
    requires 0 < r < 32
  {
    b + RotL(a + f + k + x, r)
  }

  /** The index of the message word step i adds (md5.cpp:104-123). */
  function WordIndex(i: nat): (g: nat)
    ensures g < 16
  {
    if i < 16 then i
    else if i < 32 then (5 * i + 1) % 16
    else if i < 48 then (3 * i + 5) % 16
    else (7 * i) % 16
  }

  /** The step within round r (0 to 3) that reads word v: the inverse of
      j |-> WordIndex(16 * r + j). */
  function WordIndexInverse(r: nat, v: nat): (j: nat)
    ensures j < 16
  {
    if r == 0 then v % 16
    else if r == 1 then (13 * v + 3) % 16
    else if r == 2 then (11 * v + 9) % 16
    else (7 * v) % 16
  }

  lemma ModShift(v: nat, m: int)
    requires v < 16 && v + 16 * m >= 0
    ensures (v + 16 * m) % 16 == v
  {
  }

  /** The word step j of round r (0 to 3) reads. */
  function RoundWord(r: nat, j: nat): (v: nat)
    ensures v < 16
  {
    WordIndex(16 * r + j)
  }

  lemma Round1Left(j: nat)
    requires j < 16
    ensures WordIndexInverse(1, RoundWord(1, j)) == j
  {
    var t, k := (5 * (16 + j) + 1) % 16, (5 * (16 + j) + 1) / 16;
    assert RoundWord(1, j) == (5 * (16 + j) + 1) % 16;
    assert 13 * t + 3 == j + 16 * (4 * j + 66 - 13 * k);
    ModShift(j, 4 * j + 66 - 13 * k);
  }

  lemma Round2Left(j: nat)
    requires j < 16
    ensures WordIndexInverse(2, RoundWord(2, j)) == j
  {
    var t, k := (3 * (32 + j) + 5) % 16, (3 * (32 + j) + 5) / 16;
    assert RoundWord(2, j) == (3 * (32 + j) + 5) % 16;
    assert 11 * t + 9 == j + 16 * (70 + 2 * j - 11 * k);
    ModShift(j, 70 + 2 * j - 11 * k);
  }

  lemma Round3Left(j: nat)
    requires j < 16
    ensures WordIndexInverse(3, RoundWord(3, j)) == j
  {
    var t, k := (7 * (48 + j)) % 16, (7 * (48 + j)) / 16;
    assert RoundWord(3, j) == (7 * (48 + j)) % 16;
    assert 7 * t == j + 16 * (147 + 3 * j - 7 * k);
    ModShift(j, 147 + 3 * j - 7 * k);
  }

  lemma Round1Right(v: nat)
    requires v < 16
    ensures RoundWord(1, WordIndexInverse(1, v)) == v
  {
    var t, k := (13 * v + 3) % 16, (13 * v + 3) / 16;
    assert RoundWord(1, t) == (5 * (16 + t) + 1) % 16;
    assert 5 * (16 + t) + 1 == v + 16 * (4 * v + 6 - 5 * k);
    ModShift(v, 4 * v + 6 - 5 * k);
  }

  lemma Round2Right(v: nat)
    requires v < 16
    ensures RoundWord(2, WordIndexInverse(2, v)) == v
  {
    var t, k := (11 * v + 9) % 16, (11 * v + 9) / 16;
    assert RoundWord(2, t) == (3 * (32 + t) + 5) % 16;
    assert 3 * (32 + t) + 5 == v + 16 * (8 + 2 * v - 3 * k);
    ModShift(v, 8 + 2 * v - 3 * k);
  }

  lemma Round3Right(v: nat)
    requires v < 16
    ensures RoundWord(3, WordIndexInverse(3, v)) == v
  {
    var t, k := (7 * v) % 16, (7 * v) / 16;
    assert RoundWord(3, t) == (7 * (48 + t)) % 16;
    assert 7 * (48 + t) == v + 16 * (21 + 3 * v - 7 * k);
    ModShift(v, 21 + 3 * v - 7 * k);
  }

  /** WordIndexInverse(r, _) undoes the word index of round r. */
  lemma WordIndexLeftInverse(r: nat, j: nat)
    requires r < 4 && j < 16
    ensures WordIndexInverse(r, RoundWord(r, j)) == j
  {
    if r == 1 {
      Round1Left(j);
    } else if r == 2 {
      Round2Left(j);
    } else if r == 3 {
      Round3Left(j);
    }
  }

  /** Step WordIndexInverse(r, v) of round r reads word v. */
  lemma WordIndexRightInverse(r: nat, v: nat)
    requires r < 4 && v < 16
    ensures RoundWord(r, WordIndexInverse(r, v)) == v
  {
    if r == 1 {
      Round1Right(v);
    } else if r == 2 {
      Round2Right(v);
    } else if r == 3 {
      Round3Right(v);
    }
  }

  /** Each round of 16 steps reads every one of the sixteen words exactly
      once: its word indices are a permutation of 0 to 15, with
      WordIndexInverse(r, _) as the inverse permutation. */
  lemma RoundReadsEveryWordOnce(r: nat)
    requires r < 4
    ensures forall v :: 0 <= v < 16 ==> RoundWord(r, WordIndexInverse(r, v)) == v
    ensures forall j :: 0 <= j < 16 ==> WordIndexInverse(r, RoundWord(r, j)) == j
    ensures forall j1, j2 :: 0 <= j1 < 16 && 0 <= j2 < 16 && RoundWord(r, j1) == RoundWord(r, j2) ==> j1 == j2
  {
    forall v | 0 <= v < 16
      ensures RoundWord(r, WordIndexInverse(r, v)) == v
    {
      WordIndexRightInverse(r, v);
    }
    forall j | 0 <= j < 16
      ensures WordIndexInverse(r, RoundWord(r, j)) == j
    {
      WordIndexLeftInverse(r, j);
    }
  }

  /** Step i on the registers s and the block's words w
      (md5.cpp:125-129): the registers rotate, and b gains the rotated
      sum of a, the auxiliary function, k[i] and the word. */
  function Step(s: Regs, i: nat, w: seq<bv32>): Regs
    requires i < 64 && |w| == 16
  {
    Regs(s.d, NewB(s.a, s.b, Aux(i, s.b, s.c, s.d), K[i], w[WordIndex(i)], Shift(i)), s.b, s.c)
  }

  /** The registers after the first n steps from s. */
  function Steps(s: Regs, w: seq<bv32>, n: nat): Regs
    requires n <= 64 && |w| == 16
  {
    if n == 0 then s else Step(Steps(s, w, n - 1), n - 1, w)
  }

  /** One block: the 64 steps from h, added to h word by word
      (md5.cpp:93-136). */
  function Compress(h: Regs, w: seq<bv32>): Regs
    requires |w| == 16
  {
    AddRegs(h, Steps(h, w, StepCount))
  }

  /** The registers added word by word, modulo 2^32 (md5.cpp:133-136). */
  function AddRegs(h: Regs, e: Regs): Regs {
    Regs(h.a + e.a, h.b + e.b, h.c + e.c, h.d + e.d)
  }

  /** The sixteen little-endian words of a 64-byte block. */
  function BlockWords(b: seq<Byte>): (w: seq<bv32>)
    requires |b| == 64
    ensures |w| == 16
  {
    seq(16, j requires 0 <= j < 16 => LoadWord(b, 4 * j))
  }

  /** The sixteen words at byte offset o of s: the block that w points to
      in md5.cpp:90. */
  function WordsAt(s: seq<Byte>, o: nat): (w: seq<bv32>)
    requires o + 64 <= |s|
    ensures |w| == 16
  {
    BlockWords(s[o..o + 64])
  }

  /** The words of a block inside a prefix of s read the same from s. */
  lemma WordsAtPrefix(s: seq<Byte>, t: seq<Byte>, o: nat)
    requires o + 64 <= |t| <= |s| && s[..|t|] == t
    ensures WordsAt(s, o) == WordsAt(t, o)
  {
    assert s[o..o + 64] == t[o..o + 64];
  }

  /** h0 to h3 after the first n blocks of p. */
  function Blocks(p: seq<Byte>, n: nat): Regs
    requires 64 * n <= |p|
  {
    if n == 0 then Init else Compress(Blocks(p, n - 1), WordsAt(p, 64 * (n - 1)))
  }

  /** One more block: the registers after n blocks of p, with the block
      at 64 * n read from any s that p is a prefix of. */
  lemma BlocksNext(s: seq<Byte>, p: seq<Byte>, n: nat, h: Regs, e: Regs)
    requires 64 * (n + 1) <= |p| <= |s| && s[..|p|] == p
    requires h == Blocks(p, n) && e == Steps(h, WordsAt(s, 64 * n), StepCount)
    ensures AddRegs(h, e) == Blocks(p, n + 1)
  {
    WordsAtPrefix(s, p, 64 * n);
  }

  /** The digest of m as hash[0..3]. */
  function Digest(m: seq<Byte>): (h: seq<bv32>)
    ensures |h| == 4
  {
    var p := Padded(m);
    var r := Blocks(p, |p| / 64);
    [r.a, r.b, r.c, r.d]
  }

  // ---------------------------------------------------------------------
  // MD5::get

  /** The buffer of md5.cpp:67-82: zeroed, with room to spare (the
      calloc of new_len + 128 bytes), holding the padded message in its
      first new_len + 8 bytes. */
  method BuildMessage(input: array<Byte>, len: nat) returns (msg: array<Byte>, newLen: nat)
    requires len <= input.Length
    ensures fresh(msg)
    ensures 8 * newLen == PaddedBits(len) && newLen % 64 == 56
    ensures msg.Length == newLen + 128
    ensures msg[..newLen + 8] == Padded(input[..len])
  {
    newLen := PaddedLength(len);
    PaddedBytes(len);
    msg := NewMessage(input, len, newLen);
    var bitsLen := BitLength(len);
    var lowerBitsLen, upperBitsLen := bitsLen % Two32, bitsLen / Two32;
    ghost var s0 := msg[..];
    StoreWord(msg, newLen, lowerBitsLen);
    ghost var s1 := msg[..];
    StoreWord(msg, newLen + 4, upperBitsLen);
    TwoStores(s0, s1, msg[..], newLen, LeBytes(lowerBitsLen, 4), LeBytes(upperBitsLen, 4));
    PaddedAt(input[..len], newLen);
  }

  /** Two four-byte stores, at n and at n + 4, one after the other: the
      first n + 8 bytes are the untouched front and the two stored words. */
  lemma TwoStores(s0: seq<Byte>, s1: seq<Byte>, s2: seq<Byte>, n: nat, x: seq<Byte>, y: seq<Byte>)
    requires n + 8 <= |s0| && |s1| == |s0| == |s2| && |x| == |y| == 4
    requires s1[..n] == s0[..n] && s1[n..n + 4] == x
    requires s2[..n + 4] == s1[..n + 4] && s2[n + 4..n + 8] == y
    ensures s2[..n + 8] == s0[..n] + x + y
  {
    assert s2[..n + 8] == s2[..n + 4] + s2[n + 4..n + 8];
    assert s1[..n + 4] == s1[..n] + s1[n..n + 4];
  }

  /** Padded(m) spelled out for the new_len with 8 * new_len ==
      PaddedBits(|m|). */
  lemma PaddedAt(m: seq<Byte>, newLen: nat)
    requires 8 * newLen == PaddedBits(|m|)
    ensures newLen > |m|
    ensures var bl := BitLength(|m|);
      Padded(m) == m + [0x80] + Zeros(newLen - |m| - 1) + LeBytes(bl % Two32, 4) + LeBytes(bl / Two32, 4)
  {
    PaddedBytes(|m|);
    assert PaddedBits(|m|) / 8 == newLen;
  }

  /** The calloc of new_len + 128 zero bytes, the copy of the message and
      the byte 0x80 after it (md5.cpp:73-76). */
  method NewMessage(input: array<Byte>, len: nat, newLen: nat) returns (msg: array<Byte>)
    requires len <= input.Length && len < newLen
    ensures fresh(msg) && msg.Length == newLen + 128
    ensures msg[..newLen] == input[..len] + [128] + Zeros(newLen - len - 1)
  {
    msg := new Byte[newLen + 128](_ => 0);
    for j := 0 to len
      invariant msg[..j] == input[..j]
      invariant forall q :: j <= q < msg.Length ==> msg[q] == 0
    {
      msg[j] := input[j];
    }
    msg[len] := 128;
    ghost var m, z := input[..len], Zeros(newLen - len - 1);
    forall k | 0 <= k < newLen
      ensures msg[k] == (m + [128] + z)[k]
    {
      if k < len {
        assert msg[..len][k] == m[k];
      }
    }
  }

  /** memcpy(msg + p, &x, 4) for a uint32_t x on a little-endian host. */
  method StoreWord(msg: array<Byte>, p: nat, x: nat)
    requires p + 4 <= msg.Length && x < Two32
    modifies msg
    ensures msg[..p] == old(msg[..p])
    ensures msg[p..p + 4] == LeBytes(x, 4)
    ensures msg[p + 4..] == old(msg[p + 4..])
  {
    var y := x;
    msg[p] := y % 256;
    y := y / 256;
    msg[p + 1] := y % 256;
    y := y / 256;
    msg[p + 2] := y % 256;
    y := y / 256;
    msg[p + 3] := y % 256;
    LeBytesFour(x);
  }

  /** The four bytes of x, lowest first. */
  lemma LeBytesFour(x: nat)
    ensures LeBytes(x, 4) == [x % 256, x / 256 % 256, x / 256 / 256 % 256, x / 256 / 256 / 256 % 256]
  {
    assert LeBytes(x / 256 / 256 / 256, 1) == [x / 256 / 256 / 256 % 256];
    assert LeBytes(x / 256 / 256, 2) == [x / 256 / 256 % 256] + LeBytes(x / 256 / 256 / 256, 1);
    assert LeBytes(x / 256, 3) == [x / 256 % 256] + LeBytes(x / 256 / 256, 2);
  }

  /** The 64 steps of md5.cpp:93-130 on the block at byte offset offset
      of msg, starting from h0 to h3. */
  method Rounds(msg: array<Byte>, offset: nat, h0: bv32, h1: bv32, h2: bv32, h3: bv32)
    returns (a: bv32, b: bv32, c: bv32, d: bv32)
    requires offset + 64 <= msg.Length
    ensures Regs(a, b, c, d) == Steps(Regs(h0, h1, h2, h3), WordsAt(msg[..], offset), StepCount)
  {
    // the cast of md5.cpp:90: the block seen as sixteen words
    var w := WordsAt(msg[..], offset);
    a, b, c, d := h0, h1, h2, h3;
    for i := 0 to 64
      invariant Regs(a, b, c, d) == Steps(Regs(h0, h1, h2, h3), w, i)
    {
      var f: bv32, g: nat;
      if i < 16 {
        f := FF(b, c, d);
        g := i;
      } else if i < 32 {
        f := GG(b, c, d);
        g := (5 * i + 1) % 16;
      } else if i < 48 {
        f := HH(b, c, d);
        g := (3 * i + 5) % 16;
      } else {
        f := II(b, c, d);
        g := (7 * i) % 16;
      }
      assert f == Aux(i, b, c, d) && g == WordIndex(i);
      var temp := d;
      d := c;
      c := b;
      b := NewB(a, b, f, K[i], w[g], Shift(i));
      a := temp;
    }
  }

  /** The block loop of md5.cpp:87-137: h0 to h3 after every 64-byte
      block of the first newLen + 8 bytes of msg. */
  method ProcessBlocks(msg: array<Byte>, newLen: nat) returns (h0: bv32, h1: bv32, h2: bv32, h3: bv32)
    requires newLen % 64 == 56 && newLen + 8 <= msg.Length
    ensures Regs(h0, h1, h2, h3) == Blocks(msg[..newLen + 8], (newLen + 8) / 64)
  {
    h0, h1, h2, h3 := 0x67452301, 0xefcdab89, 0x98badcfe, 0x10325476;
    ghost var p := msg[..newLen + 8];
    ghost var blocks := 0;
    var offset := 0;
    while offset < newLen
      invariant offset == 64 * blocks <= newLen + 8
      invariant Regs(h0, h1, h2, h3) == Blocks(p, blocks)
      decreases newLen + 8 - offset
    {
      BlockFits(blocks, newLen);
      var a, b, c, d := Rounds(msg, offset, h0, h1, h2, h3);
      BlocksNext(msg[..], p, blocks, Regs(h0, h1, h2, h3), Regs(a, b, c, d));
      var r := AddRegs(Regs(h0, h1, h2, h3), Regs(a, b, c, d));
      h0, h1, h2, h3 := r.a, r.b, r.c, r.d;
      offset := offset + 64;
      blocks := blocks + 1;
    }
    BlockCount(blocks, newLen);
  }

  /** A block that starts before new_len ends within new_len + 8. */
  lemma BlockFits(n: nat, newLen: nat)
    requires newLen % 64 == 56 && 64 * n < newLen
    ensures 64 * (n + 1) <= newLen + 8
  {
    var q := newLen / 64;
    assert newLen == 64 * q + 56;
  }

  /** The block loop stops after (new_len + 8) / 64 blocks. */
  lemma BlockCount(n: nat, newLen: nat)
    requires newLen % 64 == 56 && newLen <= 64 * n <= newLen + 8
    ensures n == (newLen + 8) / 64
  {
    var q := newLen / 64;
    assert newLen == 64 * q + 56;
    assert newLen + 8 == 64 * (q + 1);
  }

  /** The registers after every block of the padded message are the
      digest. */
  lemma DigestOf(m: seq<Byte>, p: seq<Byte>, newLen: nat, r: Regs)
    requires p == Padded(m) && |p| == newLen + 8 && newLen % 64 == 56
    requires r == Blocks(p, (newLen + 8) / 64)
    ensures Digest(m) == [r.a, r.b, r.c, r.d]
  {
  }

  /** The copy of h0 to h3 into hash (md5.cpp:140-143). */
  method WriteDigest(hash: array<bv32>, h0: bv32, h1: bv32, h2: bv32, h3: bv32)
    requires hash.Length == 4
    modifies hash
    ensures hash[..] == [h0, h1, h2, h3]
  {
    hash[0], hash[1], hash[2], hash[3] := h0, h1, h2, h3;
  }

  /** MD5::get (md5.cpp:49-146): the digest of the first len bytes of
      input, written to hash[0..3]; the input is only read. */
  method Get(input: array<Byte>, len: nat, hash: array<bv32>)
    requires len <= input.Length && hash.Length == 4
    modifies hash
    ensures hash[..] == Digest(old(input[..len]))
  {
    ghost var m := input[..len];
    var msg, newLen := BuildMessage(input, len);
    ghost var p := msg[..newLen + 8];
    var h0, h1, h2, h3 := ProcessBlocks(msg, newLen);
    assert p == Padded(m);
    DigestOf(m, p, newLen, Regs(h0, h1, h2, h3));
    WriteDigest(hash, h0, h1, h2, h3);
  }
}
