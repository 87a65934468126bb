/** Number formatting and parsing of core/global.cpp: fixed-width hex
    output, hex input, the bounded decimal parser and the memory-size
    parser. Unsigned C++ integers are bounded naturals here; a shift right
    by 4*i is a division by 16^i and a mask with 0xf a remainder by 16. */
module Numbers {
  import opened Wrappers
  import Strings

  const Two32: nat := 0x1_0000_0000
  const Two63: nat := 0x8000_0000_0000_0000
  const Two64: nat := 0x1_0000_0000_0000_0000

  // ---------------------------------------------------------------------
  // arithmetic helpers

  function Pow16(n: nat): (r: nat)
    ensures r > 0
  {
    if n == 0 then 1 else 16 * Pow16(n - 1)
  }

  function Pow2(n: nat): (r: nat)
    ensures r > 0
  {
    if n == 0 then 1 else 2 * Pow2(n - 1)
  }

  function Pow10(n: nat): (r: nat)
    ensures r > 0
  {
    if n == 0 then 1 else 10 * Pow10(n - 1)
  }

  lemma Pow16Widths()
    ensures Pow16(8) == Two32
    ensures Pow16(16) == Two64
  {
    assert Pow16(4) == 0x1_0000;
    assert Pow16(8) == 0x1_0000_0000;
    assert Pow16(12) == 0x1_0000_0000_0000;
  }

  /** A non-zero multiple of d is at least d away from 0. */
  lemma {:induction false} MulBounds(d: int, t: int)
    requires d > 0
    ensures t >= 1 ==> d * t >= d
    ensures t <= -1 ==> d * t <= -d
    decreases if t >= 0 then t else -t
  {
    if t > 1 {
      MulBounds(d, t - 1);
      assert d * t == d * (t - 1) + d;
    } else if t < -1 {
      MulBounds(d, t + 1);
      assert d * t == d * (t + 1) - d;
    }
  }

  /** x is d*k + m with 0 <= m < d exactly when k and m are x's quotient and
      remainder. */
  lemma DivModUnique(x: int, d: int, k: int, m: int)
    requires d > 0 && 0 <= m < d && x == d * k + m
    ensures x / d == k && x % d == m
  {
    var q, r := x / d, x % d;
    assert x == d * q + r;
    MulBounds(d, q - k);
    assert d * (q - k) == d * q - d * k;
  }

  /** Dividing by 16 and then by 16^i is dividing by 16^(i+1). */
  lemma DivPow16(x: nat, i: nat)
    ensures (x / 16) / Pow16(i) == x / Pow16(i + 1)
  {
    var q := x / 16;
    var a := q / Pow16(i);
    var b := q % Pow16(i);
    assert q == Pow16(i) * a + b;
    assert x == 16 * q + x % 16;
    assert Pow16(i + 1) * a == 16 * (Pow16(i) * a);
    DivModUnique(x, Pow16(i + 1), a, 16 * b + x % 16);
  }

  // ---------------------------------------------------------------------
  // hexadecimal output

  const HexDigitChars: string := "0123456789ABCDEF"

  /** Hex digit i of x, counting from the least significant one. */
  function Nibble(x: nat, i: nat): (v: nat)
    ensures v < 16
  {
    if i == 0 then x % 16 else Nibble(x / 16, i - 1)
  }

  /** Nibble(x, i) is (x >> 4i) & 0xf. */
  lemma {:induction false} NibbleIsShiftAndMask(x: nat, i: nat)
    ensures Nibble(x, i) == (x / Pow16(i)) % 16
  {
    if i > 0 {
      NibbleIsShiftAndMask(x / 16, i - 1);
      DivPow16(x, i - 1);
    }
  }

  /** The low n hexadecimal digits of x, most significant first. */
  function HexDigits(x: nat, n: nat): (s: string)
    ensures |s| == n
  {
    if n == 0 then [] else HexDigits(x / 16, n - 1) + [HexDigitChars[x % 16]]
  }

  /** The digit at position n-1-i of HexDigits(x, n) is nibble i of x. */
  lemma {:induction false} HexDigitsNibble(x: nat, n: nat, i: nat)
    requires i < n
    ensures HexDigits(x, n)[n - 1 - i] == HexDigitChars[Nibble(x, i)]
  {
    if i > 0 {
      assert HexDigits(x, n)[n - 1 - i] == HexDigits(x / 16, n - 1)[n - 1 - i];
      HexDigitsNibble(x / 16, n - 1, i - 1);
    }
  }

  /** One more digit in front: nibble i. */
  lemma {:induction false} HexDigitsGrow(x: nat, i: nat)
    ensures HexDigits(x, i + 1) == [HexDigitChars[Nibble(x, i)]] + HexDigits(x, i)
  {
    if i > 0 {
      HexDigitsGrow(x / 16, i - 1);
      var c := [HexDigitChars[x % 16]];
      assert HexDigits(x, i + 1) == HexDigits(x / 16, i) + c;
      assert HexDigits(x, i) == HexDigits(x / 16, i - 1) + c;
      assert [HexDigitChars[Nibble(x, i)]] + HexDigits(x / 16, i - 1) + c
        == [HexDigitChars[Nibble(x, i)]] + (HexDigits(x / 16, i - 1) + c);
    }
  }

  /** The loop shared by Global::uint32ToHexString (global.cpp:113-121) and
      Global::uint64ToHexString (global.cpp:124-132): a string of hexLen
      '0's whose position hexLen-i-1 receives digit (x >> 4i) & 0xf. */
  method FixedWidthHex(x: nat, hexLen: nat) returns (s: string)
    ensures s == HexDigits(x, hexLen)
  {
    s := seq(hexLen, _ => '0');
    var i := 0;
    while i < hexLen
      invariant 0 <= i <= hexLen == |s|
      invariant s[hexLen - i..] == HexDigits(x, i)
    {
      HexDigitsGrow(x, i);
      s := s[hexLen - i - 1 := HexDigitChars[Nibble(x, i)]];
      assert s[hexLen - i - 1..] == [s[hexLen - i - 1]] + s[hexLen - i..];
      i := i + 1;
    }
  }

  /** Global::uint32ToHexString: 8 upper-case hex digits, nibble i at
      position 7-i. */
  method Uint32ToHexString(x: nat) returns (s: string)
    requires x < Two32
    ensures |s| == 8 && s == HexDigits(x, 8)
    ensures forall i :: 0 <= i < 8 ==> s[7 - i] == HexDigitChars[(x / Pow16(i)) % 16]
  {
    s := FixedWidthHex(x, 8);
    forall i | 0 <= i < 8
      ensures s[7 - i] == HexDigitChars[(x / Pow16(i)) % 16]
    {
      HexDigitsNibble(x, 8, i);
      NibbleIsShiftAndMask(x, i);
    }
  }

  /** Global::uint64ToHexString: 16 upper-case hex digits, nibble i at
      position 15-i. */
  method Uint64ToHexString(x: nat) returns (s: string)
    requires x < Two64
    ensures |s| == 16 && s == HexDigits(x, 16)
    ensures forall i :: 0 <= i < 16 ==> s[15 - i] == HexDigitChars[(x / Pow16(i)) % 16]
  {
    s := FixedWidthHex(x, 16);
    forall i | 0 <= i < 16
      ensures s[15 - i] == HexDigitChars[(x / Pow16(i)) % 16]
    {
      HexDigitsNibble(x, 16, i);
      NibbleIsShiftAndMask(x, i);
    }
  }

  // ---------------------------------------------------------------------
  // hexadecimal input

  predicate IsHexChar(c: char) {
    '0' <= c <= '9' || 'A' <= c <= 'F' || 'a' <= c <= 'f'
  }

  predicate AllHex(s: string) {
    forall i :: 0 <= i < |s| ==> IsHexChar(s[i])
  }

  function HexCharValue(c: char): (v: nat)
    requires IsHexChar(c)
    ensures v < 16
  {
    if '0' <= c <= '9' then c as int - '0' as int
    else if 'A' <= c <= 'F' then c as int - 'A' as int + 10
    else c as int - 'a' as int + 10
  }

  /** The value of a string of hex digits, most significant first. */
  function HexValue(s: string): (v: nat)
    requires AllHex(s)
    ensures v < Pow16(|s|)
  {
    if s == [] then 0 else HexValue(s[..|s| - 1]) * 16 + HexCharValue(s[|s| - 1])
  }

  /** x with all but its low n hex digits dropped (x mod 16^n). */
  function LowDigits(x: nat, n: nat): nat {
    if n == 0 then 0 else LowDigits(x / 16, n - 1) * 16 + x % 16
  }

  lemma {:induction false} LowDigitsOfSmall(x: nat, n: nat)
    requires x < Pow16(n)
    ensures LowDigits(x, n) == x
  {
    if n > 0 {
      LowDigitsOfSmall(x / 16, n - 1);
    }
  }

  /** Every character of the digit table is a hex digit worth its
      position. */
  lemma HexDigitCharsValues()
    ensures forall v :: 0 <= v < 16 ==>
      IsHexChar(HexDigitChars[v]) && HexCharValue(HexDigitChars[v]) == v
  {
  }

  /** What uint64ToHexString prints is all hex digits. */
  lemma HexDigitsAreHex(x: nat, n: nat)
    ensures AllHex(HexDigits(x, n))
  {
    HexDigitCharsValues();
    var s := HexDigits(x, n);
    forall i | 0 <= i < n
      ensures IsHexChar(s[i])
    {
      HexDigitsNibble(x, n, n - 1 - i);
    }
  }

  /** Reading back n formatted digits gives the low n digits of x. */
  lemma {:induction false} HexRoundTrip(x: nat, n: nat)
    ensures AllHex(HexDigits(x, n))
    ensures HexValue(HexDigits(x, n)) == LowDigits(x, n)
  {
    HexDigitsAreHex(x, n);
    if n > 0 {
      var s := HexDigits(x, n);
      HexRoundTrip(x / 16, n - 1);
      assert s[..n - 1] == HexDigits(x / 16, n - 1);
      HexDigitCharsValues();
      assert HexCharValue(s[n - 1]) == x % 16;
    }
  }

  /** Global::tryHexStringToUInt64 (global.cpp:226-244): every character
      must be a hex digit, and the stream extraction fails on an empty
      string and on a value that does not fit 64 bits. */
  function TryHexStringToUInt64(str: string): Option<nat> {
    if !AllHex(str) || str == [] || HexValue(str) >= Two64 then None
    else Some(HexValue(str))
  }

  /** Global::hexStringToUInt64 (global.cpp:257-264), which throws IOError
      where the try-variant fails. */
  function HexStringToUInt64(str: string): (r: Result<nat>)
    ensures r.Success? ==> r.value < Two64 && AllHex(str) && r.value == HexValue(str)
    ensures r.Failure? ==> r.error == IOError
  {
    match TryHexStringToUInt64(str)
    case None => Failure(IOError)
    case Some(v) => Success(v)
  }

  /** Parsing what uint64ToHexString prints gives the number back. */
  lemma HexStringRoundTrip(x: nat)
    requires x < Two64
    ensures HexStringToUInt64(HexDigits(x, 16)) == Success(x)
  {
    HexRoundTrip(x, 16);
    Pow16Widths();
    LowDigitsOfSmall(x, 16);
  }

  // ---------------------------------------------------------------------
  // bounded decimal parsing

  /** Global::isDigit (global.cpp:521-524). */
  predicate IsDigit(c: char) {
    '0' <= c <= '9'
  }

  predicate AllDigits(s: string) {
    forall i :: 0 <= i < |s| ==> IsDigit(s[i])
  }

  /** The value of a string of decimal digits. */
  function DecimalValue(s: string): (v: nat)
    requires AllDigits(s)
    ensures v < Pow10(|s|)
  {
    if s == [] then 0 else DecimalValue(s[..|s| - 1]) * 10 + (s[|s| - 1] as int - '0' as int)
  }

  /** The characters the scanning loop of isDigits/parseDigits visits:
      positions start..end, cut off at the end of str. */
  function Scanned(str: string, start: nat, end: nat): string {
    var hi := if end < |str| then end else |str|;
    if start < hi then str[start..hi] else []
  }

  lemma Pow10Nine()
    ensures Pow10(9) == 1_000_000_000
  {
  }

  lemma {:induction false} Pow10Mono(m: nat, n: nat)
    requires m <= n
    ensures Pow10(m) <= Pow10(n)
  {
    if m < n {
      Pow10Mono(m, n - 1);
    }
  }

  /** The scanned range, character by character. */
  lemma ScannedChars(str: string, start: nat, end: nat)
    ensures var hi := if end < |str| then end else |str|;
      |Scanned(str, start, end)| == (if start < hi then hi - start else 0)
    ensures forall k :: 0 <= k < |Scanned(str, start, end)| ==>
      Scanned(str, start, end)[k] == str[start + k]
  {
  }

  /** One more digit read: the value of the longer prefix. */
  lemma DecimalValueStep(sc: string, k: nat)
    requires k < |sc| && AllDigits(sc[..k]) && IsDigit(sc[k])
    ensures AllDigits(sc[..k + 1])
    ensures DecimalValue(sc[..k + 1]) == DecimalValue(sc[..k]) * 10 + (sc[k] as int - '0' as int)
  {
    assert sc[..k + 1][..k] == sc[..k];
  }

  /** Global::isDigits(str, start, end) (global.cpp:539-560): false for an
      empty range and a range longer than 9, and otherwise whether every
      scanned character is a digit. The final 31-bit overflow check cannot
      fire, as at most 9 digits are read. */
  method IsDigits(str: string, start: nat, end: nat) returns (b: bool)
    ensures b <==> start < end && end - start <= 9 && AllDigits(Scanned(str, start, end))
  {
    if end <= start {
      return false;
    }
    if end - start > 9 {
      return false;
    }
    ghost var sc := Scanned(str, start, end);
    ScannedChars(str, start, end);
    var value := 0;
    var i := start;
    while i < end && i < |str|
      invariant start <= i <= start + |sc|
      invariant AllDigits(sc[..i - start])
      invariant value == DecimalValue(sc[..i - start])
    {
      var c := str[i];
      if !IsDigit(c) {
        assert sc[i - start] == c;
        return false;
      }
      DecimalValueStep(sc, i - start);
      value := value * 10 + (c as int - '0' as int);
      i := i + 1;
    }
    assert sc[..i - start] == sc;
    Pow10Mono(|sc|, 9);
    // the check (value & 0x7FFFFFFF) != value of the source never holds
    assert value < 0x8000_0000;
    return true;
  }

  /** Global::parseDigits(str, start, end) (global.cpp:569-590): throws
      IOError on an empty range or one longer than 9; returns 0 when a
      scanned character is not a digit, and otherwise the decimal value of
      the scanned characters. */
  method ParseDigits(str: string, start: nat, end: nat) returns (r: Result<nat>)
    ensures r.Failure? <==> end <= start || end - start > 9
    ensures r.Failure? ==> r.error == IOError
    ensures r.Success? && !AllDigits(Scanned(str, start, end)) ==> r.value == 0
    ensures r.Success? && AllDigits(Scanned(str, start, end)) ==>
      r.value == DecimalValue(Scanned(str, start, end))
    ensures r.Success? ==> r.value < 1_000_000_000
  {
    if end <= start {
      return Failure(IOError);
    }
    if end - start > 9 {
      return Failure(IOError);
    }
    ghost var sc := Scanned(str, start, end);
    ScannedChars(str, start, end);
    var value := 0;
    var i := start;
    while i < end && i < |str|
      invariant start <= i <= start + |sc|
      invariant AllDigits(sc[..i - start])
      invariant value == DecimalValue(sc[..i - start])
    {
      var c := str[i];
      if !IsDigit(c) {
        assert sc[i - start] == c;
        return Success(0);
      }
      DecimalValueStep(sc, i - start);
      value := value * 10 + (c as int - '0' as int);
      i := i + 1;
    }
    assert sc[..i - start] == sc;
    Pow10Mono(|sc|, 9);
    Pow10Nine();
    // the overflow check (value & 0x7FFFFFFF) != value never holds
    assert value < 0x8000_0000;
    return Success(value);
  }
}
