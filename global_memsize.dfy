/** Global::readMem of core/global.cpp: a memory size such as "512MB" read
    as a number of bytes. */
module MemorySizes {
  import opened Wrappers
  import Strings
  import opened Numbers

  /** n << k on an unbounded natural: n * 2^k (see ShlIsMul). */
  function Shl(n: nat, k: nat): nat {
    if k == 0 then n else 2 * Shl(n, k - 1)
  }

  lemma {:induction false} ShlIsMul(n: nat, k: nat)
    ensures Shl(n, k) == n * Pow2(k)
  {
    if k > 0 {
      ShlIsMul(n, k - 1);
      assert n * Pow2(k) == 2 * (n * Pow2(k - 1));
    }
  }

  lemma {:induction false} ShlMono(n: nat, j: nat, k: nat)
    requires j <= k
    ensures Shl(n, j) <= Shl(n, k)
  {
    if j < k {
      ShlMono(n, j, k - 1);
    }
  }

  /** The unit suffix readMem recognises and the number text before it, as
      the chain of find_first_of tests in global.cpp:706-766 decides them:
      a test "find_first_of(u) == position" checks whether the first
      character that is ANY of the letters of u sits at that position. */
  function MemSuffix(str: string): (r: (nat, string))
    requires |str| >= 2
    ensures |r.1| <= |str|
  {
    var end, snd := |str| - 1, |str| - 2;
    if Strings.FindFirstOf(str, {'K'}) == Some(end) then (10, str[..end])
    else if Strings.FindFirstOf(str, {'K', 'B'}) == Some(snd) then (10, str[..snd])
    else if Strings.FindFirstOf(str, {'M'}) == Some(end) then (20, str[..end])
    else if Strings.FindFirstOf(str, {'M', 'B'}) == Some(snd) then (20, str[..snd])
    else if Strings.FindFirstOf(str, {'G'}) == Some(end) then (30, str[..end])
    else if Strings.FindFirstOf(str, {'G', 'B'}) == Some(snd) then (30, str[..snd])
    else if Strings.FindFirstOf(str, {'T'}) == Some(end) then (40, str[..end])
    else if Strings.FindFirstOf(str, {'T', 'B'}) == Some(snd) then (40, str[..snd])
    else if Strings.FindFirstOf(str, {'P'}) == Some(end) then (50, str[..end])
    else if Strings.FindFirstOf(str, {'P', 'B'}) == Some(snd) then (50, str[..snd])
    else if Strings.FindFirstOf(str, {'B'}) == Some(end) then (0, str[..end])
    else (0, str)
  }

  /** A number text isDigits accepts: 1 to 9 digits. */
  predicate IsShortDecimal(s: string) {
    1 <= |s| <= 9 && AllDigits(s)
  }

  /** Shared tail of readMem: check the number text, read it, and shift it
      left one bit at a time, failing where a shift loses the top bit. */
  method ShiftedMem(numericPart: string, shiftFactor: nat) returns (r: Result<nat>)
    ensures IsShortDecimal(numericPart) && Shl(DecimalValue(numericPart), shiftFactor) < Two64
      ==> r == Success(Shl(DecimalValue(numericPart), shiftFactor))
    ensures !(IsShortDecimal(numericPart) && Shl(DecimalValue(numericPart), shiftFactor) < Two64)
      ==> r == Failure(IOError)
  {
    var ok := IsDigits(numericPart, 0, |numericPart|);
    assert Scanned(numericPart, 0, |numericPart|) == numericPart;
    if !ok {
      return Failure(IOError);
    }
    var n := DecimalValue(numericPart);
    Pow10Mono(|numericPart|, 9);
    var mem := n;
    var i := 0;
    while i < shiftFactor
      invariant 0 <= i <= shiftFactor
      invariant mem == Shl(n, i) < Two64
    {
      // uint64_t newMem = mem << 1: the bit shifted out of the top is lost
      var newMem := if mem * 2 < Two64 then mem * 2 else mem * 2 - Two64;
      if newMem < mem {
        ShlMono(n, i + 1, shiftFactor);
        return Failure(IOError);
      }
      mem := newMem;
      i := i + 1;
    }
    return Success(mem);
  }

  /** Global::readMem (global.cpp:697-784) as written: IOError for a string
      shorter than 2, a number text that is not 1 to 9 digits, or a size that
      does not fit 64 bits; otherwise number << shift (ShlIsMul). */
  method ReadMem(str: string) returns (r: Result<nat>)
    ensures |str| < 2 ==> r == Failure(IOError)
    ensures |str| >= 2 ==> var (shift, num) := MemSuffix(str);
      if IsShortDecimal(num) && Shl(DecimalValue(num), shift) < Two64
      then r == Success(Shl(DecimalValue(num), shift))
      else r == Failure(IOError)
  {
    if |str| < 2 {
      return Failure(IOError);
    }
    var (shiftFactor, numericPart) := MemSuffix(str);
    r := ShiftedMem(numericPart, shiftFactor);
  }

  /** The unit letters readMem knows, and the shift each one selects. */
  const UnitLetters: set<char> := {'K', 'M', 'G', 'T', 'P'}

  function LetterShift(c: char): nat
    requires c in UnitLetters
  {
    if c == 'K' then 10 else if c == 'M' then 20 else if c == 'G' then 30
    else if c == 'T' then 40 else 50
  }

  /** find_first_of on a number followed by one letter. */
  lemma FindAfterNumberOne(d: string, c: char, letters: set<char>)
    requires AllDigits(d)
    requires forall x :: x in letters ==> 'A' <= x <= 'Z'
    ensures Strings.FindFirstOf(d + [c], letters) == if c in letters then Some(|d|) else None
  {
    Strings.FindFirstOfAfter(d, [c], letters);
  }

  /** find_first_of on a number followed by two letters. */
  lemma FindAfterNumberTwo(d: string, c: char, e: char, letters: set<char>)
    requires AllDigits(d)
    requires forall x :: x in letters ==> 'A' <= x <= 'Z'
    ensures Strings.FindFirstOf(d + [c, e], letters) ==
      if c in letters then Some(|d|) else if e in letters then Some(|d| + 1) else None
  {
    Strings.FindFirstOfAfter(d, [c, e], letters);
    assert [c, e][1..] == [e];
  }

  /** A number followed by K, M, G, T or P is shifted by that unit's shift. */
  lemma MemSuffixLetter(d: string, c: char)
    requires IsShortDecimal(d) && c in UnitLetters
    ensures MemSuffix(d + [c]) == (LetterShift(c), d)
  {
    var s := d + [c];
    assert s[..|d|] == d;
    FindAfterNumberOne(d, c, {'K'});
    if c != 'K' {
      FindAfterNumberOne(d, c, {'K', 'B'});
      FindAfterNumberOne(d, c, {'M'});
      if c != 'M' {
        FindAfterNumberOne(d, c, {'M', 'B'});
        FindAfterNumberOne(d, c, {'G'});
        if c != 'G' {
          FindAfterNumberOne(d, c, {'G', 'B'});
          FindAfterNumberOne(d, c, {'T'});
          if c != 'T' {
            FindAfterNumberOne(d, c, {'T', 'B'});
            FindAfterNumberOne(d, c, {'P'});
          }
        }
      }
    }
  }

  /** A number followed by KB, MB, GB, TB or PB is shifted by that unit's
      shift. */
  lemma MemSuffixLetterB(d: string, c: char)
    requires IsShortDecimal(d) && c in UnitLetters
    ensures MemSuffix(d + [c, 'B']) == (LetterShift(c), d)
  {
    var s := d + [c, 'B'];
    assert s[..|d|] == d;
    FindAfterNumberTwo(d, c, 'B', {'K'});
    FindAfterNumberTwo(d, c, 'B', {'K', 'B'});
    if c != 'K' {
      FindAfterNumberTwo(d, c, 'B', {'M'});
      FindAfterNumberTwo(d, c, 'B', {'M', 'B'});
      if c != 'M' {
        FindAfterNumberTwo(d, c, 'B', {'G'});
        FindAfterNumberTwo(d, c, 'B', {'G', 'B'});
        if c != 'G' {
          FindAfterNumberTwo(d, c, 'B', {'T'});
          FindAfterNumberTwo(d, c, 'B', {'T', 'B'});
          if c != 'T' {
            FindAfterNumberTwo(d, c, 'B', {'P'});
            FindAfterNumberTwo(d, c, 'B', {'P', 'B'});
          }
        }
      }
    }
  }

  /** A number followed by B alone is a count of bytes: shift 0. */
  lemma MemSuffixBytes(d: string)
    requires IsShortDecimal(d)
    ensures MemSuffix(d + ['B']) == (0, d)
  {
    var s := d + ['B'];
    assert s[..|d|] == d;
    FindAfterNumberOne(d, 'B', {'K'});
    FindAfterNumberOne(d, 'B', {'K', 'B'});
    FindAfterNumberOne(d, 'B', {'M'});
    FindAfterNumberOne(d, 'B', {'M', 'B'});
    FindAfterNumberOne(d, 'B', {'G'});
    FindAfterNumberOne(d, 'B', {'G', 'B'});
    FindAfterNumberOne(d, 'B', {'T'});
    FindAfterNumberOne(d, 'B', {'T', 'B'});
    FindAfterNumberOne(d, 'B', {'P'});
    FindAfterNumberOne(d, 'B', {'P', 'B'});
    FindAfterNumberOne(d, 'B', {'B'});
  }

  /** A bare number of two or more digits has no unit: shift 0. */
  lemma MemSuffixOfNumber(d: string)
    requires IsShortDecimal(d) && |d| >= 2
    ensures MemSuffix(d) == (0, d)
  {
    var s := d[..|d| - 1];
    assert d == s + [d[|d| - 1]];
    FindAfterNumberOne(s, d[|d| - 1], {'K'});
    FindAfterNumberOne(s, d[|d| - 1], {'M'});
    FindAfterNumberOne(s, d[|d| - 1], {'G'});
    FindAfterNumberOne(s, d[|d| - 1], {'T'});
    FindAfterNumberOne(s, d[|d| - 1], {'P'});
    FindAfterNumberOne(s, d[|d| - 1], {'B'});
    var t := d[..|d| - 2];
    assert d == t + [d[|d| - 2], d[|d| - 1]];
    FindAfterNumberTwo(t, d[|d| - 2], d[|d| - 1], {'K', 'B'});
    FindAfterNumberTwo(t, d[|d| - 2], d[|d| - 1], {'M', 'B'});
    FindAfterNumberTwo(t, d[|d| - 2], d[|d| - 1], {'G', 'B'});
    FindAfterNumberTwo(t, d[|d| - 2], d[|d| - 1], {'T', 'B'});
    FindAfterNumberTwo(t, d[|d| - 2], d[|d| - 1], {'P', 'B'});
  }

  lemma Pow2Ten()
    ensures Pow2(10) == 1024
  {
    assert Pow2(2) == 4;
    assert Pow2(4) == 16;
    assert Pow2(6) == 64;
    assert Pow2(8) == 256;
  }

  lemma ShlFive()
    ensures Shl(5, 10) == 5120
  {
    ShlIsMul(5, 10);
    Pow2Ten();
  }

  /** The suffix test as written accepts "5BB": find_first_of("KB") finds
      the first 'B' at the second-to-last position, so the string is read as
      5 KiB (5120). */
  lemma ReadMemAcceptsDoubledB()
    ensures MemSuffix("5BB") == (10, "5")
    ensures IsShortDecimal("5") && Shl(DecimalValue("5"), 10) == 5120 < Two64
  {
    FindAfterNumberTwo("5", 'B', 'B', {'K'});
    FindAfterNumberTwo("5", 'B', 'B', {'K', 'B'});
    assert "5" + ['B', 'B'] == "5BB";
    assert "5BB"[..1] == "5";
    ShlFive();
  }
}

/** readMem with its unit-suffix test corrected to an exact suffix match. */
module MemorySizesCorrected {
  import opened Wrappers
  import opened Numbers
  import opened MemorySizes

  /** The split readMem evidently intends: str ends in exactly one unit
      (K, M, G, T or P, optionally followed by B, or B alone) or in none, and
      the number text is what comes before that unit. */
  function MemSuffixCorrected(str: string): (r: (nat, string))
    ensures |r.1| <= |str| && r.1 == str[..|r.1|]
    ensures var unit := str[|r.1|..];
      || (unit == [] && r.0 == 0)
      || (unit == ['B'] && r.0 == 0)
      || (|unit| == 1 && unit[0] in UnitLetters && r.0 == LetterShift(unit[0]))
      || (|unit| == 2 && unit[0] in UnitLetters && unit[1] == 'B' && r.0 == LetterShift(unit[0]))
    ensures |str| > 0 && (str[|str| - 1] in UnitLetters || str[|str| - 1] == 'B') ==> |r.1| < |str|
  {
    var n := |str|;
    if n >= 1 && str[n - 1] in UnitLetters then (LetterShift(str[n - 1]), str[..n - 1])
    else if n >= 2 && str[n - 1] == 'B' && str[n - 2] in UnitLetters then (LetterShift(str[n - 2]), str[..n - 2])
    else if n >= 1 && str[n - 1] == 'B' then (0, str[..n - 1])
    else (0, str)
  }

  /** readMem with the corrected suffix split. */
  method ReadMemCorrected(str: string) returns (r: Result<nat>)
    ensures |str| < 2 ==> r == Failure(IOError)
    ensures |str| >= 2 ==> var (shift, num) := MemSuffixCorrected(str);
      if IsShortDecimal(num) && Shl(DecimalValue(num), shift) < Two64
      then r == Success(Shl(DecimalValue(num), shift))
      else r == Failure(IOError)
  {
    if |str| < 2 {
      return Failure(IOError);
    }
    var (shiftFactor, numericPart) := MemSuffixCorrected(str);
    r := ShiftedMem(numericPart, shiftFactor);
  }

  /** The suffixes select the shifts: a number followed by K or KB is
      shifted by 10, M/MB by 20, G/GB by 30, T/TB by 40, P/PB by 50, B or no
      unit by 0. On such well-formed strings the test as written and the
      corrected test agree. */
  lemma SuffixesSelectShifts(d: string, c: char)
    requires IsShortDecimal(d) && c in UnitLetters
    ensures MemSuffix(d + [c]) == MemSuffixCorrected(d + [c]) == (LetterShift(c), d)
    ensures MemSuffix(d + [c, 'B']) == MemSuffixCorrected(d + [c, 'B']) == (LetterShift(c), d)
    ensures MemSuffix(d + ['B']) == MemSuffixCorrected(d + ['B']) == (0, d)
    ensures |d| >= 2 ==> MemSuffix(d) == MemSuffixCorrected(d) == (0, d)
  {
    MemSuffixLetter(d, c);
    MemSuffixLetterB(d, c);
    MemSuffixBytes(d);
    CorrectedUnits(d, c);
    if |d| >= 2 {
      MemSuffixOfNumber(d);
    }
  }

  /** The corrected split of a number followed by each kind of unit. */
  lemma CorrectedUnits(d: string, c: char)
    requires IsShortDecimal(d) && c in UnitLetters
    ensures MemSuffixCorrected(d + [c]) == (LetterShift(c), d)
    ensures MemSuffixCorrected(d + [c, 'B']) == (LetterShift(c), d)
    ensures MemSuffixCorrected(d + ['B']) == (0, d)
    ensures MemSuffixCorrected(d) == (0, d)
  {
    var s1, s2, s3 := d + [c], d + [c, 'B'], d + ['B'];
    assert s1[..|d|] == d && s2[..|d|] == d && s3[..|d|] == d;
    assert s3[|s3| - 2] == d[|d| - 1];
    assert IsDigit(d[|d| - 1]);
  }

  /** The corrected parser rejects "5BB": only the last 'B' is a unit and
      "5B" is not a number. */
  lemma ReadMemCorrectedRejectsDoubledB()
    ensures MemSuffixCorrected("5BB") == (0, "5B")
    ensures !IsShortDecimal("5B")
  {
    assert "5BB"[..2] == "5B";
    assert !IsDigit("5B"[1]);
  }
}
