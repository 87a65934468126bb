/** String utilities of core/global.cpp: trimming, prefixes and suffixes,
    splitting and joining, ASCII case folding and searching.
    A C++ `std::string` is a `string` (sequence of characters) here. */
module Strings {
  import opened Wrappers

  const NUL: char := 0 as char
  const VT: char := 11 as char
  const FF: char := 12 as char

  /** The characters Global::trim removes by default (" \t\r\n\v\f"). */
  const Whitespace: string := [' ', '\t', '\r', '\n', VT, FF]

  // ---------------------------------------------------------------------
  // C-string membership (strchr)

  /** The characters of s before its first NUL: what `s.c_str()` shows to C. */
  function CStr(s: string): (r: string)
    ensures NUL !in r
    ensures r <= s
    ensures |r| < |s| ==> s[|r|] == NUL
  {
    if s == [] || s[0] == NUL then [] else [s[0]] + CStr(s[1..])
  }

  /** strchr(str, c) != NULL (global.cpp:593-602). strchr also finds the
      terminating NUL, so NUL is contained in every string. */
  predicate CContains(str: string, c: char) {
    c == NUL || c in CStr(str)
  }

  lemma {:induction false} CStrNoNul(s: string)
    requires NUL !in s
    ensures CStr(s) == s
  {
    if s != [] {
      CStrNoNul(s[1..]);
    }
  }

  /** contains(str, c) is plain membership for a character other than NUL in
      a string without NUL, and always true for NUL. */
  lemma ContainsWithoutNul(str: string, c: char)
    requires NUL !in str
    ensures CContains(str, c) <==> c == NUL || c in str
  {
    CStrNoNul(str);
  }

  /** Global::isWhitespace(char) (global.cpp:313-316), which tests membership
      of " \t\r\n\v\f" with strchr and therefore also accepts NUL. */
  predicate IsWhitespace(c: char) {
    CContains(Whitespace, c)
  }

  lemma WhitespaceChars(c: char)
    ensures IsWhitespace(c) <==> c == NUL || c in Whitespace
  {
    ContainsWithoutNul(Whitespace, c);
  }

  // ---------------------------------------------------------------------
  // trim

  /** std::string::find_first_not_of(delims). */
  function FindFirstNotOf(s: string, delims: string): (r: Option<nat>)
    ensures r.Some? ==> r.value < |s| && s[r.value] !in delims
  {
    if s == [] then None
    else if s[0] !in delims then Some(0)
    else match FindFirstNotOf(s[1..], delims)
      case None => None
      case Some(p) => Some(p + 1)
  }

  /** std::string::find_last_not_of(delims). */
  function FindLastNotOf(s: string, delims: string): (r: Option<nat>)
    ensures r.Some? ==> r.value < |s| && s[r.value] !in delims
  {
    if s == [] then None
    else if s[|s| - 1] !in delims then Some(|s| - 1)
    else FindLastNotOf(s[..|s| - 1], delims)
  }

  /** find_first_not_of skips only delimiters, and finds nothing exactly
      when s is all delimiters. */
  lemma {:induction false} FirstNotOfSpec(s: string, delims: string)
    ensures FindFirstNotOf(s, delims).Some? ==>
      forall j :: 0 <= j < FindFirstNotOf(s, delims).value ==> s[j] in delims
    ensures FindFirstNotOf(s, delims).None? ==> forall j :: 0 <= j < |s| ==> s[j] in delims
  {
    if s != [] && s[0] in delims {
      FirstNotOfSpec(s[1..], delims);
      forall j | 1 <= j < |s|
        ensures s[j] == s[1..][j - 1]
      {
      }
    }
  }

  /** find_last_not_of skips only delimiters from the end, and finds
      nothing exactly when s is all delimiters. */
  lemma {:induction false} LastNotOfSpec(s: string, delims: string)
    ensures FindLastNotOf(s, delims).Some? ==>
      forall j :: FindLastNotOf(s, delims).value < j < |s| ==> s[j] in delims
    ensures FindLastNotOf(s, delims).None? ==> forall j :: 0 <= j < |s| ==> s[j] in delims
  {
    if s != [] && s[|s| - 1] in delims {
      LastNotOfSpec(s[..|s| - 1], delims);
      forall j | 0 <= j < |s| - 1
        ensures s[j] == s[..|s| - 1][j]
      {
      }
    }
  }

  /** std::string::find_first_of(chars): the first position holding any of
      the characters of chars, here given as a set. */
  function FindFirstOf(s: string, chars: set<char>): (r: Option<nat>)
    ensures r.Some? ==> r.value < |s| && s[r.value] in chars
  {
    if s == [] then None
    else if s[0] in chars then Some(0)
    else match FindFirstOf(s[1..], chars)
      case None => None
      case Some(p) => Some(p + 1)
  }

  /** find_first_of stops at the first member of chars, and finds nothing
      exactly when s holds none. */
  lemma {:induction false} FirstOfSpec(s: string, chars: set<char>)
    ensures FindFirstOf(s, chars).Some? ==>
      forall j :: 0 <= j < FindFirstOf(s, chars).value ==> s[j] !in chars
    ensures FindFirstOf(s, chars).None? ==> forall j :: 0 <= j < |s| ==> s[j] !in chars
  {
    if s != [] && s[0] !in chars {
      FirstOfSpec(s[1..], chars);
      forall j | 1 <= j < |s|
        ensures s[j] == s[1..][j - 1]
      {
      }
    }
  }

  /** A position found in a suffix, as a position in the whole string. */
  function ShiftBy(p: Option<nat>, n: nat): Option<nat> {
    match p case None => None case Some(i) => Some(n + i)
  }

  /** A prefix free of chars shifts find_first_of by its length. */
  lemma {:induction false} FindFirstOfAfter(d: string, u: string, chars: set<char>)
    requires forall j :: 0 <= j < |d| ==> d[j] !in chars
    ensures FindFirstOf(d + u, chars) == ShiftBy(FindFirstOf(u, chars), |d|)
  {
    if d == [] {
      assert d + u == u;
    } else {
      assert (d + u)[0] == d[0] && d[0] !in chars;
      assert (d + u)[1..] == d[1..] + u;
      FindFirstOfAfter(d[1..], u, chars);
      assert FindFirstOf(d + u, chars) == ShiftBy(FindFirstOf(d[1..] + u, chars), 1);
    }
  }

  /** Global::trim(s, delims) (global.cpp:360-370): the substring between the
      first and the last character that is not a delimiter. Its result is
      characterised by TrimIsMaximalStrip. */
  function Trim(s: string, delims: string := Whitespace): string {
    match FindLastNotOf(s, delims)
    case None => []
    case Some(p2) =>
      var p1 := match FindFirstNotOf(s, delims) case Some(p) => p case None => 0;
      FirstBeforeLast(s, delims, p2);
      s[p1..p2 + 1]
  }

  /** A last non-delimiter means there is a first one, no later. */
  lemma FirstBeforeLast(s: string, delims: string, p2: nat)
    requires FindLastNotOf(s, delims) == Some(p2)
    ensures FindFirstNotOf(s, delims).Some? && FindFirstNotOf(s, delims).value <= p2
  {
    FirstNotOfSpec(s, delims);
  }

  /** The number of leading delimiter characters of s. */
  function LeadingDelims(s: string, delims: string): (n: nat)
    ensures n <= |s|
    ensures n < |s| ==> s[n] !in delims
  {
    if s == [] || s[0] !in delims then 0 else 1 + LeadingDelims(s[1..], delims)
  }

  /** Every character before LeadingDelims is a delimiter. */
  lemma {:induction false} LeadingDelimsSpec(s: string, delims: string)
    ensures forall j :: 0 <= j < LeadingDelims(s, delims) ==> s[j] in delims
  {
    if s != [] && s[0] in delims {
      LeadingDelimsSpec(s[1..], delims);
      forall j | 1 <= j < LeadingDelims(s, delims)
        ensures s[j] == s[1..][j - 1]
      {
      }
    }
  }

  /** find_first_not_of stops exactly after the leading delimiters. */
  lemma {:induction false} FirstNotOfIsLeading(s: string, delims: string)
    ensures FindFirstNotOf(s, delims) ==
      if LeadingDelims(s, delims) < |s| then Some(LeadingDelims(s, delims)) else None
  {
    if s != [] && s[0] in delims {
      FirstNotOfIsLeading(s[1..], delims);
    }
  }

  /** Trim gives the empty string exactly when s is all delimiters. */
  lemma TrimEmpty(s: string, delims: string)
    ensures Trim(s, delims) == [] <==> forall j :: 0 <= j < |s| ==> s[j] in delims
  {
    var r := FindLastNotOf(s, delims);
    LastNotOfSpec(s, delims);
    if r.Some? {
      var p2 := r.value;
      TrimAt(s, delims, p2);
      assert |Trim(s, delims)| == p2 + 1 - LeadingDelims(s, delims) > 0;
      assert s[p2] !in delims;
    }
  }

  /** Trim removes exactly the longest run of delimiters at each end: the
      result starts at the first non-delimiter, ends at the last one, all it
      dropped are delimiters, and it is empty exactly when s is all
      delimiters. */
  lemma TrimIsMaximalStrip(s: string, delims: string)
    ensures LeadingDelims(s, delims) + |Trim(s, delims)| <= |s|
    ensures Trim(s, delims) == s[LeadingDelims(s, delims)..LeadingDelims(s, delims) + |Trim(s, delims)|]
    ensures forall j :: LeadingDelims(s, delims) + |Trim(s, delims)| <= j < |s| ==> s[j] in delims
    ensures Trim(s, delims) == [] <==> forall j :: 0 <= j < |s| ==> s[j] in delims
    ensures Trim(s, delims) != [] ==> Trim(s, delims)[0] !in delims
    ensures Trim(s, delims) != [] ==> Trim(s, delims)[|Trim(s, delims)| - 1] !in delims
  {
    TrimEmpty(s, delims);
    TrimSlice(s, delims);
  }

  /** Trim as a slice from the first to the last non-delimiter. */
  lemma TrimBounds(s: string, delims: string)
    ensures FindLastNotOf(s, delims).None? ==>
      Trim(s, delims) == [] && LeadingDelims(s, delims) == |s|
    ensures FindLastNotOf(s, delims).Some? ==>
      var n, p2 := LeadingDelims(s, delims), FindLastNotOf(s, delims).value;
      n <= p2 && Trim(s, delims) == s[n..p2 + 1]
  {
    var n := LeadingDelims(s, delims);
    var r := FindLastNotOf(s, delims);
    if r.None? {
      LastNotOfSpec(s, delims);
      assert n == |s|;
    } else {
      TrimAt(s, delims, r.value);
    }
  }

  /** The position and the ends of the trimmed substring. */
  lemma TrimSlice(s: string, delims: string)
    ensures LeadingDelims(s, delims) + |Trim(s, delims)| <= |s|
    ensures Trim(s, delims) == s[LeadingDelims(s, delims)..LeadingDelims(s, delims) + |Trim(s, delims)|]
    ensures forall j :: LeadingDelims(s, delims) + |Trim(s, delims)| <= j < |s| ==> s[j] in delims
    ensures Trim(s, delims) != [] ==> Trim(s, delims)[0] !in delims
    ensures Trim(s, delims) != [] ==> Trim(s, delims)[|Trim(s, delims)| - 1] !in delims
  {
    TrimEnds(s, delims);
    TrimTail(s, delims);
    var n, t := LeadingDelims(s, delims), Trim(s, delims);
    var r := FindLastNotOf(s, delims);
    if r.Some? {
      TrimAt(s, delims, r.value);
      assert n + |t| == r.value + 1;
    } else {
      TrimBounds(s, delims);
    }
  }

  /** Everything after the trimmed substring is a delimiter. */
  lemma TrimTail(s: string, delims: string)
    ensures LeadingDelims(s, delims) + |Trim(s, delims)| <= |s|
    ensures forall j :: LeadingDelims(s, delims) + |Trim(s, delims)| <= j < |s| ==> s[j] in delims
  {
    var n, t := LeadingDelims(s, delims), Trim(s, delims);
    var r := FindLastNotOf(s, delims);
    LastNotOfSpec(s, delims);
    if r.Some? {
      TrimAt(s, delims, r.value);
      assert n + |t| == r.value + 1;
    } else {
      assert t == [];
    }
  }

  /** With p2 the last non-delimiter, Trim is the slice up to it. */
  lemma TrimAt(s: string, delims: string, p2: nat)
    requires FindLastNotOf(s, delims) == Some(p2)
    ensures LeadingDelims(s, delims) <= p2 && Trim(s, delims) == s[LeadingDelims(s, delims)..p2 + 1]
  {
    FirstNotOfIsLeading(s, delims);
    LeadingDelimsSpec(s, delims);
  }

  /** Character i of the trimmed substring is character i past the leading
      delimiters. */
  lemma TrimChars(s: string, delims: string)
    ensures LeadingDelims(s, delims) + |Trim(s, delims)| <= |s|
    ensures forall i :: 0 <= i < |Trim(s, delims)| ==> Trim(s, delims)[i] == s[LeadingDelims(s, delims) + i]
  {
    var n, t := LeadingDelims(s, delims), Trim(s, delims);
    TrimSlice(s, delims);
    SliceIndex(t, s, n, n + |t|);
  }

  /** Character i of a slice s[lo..hi] is character lo + i of s. */
  lemma SliceIndex(t: string, s: string, lo: nat, hi: nat)
    requires lo <= hi <= |s| && t == s[lo..hi]
    ensures lo + |t| <= |s|
    ensures forall i :: 0 <= i < |t| ==> t[i] == s[lo + i]
  {
  }

  /** The trimmed substring neither starts nor ends with a delimiter. */
  lemma TrimEnds(s: string, delims: string)
    ensures Trim(s, delims) != [] ==> Trim(s, delims)[0] !in delims
    ensures Trim(s, delims) != [] ==> Trim(s, delims)[|Trim(s, delims)| - 1] !in delims
  {
    var f := FindLastNotOf(s, delims);
    if f.Some? {
      var n, p2 := LeadingDelims(s, delims), f.value;
      TrimAt(s, delims, p2);
      var r := s[n..p2 + 1];
      assert r[0] == s[n] && r[|r| - 1] == s[p2];
    }
  }

  lemma TrimLength(s: string, delims: string)
    ensures |Trim(s, delims)| <= |s|
  {
    TrimIsMaximalStrip(s, delims);
  }

  /** A string whose ends are not delimiters is its own trim. */
  lemma TrimOfTrimmed(s: string, delims: string)
    requires s != [] ==> s[0] !in delims && s[|s| - 1] !in delims
    ensures Trim(s, delims) == s
  {
    if s != [] {
      assert FindLastNotOf(s, delims) == Some(|s| - 1);
      assert FindFirstNotOf(s, delims) == Some(0);
    }
  }

  /** Trimming twice is the same as trimming once. */
  lemma TrimIdempotent(s: string, delims: string)
    ensures Trim(Trim(s, delims), delims) == Trim(s, delims)
  {
    TrimIsMaximalStrip(s, delims);
    TrimOfTrimmed(Trim(s, delims), delims);
  }

  // ---------------------------------------------------------------------
  // prefixes and suffixes

  /** Global::isPrefix (global.cpp:326-332). */
  predicate IsPrefix(s: string, prefix: string) {
    |s| >= |prefix| && s[..|prefix|] == prefix
  }

  /** Global::isSuffix (global.cpp:335-341). */
  predicate IsSuffix(s: string, suffix: string) {
    |s| >= |suffix| && s[|s| - |suffix|..] == suffix
  }

  /** Global::chopPrefix (global.cpp:344-349): throws StringError unless
      prefix is a prefix of s, and otherwise returns the rest of s. */
  function ChopPrefix(s: string, prefix: string): (r: Result<string>)
    ensures r.Success? <==> IsPrefix(s, prefix)
    ensures r.Success? ==> prefix + r.value == s
    ensures r.Failure? ==> r.error == StringError
  {
    if !IsPrefix(s, prefix) then Failure(StringError) else Success(s[|prefix|..])
  }

  /** Global::chopSuffix (global.cpp:352-357). */
  function ChopSuffix(s: string, suffix: string): (r: Result<string>)
    ensures r.Success? <==> IsSuffix(s, suffix)
    ensures r.Success? ==> r.value + suffix == s
    ensures r.Failure? ==> r.error == StringError
  {
    if !IsSuffix(s, suffix) then Failure(StringError) else Success(s[..|s| - |suffix|])
  }

  // ---------------------------------------------------------------------
  // concat and split

  /** The elements of strs with delim between consecutive elements. */
  function Joined(strs: seq<string>, delim: string): string
  {
    if |strs| == 0 then []
    else if |strs| == 1 then strs[0]
    else Joined(strs[..|strs| - 1], delim) + delim + strs[|strs| - 1]
  }

  function SumLengths(strs: seq<string>): nat {
    if strs == [] then 0 else SumLengths(strs[..|strs| - 1]) + |strs[|strs| - 1]|
  }

  /** The length reserved by concat: all elements plus (n-1) delimiters. */
  lemma {:induction false} JoinedLength(strs: seq<string>, delim: string)
    ensures |strs| > 0 ==> |Joined(strs, delim)| == SumLengths(strs) + (|strs| - 1) * |delim|
    ensures |strs| == 0 ==> Joined(strs, delim) == []
  {
    var k := |strs|;
    if k == 1 {
      assert strs[..0] == [];
    } else if k > 1 {
      var init := strs[..k - 1];
      JoinedLength(init, delim);
      assert |Joined(strs, delim)| == |Joined(init, delim)| + |delim| + |strs[k - 1]|;
      assert (k - 2) * |delim| + |delim| == (k - 1) * |delim|;
    }
  }

  /** Global::concat(strs, delim, start, end) (global.cpp:415-434), which the
      other overloads (global.cpp:387-412) call with the whole range. The
      first loop computes the length that is reserved; the second appends. */
  method Concat(strs: seq<string>, delim: string, start: nat, end: nat) returns (s: string)
    requires end <= |strs|
    ensures start <= end ==> s == Joined(strs[start..end], delim)
    ensures start > end ==> s == []
  {
    var totalLen := 0;
    var i := start;
    while i < end
      invariant i >= start
      invariant i > start ==> i <= end && totalLen == |Joined(strs[start..i], delim)|
      invariant i == start ==> totalLen == 0
    {
      JoinedSnoc(strs, delim, start, i);
      if i > start {
        totalLen := totalLen + |delim|;
      }
      totalLen := totalLen + |strs[i]|;
      i := i + 1;
    }
    s := [];
    i := start;
    while i < end
      invariant i >= start
      invariant i > start ==> i <= end && s == Joined(strs[start..i], delim)
      invariant i == start ==> s == []
    {
      JoinedSnoc(strs, delim, start, i);
      if i > start {
        s := s + delim;
      }
      s := s + strs[i];
      i := i + 1;
    }
    assert start < end ==> |s| == totalLen;
  }

  /** The range start..i + 1 joined: the range start..i, the delimiter
      and element i, or element i alone when the range was empty. */
  lemma JoinedSnoc(strs: seq<string>, delim: string, start: nat, i: nat)
    requires start <= i < |strs|
    ensures i == start ==> Joined(strs[start..i + 1], delim) == strs[i]
    ensures i > start ==> Joined(strs[start..i + 1], delim) == Joined(strs[start..i], delim) + delim + strs[i]
  {
    var part := strs[start..i + 1];
    assert part[..|part| - 1] == strs[start..i];
    assert part[|part| - 1] == strs[i];
  }

  /** Cutting s at every delim, read left to right: a delimiter starts a new
      piece, any other character extends the last one. */
  function SplitAll(s: string, delim: char): (pieces: seq<string>)
    ensures |pieces| > 0
    decreases |s|
  {
    if s == [] then [[]]
    else
      var p := SplitAll(s[..|s| - 1], delim);
      var c := s[|s| - 1];
      if c == delim then p + [[]] else p[..|p| - 1] + [p[|p| - 1] + [c]]
  }

  /** The tokens std::getline(in, token, delim) yields on a stream holding s:
      the pieces between delimiters, where a delimiter at the very end does
      not start another (empty) token and an empty s yields none. */
  function Tokens(s: string, delim: char): seq<string> {
    if s == [] then []
    else if s[|s| - 1] == delim then SplitAll(s[..|s| - 1], delim)
    else SplitAll(s, delim)
  }

  /** How SplitAll grows when one character is appended. */
  lemma SplitAllSnoc(s: string, c: char, delim: char)
    ensures c == delim ==> SplitAll(s + [c], delim) == SplitAll(s, delim) + [[]]
    ensures c != delim ==> var p := SplitAll(s, delim);
      SplitAll(s + [c], delim) == p[..|p| - 1] + [p[|p| - 1] + [c]]
  {
    assert (s + [c])[..|s|] == s;
  }

  /** The last piece of SplitAll is empty exactly when s is empty or ends
      with the delimiter; in the latter case the other pieces are those of s
      without its last character. */
  lemma SplitAllLast(s: string, delim: char)
    ensures var p := SplitAll(s, delim);
      (p[|p| - 1] == [] <==> s == [] || s[|s| - 1] == delim)
    ensures s == [] ==> SplitAll(s, delim) == [[]]
    ensures s != [] && s[|s| - 1] == delim ==>
      var p := SplitAll(s, delim); p[..|p| - 1] == SplitAll(s[..|s| - 1], delim)
  {
    if s != [] && s[|s| - 1] == delim {
      var p := SplitAll(s[..|s| - 1], delim);
      assert (p + [[]])[..|p|] == p;
    }
  }

  /** No piece of SplitAll contains the delimiter. */
  lemma {:induction false} SplitAllPiecesFree(s: string, delim: char)
    ensures forall k :: 0 <= k < |SplitAll(s, delim)| ==> delim !in SplitAll(s, delim)[k]
    decreases |s|
  {
    if s != [] {
      var p := SplitAll(s[..|s| - 1], delim);
      var c := s[|s| - 1];
      SplitAllPiecesFree(s[..|s| - 1], delim);
      if c != delim {
        var q := p[..|p| - 1] + [p[|p| - 1] + [c]];
        forall k | 0 <= k < |q|
          ensures delim !in q[k]
        {
          if k < |p| - 1 {
            assert q[k] == p[k];
          } else {
            assert q[k] == p[|p| - 1] + [c];
          }
        }
      } else {
        assert forall k :: 0 <= k < |p| ==> (p + [[]])[k] == p[k];
      }
    }
  }

  /** Joining the pieces of SplitAll with the delimiter gives back the
      input. */
  lemma {:induction false} SplitAllJoined(s: string, delim: char)
    ensures Joined(SplitAll(s, delim), [delim]) == s
    decreases |s|
  {
    if s != [] {
      var init := s[..|s| - 1];
      var p := SplitAll(init, delim);
      var c := s[|s| - 1];
      SplitAllJoined(init, delim);
      assert init + [c] == s;
      if c == delim {
        var q := p + [[]];
        assert q[..|q| - 1] == p;
      } else {
        var q := p[..|p| - 1] + [p[|p| - 1] + [c]];
        assert q[..|q| - 1] == p[..|p| - 1];
        if |p| > 1 {
          assert Joined(p, [delim]) == Joined(p[..|p| - 1], [delim]) + [delim] + p[|p| - 1];
        }
      }
    }
  }

  /** Global::split(s, delim) (global.cpp:445-453): the tokens getline reads. */
  method Split(s: string, delim: char) returns (tokens: seq<string>)
    ensures tokens == Tokens(s, delim)
  {
    tokens := [];
    var cur: string := [];
    var i := 0;
    while i < |s|
      invariant 0 <= i <= |s|
      invariant tokens + [cur] == SplitAll(s[..i], delim)
    {
      SplitAllStep(s, i, delim, tokens, cur);
      if s[i] == delim {
        tokens := tokens + [cur];
        cur := [];
      } else {
        cur := cur + [s[i]];
      }
      i := i + 1;
    }
    assert s[..i] == s;
    TokensOfSplitAll(s, delim, tokens, cur);
    if cur != [] {
      tokens := tokens + [cur];
    }
  }

  /** The pieces read so far, with cur the piece being read, after one more
      character. */
  lemma SplitAllStep(s: string, i: nat, delim: char, tokens: seq<string>, cur: string)
    requires i < |s| && tokens + [cur] == SplitAll(s[..i], delim)
    ensures s[i] == delim ==> (tokens + [cur]) + [[]] == SplitAll(s[..i + 1], delim)
    ensures s[i] != delim ==> tokens + [cur + [s[i]]] == SplitAll(s[..i + 1], delim)
  {
    var p := tokens + [cur];
    assert p[..|p| - 1] == tokens && p[|p| - 1] == cur;
    assert s[..i + 1] == s[..i] + [s[i]];
    SplitAllSnoc(s[..i], s[i], delim);
  }

  /** At the end of the input, the pending piece is a token unless it is
      empty. */
  lemma TokensOfSplitAll(s: string, delim: char, tokens: seq<string>, cur: string)
    requires tokens + [cur] == SplitAll(s, delim)
    ensures Tokens(s, delim) == if cur != [] then tokens + [cur] else tokens
  {
    SplitAllLast(s, delim);
    var p := tokens + [cur];
    assert p[..|p| - 1] == tokens && p[|p| - 1] == cur;
  }

  /** What Split promises: no token contains the delimiter, there is a token
      exactly when s is non-empty, and the tokens joined by the delimiter give
      back s (with the final delimiter, if s ended with one). */
  lemma SplitProperties(s: string, delim: char)
    ensures forall k :: 0 <= k < |Tokens(s, delim)| ==> delim !in Tokens(s, delim)[k]
    ensures |Tokens(s, delim)| == 0 <==> s == []
    ensures s != [] && s[|s| - 1] == delim ==> Joined(Tokens(s, delim), [delim]) + [delim] == s
    ensures s == [] || s[|s| - 1] != delim ==> Joined(Tokens(s, delim), [delim]) == s
  {
    if s != [] {
      if s[|s| - 1] == delim {
        SplitAllPiecesFree(s[..|s| - 1], delim);
        SplitAllJoined(s[..|s| - 1], delim);
        assert s[..|s| - 1] + [delim] == s;
      } else {
        SplitAllPiecesFree(s, delim);
        SplitAllJoined(s, delim);
      }
    }
  }

  // ---------------------------------------------------------------------
  // ASCII case folding (toupper/tolower in the "C" locale)

  function UpperChar(c: char): char {
    if 'a' <= c <= 'z' then (c as int - 32) as char else c
  }

  function LowerChar(c: char): char {
    if 'A' <= c <= 'Z' then (c as int + 32) as char else c
  }

  function Lowered(s: string): (t: string)
    ensures |t| == |s|
    ensures forall i :: 0 <= i < |s| ==> t[i] == LowerChar(s[i])
  {
    seq(|s|, i requires 0 <= i < |s| => LowerChar(s[i]))
  }

  function Uppered(s: string): (t: string)
    ensures |t| == |s|
    ensures forall i :: 0 <= i < |s| ==> t[i] == UpperChar(s[i])
  {
    seq(|s|, i requires 0 <= i < |s| => UpperChar(s[i]))
  }

  /** Global::toUpper (global.cpp:456-463): a copy with each character
      passed through toupper. */
  method ToUpper(s: string) returns (t: string)
    ensures t == Uppered(s)
  {
    t := s;
    var i := 0;
    while i < |t|
      invariant 0 <= i <= |t| == |s|
      invariant forall j :: 0 <= j < i ==> t[j] == UpperChar(s[j])
      invariant forall j :: i <= j < |t| ==> t[j] == s[j]
    {
      t := t[i := UpperChar(t[i])];
      i := i + 1;
    }
  }

  /** Global::toLower (global.cpp:466-473). */
  method ToLower(s: string) returns (t: string)
    ensures t == Lowered(s)
  {
    t := s;
    var i := 0;
    while i < |t|
      invariant 0 <= i <= |t| == |s|
      invariant forall j :: 0 <= j < i ==> t[j] == LowerChar(s[j])
      invariant forall j :: i <= j < |t| ==> t[j] == s[j]
    {
      t := t[i := LowerChar(t[i])];
      i := i + 1;
    }
  }

  /** Lowering is idempotent and forgets the case of letters. */
  lemma LoweredProperties(s: string)
    ensures Lowered(Lowered(s)) == Lowered(s)
    ensures Lowered(Uppered(s)) == Lowered(s)
    ensures forall i :: 0 <= i < |s| ==> !('A' <= Lowered(s)[i] <= 'Z')
  {
  }

  /** Global::isEqualCaseInsensitive (global.cpp:476-485). */
  method IsEqualCaseInsensitive(s0: string, s1: string) returns (b: bool)
    ensures b <==> Lowered(s0) == Lowered(s1)
  {
    if |s0| != |s1| {
      return false;
    }
    var i := 0;
    while i < |s0|
      invariant 0 <= i <= |s0|
      invariant Lowered(s0)[..i] == Lowered(s1)[..i]
    {
      if LowerChar(s0[i]) != LowerChar(s1[i]) {
        assert Lowered(s0)[i] != Lowered(s1)[i];
        return false;
      }
      assert Lowered(s0)[..i + 1] == Lowered(s0)[..i] + [LowerChar(s0[i])];
      assert Lowered(s1)[..i + 1] == Lowered(s1)[..i] + [LowerChar(s1[i])];
      i := i + 1;
    }
    assert Lowered(s0) == Lowered(s0)[..i] && Lowered(s1) == Lowered(s1)[..i];
    return true;
  }

  // ---------------------------------------------------------------------
  // searching

  /** Global::stringCharsAllAllowed (global.cpp:630-638): every character of
      str passes the strchr test against allowedChars. */
  method StringCharsAllAllowed(str: string, allowedChars: string) returns (b: bool)
    ensures b <==> forall i :: 0 <= i < |str| ==> CContains(allowedChars, str[i])
  {
    var i := 0;
    while i < |str|
      invariant 0 <= i <= |str|
      invariant forall j :: 0 <= j < i ==> CContains(allowedChars, str[j])
    {
      if !CContains(allowedChars, str[i]) {
        return false;
      }
      i := i + 1;
    }
    return true;
  }

  /** contains(vec, elt) (global.cpp:605-611). */
  method ContainsString(vec: seq<string>, elt: string) returns (b: bool)
    ensures b <==> elt in vec
  {
    var i := 0;
    while i < |vec|
      invariant 0 <= i <= |vec|
      invariant elt !in vec[..i]
    {
      if vec[i] == elt {
        return true;
      }
      assert vec[..i + 1] == vec[..i] + [vec[i]];
      i := i + 1;
    }
    assert vec[..i] == vec;
    return false;
  }

  /** indexOf(vec, elt) (global.cpp:620-627): the first position of elt, or
      None where the source returns string::npos. */
  method IndexOfString(vec: seq<string>, elt: string) returns (r: Option<nat>)
    ensures r.Some? ==> r.value < |vec| && vec[r.value] == elt && elt !in vec[..r.value]
    ensures r.None? <==> elt !in vec
  {
    var i := 0;
    while i < |vec|
      invariant 0 <= i <= |vec|
      invariant elt !in vec[..i]
    {
      if vec[i] == elt {
        return Some(i);
      }
      assert vec[..i + 1] == vec[..i] + [vec[i]];
      i := i + 1;
    }
    assert vec[..i] == vec;
    return None;
  }
}
