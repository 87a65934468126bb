/** CommandLoop::processSingleCommandLine of core/commandloop.cpp: one line
    of command input normalised for the command interpreter. */
module CommandLoop {
  import opened Strings
  import TextParsing

  /** The characters the filter keeps: printable ASCII (32 to 126) and tab
      (commandloop.cpp:17). */
  predicate Keeps(c: char) {
    32 <= c as int <= 126 || c == '\t'
  }

  /** s with every character the filter drops left out, in order. */
  function Filtered(s: string): (r: string)
    ensures |r| <= |s|
  {
    if s == [] then []
    else Filtered(s[..|s| - 1]) + (if Keeps(s[|s| - 1]) then [s[|s| - 1]] else [])
  }

  /** The filter keeps only characters it keeps. */
  lemma {:induction false} FilteredKeeps(s: string)
    ensures forall i :: 0 <= i < |Filtered(s)| ==> Keeps(Filtered(s)[i])
  {
    if s != [] {
      FilteredKeeps(s[..|s| - 1]);
    }
  }

  /** s with every tab replaced by a space. */
  function TabsToSpaces(s: string): (r: string)
    ensures |r| == |s|
  {
    seq(|s|, i requires 0 <= i < |s| => if s[i] == '\t' then ' ' else s[i])
  }

  /** What processSingleCommandLine returns for s: trim, filter, cut at the
      first '#', tabs to spaces, trim again. */
  function CommandLineOf(s: string): string {
    Trim(TabsToSpaces(TextParsing.BeforeHash(Filtered(Trim(s)))))
  }

  /** CommandLoop::processSingleCommandLine (commandloop.cpp:8-36). */
  method ProcessSingleCommandLine(s: string) returns (line: string)
    ensures line == CommandLineOf(s)
  {
    var t := Trim(s);
    var buf := new char[|t|](i requires 0 <= i < |t| => t[i]);
    assert buf[..] == t;
    var newLen := FilterInPlace(buf);
    // erase everything from newLen on, then cut at the first '#'
    var cutLen := newLen;
    var commentPos := FindFirstOf(buf[..newLen], {'#'});
    if commentPos.Some? {
      cutLen := commentPos.value;
    }
    assert buf[..cutLen] == TextParsing.BeforeHash(Filtered(t));
    TabsToSpacesInPlace(buf, cutLen);
    line := Trim(buf[..cutLen]);
  }

  /** The filter of processSingleCommandLine (commandloop.cpp:15-20): the
      kept characters are moved to the front of the buffer, in place, with
      a write index that never passes the read index. */
  method FilterInPlace(buf: array<char>) returns (newLen: nat)
    modifies buf
    ensures newLen <= buf.Length
    ensures buf[..newLen] == Filtered(old(buf[..]))
  {
    ghost var orig := buf[..];
    newLen := 0;
    var i := 0;
    while i < buf.Length
      invariant 0 <= newLen <= i <= buf.Length
      invariant buf[..newLen] == Filtered(orig[..i])
      invariant forall k :: i <= k < buf.Length ==> buf[k] == orig[k]
    {
      assert orig[..i + 1][..i] == orig[..i];
      if Keeps(buf[i]) {
        buf[newLen] := buf[i];
        newLen := newLen + 1;
      }
      i := i + 1;
    }
    assert orig[..i] == orig;
  }

  /** The tab pass of processSingleCommandLine (commandloop.cpp:28-30) over
      the first len characters of the buffer, in place. */
  method TabsToSpacesInPlace(buf: array<char>, len: nat)
    requires len <= buf.Length
    modifies buf
    ensures buf[..len] == TabsToSpaces(old(buf[..len]))
  {
    ghost var orig := buf[..len];
    var j := 0;
    while j < len
      invariant 0 <= j <= len
      invariant forall k :: 0 <= k < j ==> buf[k] == (if orig[k] == '\t' then ' ' else orig[k])
      invariant forall k :: j <= k < len ==> buf[k] == orig[k]
    {
      if buf[j] == '\t' {
        buf[j] := ' ';
      }
      j := j + 1;
    }
    assert buf[..len] == TabsToSpaces(orig);
  }

  /** The filter distributes over concatenation: it keeps the surviving
      characters of each part, in order. */
  lemma {:induction false} FilteredAppend(a: string, b: string)
    ensures Filtered(a + b) == Filtered(a) + Filtered(b)
    decreases |b|
  {
    if b == [] {
      assert a + b == a;
    } else {
      var b' := b[..|b| - 1];
      assert (a + b)[..|a + b| - 1] == a + b';
      assert (a + b)[|a + b| - 1] == b[|b| - 1];
      FilteredAppend(a, b');
    }
  }

  /** Text of kept characters passes the filter unchanged. */
  lemma {:induction false} FilteredOfKept(s: string)
    requires forall i :: 0 <= i < |s| ==> Keeps(s[i])
    ensures Filtered(s) == s
  {
    if s != [] {
      FilteredOfKept(s[..|s| - 1]);
    }
  }

  /** A character the normalised line may hold: printable ASCII other
      than '#' (so no tab either). */
  predicate Clean(c: char) {
    c != '#' && c != '\t' && 32 <= c as int <= 126
  }

  /** Before the final trim: no comment, no tab, only printable ASCII, and
      no longer than s. */
  lemma PipelineChars(s: string)
    ensures var u := TabsToSpaces(TextParsing.BeforeHash(Filtered(Trim(s))));
      && |u| <= |s|
      && forall k :: 0 <= k < |u| ==> Clean(u[k])
  {
    TrimLength(s, Whitespace);
    var f := Filtered(Trim(s));
    FilteredKeeps(Trim(s));
    var c := TextParsing.BeforeHash(f);
    forall k | 0 <= k < |c|
      ensures c[k] != '#' && Keeps(c[k])
    {
      assert c[k] in c && f[k] == c[k];
    }
  }

  /** Trimming clean text leaves it clean, with no whitespace at either
      end, and no longer. */
  lemma CleanTrim(u: string)
    requires forall k :: 0 <= k < |u| ==> Clean(u[k])
    ensures var r := Trim(u, Whitespace);
      && (forall i :: 0 <= i < |r| ==> Clean(r[i]))
      && (r != [] ==> r[0] !in Whitespace && r[|r| - 1] !in Whitespace)
      && |r| <= |u|
  {
    TrimEnds(u, Whitespace);
    TrimChars(u, Whitespace);
  }

  /** The result has no comment, no tab, only printable ASCII, no
      surrounding whitespace, and is never longer than the input. */
  lemma CommandLineShape(s: string)
    ensures var r := CommandLineOf(s);
      && (forall i :: 0 <= i < |r| ==> Clean(r[i]))
      && (r != [] ==> r[0] !in Whitespace && r[|r| - 1] !in Whitespace)
      && |r| <= |s|
  {
    var u := TabsToSpaces(TextParsing.BeforeHash(Filtered(Trim(s))));
    PipelineChars(s);
    CleanTrim(u);
  }

  /** Text without '#' and tabs goes through the comment cut and the tab
      pass unchanged. */
  lemma CleanPassesThrough(r: string)
    requires forall i :: 0 <= i < |r| ==> Clean(r[i])
    ensures TextParsing.BeforeHash(r) == r
    ensures TabsToSpaces(r) == r
  {
    assert '#' !in r;
    var u := TabsToSpaces(r);
    assert forall i :: 0 <= i < |r| ==> u[i] == r[i];
  }

  /** A line with no comment, no tab, only printable ASCII and no
      surrounding whitespace is already normalised. */
  lemma NormalisedIsFixed(r: string)
    requires forall i :: 0 <= i < |r| ==> Clean(r[i])
    requires r != [] ==> r[0] !in Whitespace && r[|r| - 1] !in Whitespace
    ensures CommandLineOf(r) == r
  {
    TrimOfTrimmed(r, Whitespace);
    FilteredOfKept(r);
    CleanPassesThrough(r);
  }

  /** Normalising a normalised line changes nothing. */
  lemma CommandLineIdempotent(s: string)
    ensures CommandLineOf(CommandLineOf(s)) == CommandLineOf(s)
  {
    CommandLineShape(s);
    NormalisedIsFixed(CommandLineOf(s));
  }
}
