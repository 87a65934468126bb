/** The small text parsers of core/global.cpp: booleans, comment stripping
    and comma-separated key=value lists. */
module TextParsing {
  import opened Wrappers
  import opened Strings

  // ---------------------------------------------------------------------
  // booleans

  /** Global::boolToString (global.cpp:41-44). */
  function BoolToString(b: bool): (s: string)
    ensures |s| == (if b then 4 else 5)
  {
    if b then "true" else "false"
  }

  /** Global::tryStringToBool (global.cpp:181-195): the trimmed, lower-cased
      text must be exactly "true" or "false". */
  function TryStringToBool(str: string): (r: Option<bool>)
    ensures r.Some? <==> Lowered(Trim(str)) == BoolToString(true) || Lowered(Trim(str)) == BoolToString(false)
    ensures r.Some? ==> Lowered(Trim(str)) == BoolToString(r.value)
  {
    var s := Lowered(Trim(str));
    if s == "false" then Some(false)
    else if s == "true" then Some(true)
    else None
  }

  /** Global::stringToBool (global.cpp:198-208), which throws IOError where
      the try-variant fails. */
  function StringToBool(str: string): (r: Result<bool>)
    ensures r.Success? <==> TryStringToBool(str).Some?
    ensures r.Success? ==> r.value == TryStringToBool(str).value
    ensures r.Failure? ==> r.error == IOError
  {
    match TryStringToBool(str)
    case None => Failure(IOError)
    case Some(b) => Success(b)
  }

  /** What boolToString prints parses back to the same value. */
  lemma BoolRoundTrip(b: bool)
    ensures TryStringToBool(BoolToString(b)) == Some(b)
    ensures StringToBool(BoolToString(b)) == Success(b)
  {
    var s := BoolToString(b);
    assert s[0] !in Whitespace && s[|s| - 1] !in Whitespace;
    TrimOfTrimmed(s, Whitespace);
    LoweredOfLowerCase(s);
  }

  /** Text with no upper-case letter is its own lower-case form. */
  lemma LoweredOfLowerCase(s: string)
    requires forall i :: 0 <= i < |s| ==> !('A' <= s[i] <= 'Z')
    ensures Lowered(s) == s
  {
  }

  // ---------------------------------------------------------------------
  // comments

  /** A line with everything from its first '#' on removed. */
  function BeforeHash(line: string): (r: string)
    ensures '#' !in r
    ensures IsPrefix(line, r)
    ensures '#' !in line ==> r == line
    ensures |r| < |line| ==> line[|r|] == '#'
  {
    FirstOfSpec(line, {'#'});
    match FindFirstOf(line, {'#'})
    case None => line
    case Some(p) => line[..p]
  }

  /** The lines, each cut at its first '#' and terminated by a newline. */
  function StrippedLines(lines: seq<string>): string {
    if lines == [] then []
    else StrippedLines(lines[..|lines| - 1]) + BeforeHash(lines[|lines| - 1]) + "\n"
  }

  /** What Global::stripComments returns for str. */
  function StripCommentsOf(str: string): string {
    if '#' !in str then str else StrippedLines(Tokens(str, '\n'))
  }

  lemma {:induction false} StrippedLinesHasNoHash(lines: seq<string>)
    ensures '#' !in StrippedLines(lines)
  {
    if lines != [] {
      StrippedLinesHasNoHash(lines[..|lines| - 1]);
      var a, b := StrippedLines(lines[..|lines| - 1]), BeforeHash(lines[|lines| - 1]);
      assert StrippedLines(lines) == a + b + "\n";
      assert forall i :: 0 <= i < |a + b + "\n"| ==> (a + b + "\n")[i] != '#' by {
        forall i | 0 <= i < |a + b + "\n"|
          ensures (a + b + "\n")[i] != '#'
        {
          if i < |a| {
            assert (a + b + "\n")[i] == a[i];
          } else if i < |a| + |b| {
            assert (a + b + "\n")[i] == b[i - |a|];
          }
        }
      }
    }
  }

  /** The result of stripComments holds no comment, and a second pass
      changes nothing. */
  lemma StripCommentsProperties(str: string)
    ensures '#' !in StripCommentsOf(str)
    ensures '#' !in str ==> StripCommentsOf(str) == str
    ensures StripCommentsOf(StripCommentsOf(str)) == StripCommentsOf(str)
  {
    StrippedLinesHasNoHash(Tokens(str, '\n'));
  }

  /** Global::stripComments (global.cpp:674-694): the input unchanged when
      it has no '#', and otherwise each line cut at its first '#', followed
      by a newline. */
  method StripComments(str: string) returns (result: string)
    ensures result == StripCommentsOf(str)
  {
    if FindFirstOf(str, {'#'}).None? {
      FirstOfSpec(str, {'#'});
      assert '#' !in str;
      return str;
    }
    assert '#' in str;
    var lines := Split(str, '\n');
    result := [];
    var i := 0;
    while i < |lines|
      invariant 0 <= i <= |lines|
      invariant result == StrippedLines(lines[..i])
    {
      var line := lines[i];
      StrippedLinesSnoc(lines, i);
      var pos := FindFirstOf(line, {'#'});
      if pos.Some? {
        result := result + line[..pos.value];
      } else {
        result := result + line;
      }
      result := result + "\n";
      i := i + 1;
    }
    assert lines[..i] == lines;
  }

  /** The lines up to i + 1: those up to i, then line i cut and ended. */
  lemma StrippedLinesSnoc(lines: seq<string>, i: nat)
    requires i < |lines|
    ensures StrippedLines(lines[..i + 1]) == StrippedLines(lines[..i]) + BeforeHash(lines[i]) + "\n"
  {
    assert lines[..i + 1][..i] == lines[..i];
  }

  // ---------------------------------------------------------------------
  // key=value lists

  /** The key and value of one comma-separated chunk: both sides of its
      first '=', trimmed; None when it has no '='. */
  function ChunkPair(chunk: string): Option<(string, string)> {
    match FindFirstOf(chunk, {'='})
    case None => None
    case Some(p) => Some((Trim(chunk[..p]), Trim(chunk[p + 1..])))
  }

  /** A chunk has no pair exactly when it has no '='. */
  lemma ChunkPairNone(chunk: string)
    ensures ChunkPair(chunk).None? <==> '=' !in chunk
  {
    FirstOfSpec(chunk, {'='});
    if FindFirstOf(chunk, {'='}).Some? {
      assert chunk[FindFirstOf(chunk, {'='}).value] == '=';
    }
  }

  /** The chunks of all lines, in order: each line split at ','. */
  function Chunks(lines: seq<string>): seq<string> {
    if lines == [] then [] else Tokens(lines[0], ',') + Chunks(lines[1..])
  }

  /** Adding the pairs of chunks to m in order: IOError on an empty key, an
      empty value, or a key already present. */
  function AddPairs(m: map<string, string>, chunks: seq<string>): Result<map<string, string>>
    decreases |chunks|
  {
    if chunks == [] then Success(m)
    else match ChunkPair(chunks[0])
      case None => AddPairs(m, chunks[1..])
      case Some((k, v)) =>
        if k == [] || v == [] || k in m then Failure(IOError)
        else AddPairs(m[k := v], chunks[1..])
  }

  /** What Global::readKeyValues returns for contents. */
  function KeyValuesOf(contents: string): Result<map<string, string>> {
    AddPairs(map[], Chunks(Tokens(contents, '\n')))
  }

  /** The chunks from line i on: those of line i, then the rest. */
  lemma ChunksFrom(lines: seq<string>, i: nat)
    requires i < |lines|
    ensures Chunks(lines[i..]) == Tokens(lines[i], ',') + Chunks(lines[i + 1..])
  {
    assert lines[i..][1..] == lines[i + 1..];
  }

  /** One chunk of the remaining ones: the add goes on with the others. */
  lemma AddPairsFrom(m: map<string, string>, chunks: seq<string>, j: nat)
    requires j < |chunks|
    ensures ChunkPair(chunks[j]).None? ==>
      AddPairs(m, chunks[j..]) == AddPairs(m, chunks[j + 1..])
    ensures ChunkPair(chunks[j]).Some? ==>
      var k, v := ChunkPair(chunks[j]).value.0, ChunkPair(chunks[j]).value.1;
      AddPairs(m, chunks[j..]) ==
        if k == [] || v == [] || k in m then Failure(IOError)
        else AddPairs(m[k := v], chunks[j + 1..])
  {
    assert chunks[j..][0] == chunks[j];
    assert chunks[j..][1..] == chunks[j + 1..];
  }

  /** Global::readKeyValues (global.cpp:641-671). */
  method ReadKeyValues(contents: string) returns (r: Result<map<string, string>>)
    ensures r == KeyValuesOf(contents)
    ensures r.Failure? ==> r.error == IOError
  {
    var lines := Split(contents, '\n');
    var keyValues: map<string, string> := map[];
    var i := 0;
    assert lines[0..] == lines;
    while i < |lines|
      invariant 0 <= i <= |lines|
      invariant KeyValuesOf(contents) == AddPairs(keyValues, Chunks(lines[i..]))
    {
      var line := lines[i];
      ChunksFrom(lines, i);
      if |line| == 0 {
        assert Chunks(lines[i..]) == Chunks(lines[i + 1..]);
        i := i + 1;
        continue;
      }
      var chunks := Split(line, ',');
      ghost var rest := Chunks(lines[i + 1..]);
      assert Chunks(lines[i..]) == chunks + rest;
      AddPairsAppend(keyValues, chunks, rest);
      var added := AddChunks(keyValues, chunks);
      if added.Failure? {
        AddPairsErrorIsIO(keyValues, chunks);
        assert KeyValuesOf(contents) == Failure(IOError);
        return Failure(IOError);
      }
      keyValues := added.value;
      i := i + 1;
    }
    assert lines[i..] == [];
    return Success(keyValues);
  }

  /** The chunk loop of readKeyValues (global.cpp:650-668): the pairs of
      one line's chunks added to keyValues. */
  method AddChunks(keyValues: map<string, string>, chunks: seq<string>) returns (r: Result<map<string, string>>)
    ensures r == AddPairs(keyValues, chunks)
  {
    var kv := keyValues;
    var j := 0;
    while j < |chunks|
      invariant 0 <= j <= |chunks|
      invariant AddPairs(keyValues, chunks) == AddPairs(kv, chunks[j..])
    {
      var chunk := chunks[j];
      AddPairsFrom(kv, chunks, j);
      if |chunk| == 0 {
        j := j + 1;
        continue;
      }
      // the chunk's two sides of its first '=', trimmed; skipped without '='
      var pair := ChunkPair(chunk);
      if pair.Some? {
        var (leftChunk, rightChunk) := pair.value;
        if |leftChunk| == 0 {
          return Failure(IOError);
        }
        if |rightChunk| == 0 {
          return Failure(IOError);
        }
        if leftChunk in kv {
          return Failure(IOError);
        }
        kv := kv[leftChunk := rightChunk];
      }
      j := j + 1;
    }
    return Success(kv);
  }

  /** Every failure of AddPairs is an IOError. */
  lemma {:induction false} AddPairsErrorIsIO(m: map<string, string>, chunks: seq<string>)
    ensures AddPairs(m, chunks).Failure? ==> AddPairs(m, chunks) == Failure(IOError)
    decreases |chunks|
  {
    if chunks != [] {
      var next := AddPairsNext(m, chunks);
      if next.Some? {
        AddPairsErrorIsIO(next.value, chunks[1..]);
      }
    }
  }

  /** Adding the chunks of a then those of b: a failure in a is final,
      otherwise b is added to what a left. */
  lemma {:induction false} AddPairsAppend(m: map<string, string>, a: seq<string>, b: seq<string>)
    ensures AddPairs(m, a + b) == match AddPairs(m, a)
      case Failure(e) => Failure(e)
      case Success(m') => AddPairs(m', b)
    decreases |a|
  {
    if a == [] {
      assert a + b == b;
    } else {
      assert (a + b)[0] == a[0] && (a + b)[1..] == a[1..] + b;
      AddPairsStep(m, a);
      AddPairsStep(m, a + b);
      var p := ChunkPair(a[0]);
      if p.None? {
        AddPairsAppend(m, a[1..], b);
      } else if Accepts(m, p.value) {
        AddPairsAppend(m[p.value.0 := p.value.1], a[1..], b);
      }
    }
  }

  /** A chunk's pair is accepted when both sides are non-empty and its key
      is new. */
  predicate Accepts(m: map<string, string>, pair: (string, string)) {
    pair.0 != [] && pair.1 != [] && pair.0 !in m
  }

  /** One step of AddPairs. */
  lemma AddPairsStep(m: map<string, string>, chunks: seq<string>)
    requires chunks != []
    ensures ChunkPair(chunks[0]).None? ==> AddPairs(m, chunks) == AddPairs(m, chunks[1..])
    ensures ChunkPair(chunks[0]).Some? && !Accepts(m, ChunkPair(chunks[0]).value) ==>
      AddPairs(m, chunks) == Failure(IOError)
    ensures ChunkPair(chunks[0]).Some? && Accepts(m, ChunkPair(chunks[0]).value) ==>
      var (k, v) := ChunkPair(chunks[0]).value;
      AddPairs(m, chunks) == AddPairs(m[k := v], chunks[1..])
  {
  }

  /** A successful add keeps every earlier entry. */
  lemma {:induction false} AddPairsKeeps(m: map<string, string>, chunks: seq<string>)
    requires AddPairs(m, chunks).Success?
    ensures forall k :: k in m ==> k in AddPairs(m, chunks).value && AddPairs(m, chunks).value[k] == m[k]
    decreases |chunks|
  {
    if chunks != [] {
      AddPairsStep(m, chunks);
      var p := ChunkPair(chunks[0]);
      if p.None? {
        AddPairsKeeps(m, chunks[1..]);
      } else {
        AddPairsKeeps(m[p.value.0 := p.value.1], chunks[1..]);
      }
    }
  }

  /** Every pair in the chunks is in a successful result, with its value. */
  lemma {:induction false} AddPairsHasPairs(m: map<string, string>, chunks: seq<string>, i: nat)
    requires AddPairs(m, chunks).Success?
    requires i < |chunks| && ChunkPair(chunks[i]).Some?
    ensures ChunkPair(chunks[i]).value.0 in AddPairs(m, chunks).value
    ensures AddPairs(m, chunks).value[ChunkPair(chunks[i]).value.0] == ChunkPair(chunks[i]).value.1
    decreases i
  {
    AddPairsStep(m, chunks);
    var tail := chunks[1..];
    var p := ChunkPair(chunks[0]);
    var m' := if p.None? then m else m[p.value.0 := p.value.1];
    if i > 0 {
      assert tail[i - 1] == chunks[i];
      AddPairsHasPairs(m', tail, i - 1);
    } else {
      AddPairsKeeps(m', tail);
    }
  }

  /** A successful add from a map of non-empty keys and values gives one. */
  lemma {:induction false} AddPairsNonEmpty(m: map<string, string>, chunks: seq<string>)
    requires AddPairs(m, chunks).Success?
    requires forall k :: k in m ==> k != [] && m[k] != []
    ensures forall k :: k in AddPairs(m, chunks).value ==> k != [] && AddPairs(m, chunks).value[k] != []
    decreases |chunks|
  {
    if chunks != [] {
      AddPairsStep(m, chunks);
      var p := ChunkPair(chunks[0]);
      if p.None? {
        AddPairsNonEmpty(m, chunks[1..]);
      } else {
        AddPairsNonEmpty(m[p.value.0 := p.value.1], chunks[1..]);
      }
    }
  }

  /** A chunk with an empty key or value anywhere makes the whole add fail. */
  lemma {:induction false} AddPairsRejectsEmpty(m: map<string, string>, chunks: seq<string>, i: nat)
    requires i < |chunks| && ChunkPair(chunks[i]).Some?
    requires ChunkPair(chunks[i]).value.0 == [] || ChunkPair(chunks[i]).value.1 == []
    ensures AddPairs(m, chunks) == Failure(IOError)
    decreases i
  {
    AddPairsStep(m, chunks);
    if i > 0 {
      var tail := chunks[1..];
      assert tail[i - 1] == chunks[i];
      var p := ChunkPair(chunks[0]);
      if p.None? {
        AddPairsRejectsEmpty(m, tail, i - 1);
      } else if Accepts(m, p.value) {
        AddPairsRejectsEmpty(m[p.value.0 := p.value.1], tail, i - 1);
      }
    }
  }

  /** A key that is already present fails when it appears again. */
  lemma {:induction false} AddPairsRejectsPresent(m: map<string, string>, chunks: seq<string>, j: nat)
    requires j < |chunks| && ChunkPair(chunks[j]).Some? && ChunkPair(chunks[j]).value.0 in m
    ensures AddPairs(m, chunks) == Failure(IOError)
    decreases j
  {
    AddPairsStep(m, chunks);
    if j > 0 {
      var tail := chunks[1..];
      assert tail[j - 1] == chunks[j];
      var p := ChunkPair(chunks[0]);
      if p.None? {
        AddPairsRejectsPresent(m, tail, j - 1);
      } else if Accepts(m, p.value) {
        AddPairsRejectsPresent(m[p.value.0 := p.value.1], tail, j - 1);
      }
    }
  }

  /** The first chunk's key given again makes the whole add fail. */
  lemma AddPairsRejectsRepeatOfFirst(m: map<string, string>, chunks: seq<string>, j: nat)
    requires 0 < j < |chunks| && ChunkPair(chunks[0]).Some? && ChunkPair(chunks[j]).Some?
    requires ChunkPair(chunks[0]).value.0 == ChunkPair(chunks[j]).value.0
    ensures AddPairs(m, chunks) == Failure(IOError)
  {
    AddPairsStep(m, chunks);
    var p := ChunkPair(chunks[0]).value;
    if Accepts(m, p) {
      assert chunks[1..][j - 1] == chunks[j];
      AddPairsRejectsPresent(m[p.0 := p.1], chunks[1..], j - 1);
    }
  }

  /** A key given twice makes the whole add fail. */
  lemma {:induction false} AddPairsRejectsDuplicate(m: map<string, string>, chunks: seq<string>, i: nat, j: nat)
    requires i < j < |chunks| && ChunkPair(chunks[i]).Some? && ChunkPair(chunks[j]).Some?
    requires ChunkPair(chunks[i]).value.0 == ChunkPair(chunks[j]).value.0
    ensures AddPairs(m, chunks) == Failure(IOError)
    decreases i
  {
    if i == 0 {
      AddPairsRejectsRepeatOfFirst(m, chunks, j);
    } else {
      var tail := chunks[1..];
      assert tail[j - 1] == chunks[j] && tail[i - 1] == chunks[i];
      var next := AddPairsNext(m, chunks);
      if next.Some? {
        AddPairsRejectsDuplicate(next.value, tail, i - 1, j - 1);
      }
    }
  }

  /** One step of AddPairs, without the case split: either the first chunk
      fails the add, or the add goes on from the map it leaves. */
  lemma AddPairsNext(m: map<string, string>, chunks: seq<string>) returns (next: Option<map<string, string>>)
    requires chunks != []
    ensures next.None? ==> AddPairs(m, chunks) == Failure(IOError)
    ensures next.Some? ==> AddPairs(m, chunks) == AddPairs(next.value, chunks[1..])
  {
    AddPairsStep(m, chunks);
    var p := ChunkPair(chunks[0]);
    if p.None? {
      next := Some(m);
    } else if Accepts(m, p.value) {
      next := Some(m[p.value.0 := p.value.1]);
    } else {
      next := None;
    }
  }

  /** Chunks without '=' are skipped: removing one changes nothing. */
  lemma {:induction false} AddPairsSkipsPlain(m: map<string, string>, before: seq<string>, c: string, after: seq<string>)
    requires '=' !in c
    ensures AddPairs(m, before + [c] + after) == AddPairs(m, before + after)
    decreases |before|
  {
    if before == [] {
      ChunkPairNone(c);
      assert before + [c] + after == [c] + after;
      assert ([c] + after)[1..] == after;
      assert before + after == after;
    } else {
      assert (before + [c] + after)[0] == before[0] && (before + after)[0] == before[0];
      assert (before + [c] + after)[1..] == before[1..] + [c] + after;
      assert (before + after)[1..] == before[1..] + after;
      match ChunkPair(before[0])
      case None => AddPairsSkipsPlain(m, before[1..], c, after);
      case Some((k, v)) =>
        if !(k == [] || v == [] || k in m) {
          AddPairsSkipsPlain(m[k := v], before[1..], c, after);
        }
    }
  }

  /** readKeyValues in full: on success every chunk's pair is in the map
      with its value and every key and value is non-empty; an empty key or
      value, or a repeated key, makes it fail. */
  lemma ReadKeyValuesProperties(contents: string)
    ensures var chunks := Chunks(Tokens(contents, '\n'));
      && (KeyValuesOf(contents).Success? ==>
        && (forall k :: k in KeyValuesOf(contents).value ==> k != [] && KeyValuesOf(contents).value[k] != [])
        && (forall i :: 0 <= i < |chunks| && ChunkPair(chunks[i]).Some? ==>
              ChunkPair(chunks[i]).value.0 in KeyValuesOf(contents).value
              && KeyValuesOf(contents).value[ChunkPair(chunks[i]).value.0] == ChunkPair(chunks[i]).value.1))
      && ((exists i :: 0 <= i < |chunks| && ChunkPair(chunks[i]).Some?
            && (ChunkPair(chunks[i]).value.0 == [] || ChunkPair(chunks[i]).value.1 == []))
          ==> KeyValuesOf(contents) == Failure(IOError))
      && ((exists i, j :: 0 <= i < j < |chunks| && ChunkPair(chunks[i]).Some? && ChunkPair(chunks[j]).Some?
            && ChunkPair(chunks[i]).value.0 == ChunkPair(chunks[j]).value.0)
          ==> KeyValuesOf(contents) == Failure(IOError))
  {
    var chunks := Chunks(Tokens(contents, '\n'));
    if KeyValuesOf(contents).Success? {
      AddPairsNonEmpty(map[], chunks);
      forall i | 0 <= i < |chunks| && ChunkPair(chunks[i]).Some?
        ensures ChunkPair(chunks[i]).value.0 in KeyValuesOf(contents).value
        ensures KeyValuesOf(contents).value[ChunkPair(chunks[i]).value.0] == ChunkPair(chunks[i]).value.1
      {
        AddPairsHasPairs(map[], chunks, i);
      }
    }
    if exists i :: 0 <= i < |chunks| && ChunkPair(chunks[i]).Some?
        && (ChunkPair(chunks[i]).value.0 == [] || ChunkPair(chunks[i]).value.1 == []) {
      var i :| 0 <= i < |chunks| && ChunkPair(chunks[i]).Some?
        && (ChunkPair(chunks[i]).value.0 == [] || ChunkPair(chunks[i]).value.1 == []);
      AddPairsRejectsEmpty(map[], chunks, i);
    }
    if exists i, j :: 0 <= i < j < |chunks| && ChunkPair(chunks[i]).Some? && ChunkPair(chunks[j]).Some?
        && ChunkPair(chunks[i]).value.0 == ChunkPair(chunks[j]).value.0 {
      var i, j :| 0 <= i < j < |chunks| && ChunkPair(chunks[i]).Some? && ChunkPair(chunks[j]).Some?
        && ChunkPair(chunks[i]).value.0 == ChunkPair(chunks[j]).value.0;
      AddPairsRejectsDuplicate(map[], chunks, i, j);
    }
  }
}
