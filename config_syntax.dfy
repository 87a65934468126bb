/** The line-level syntax of core/config_parser.cpp: a `key = value` line
    (ConfigParser::parseKeyValue), an `@include` directive (the directive
    branch of ConfigParser::readStreamContent), the directory part of a file
    name (ConfigParser::extractBaseDir) and comma-separated overrides
    (ConfigParser::parseCommaSeparated). */
module ConfigSyntax {
  import opened Wrappers
  import opened Strings
  import Numbers
  import TextParsing

  // ---------------------------------------------------------------------
  // key = value lines

  /** Global::isAlpha (global.cpp:527-530). */
  predicate IsAlpha(c: char) {
    ('A' <= c <= 'Z') || ('a' <= c <= 'z')
  }

  /** The characters a key may hold: ASCII letters, digits, '_' and '-'. */
  predicate IsKeyChar(c: char) {
    IsAlpha(c) || Numbers.IsDigit(c) || c == '_' || c == '-'
  }

  /** What parseKeyValue reports for a line: whether it held a pair, and the
      key and (trimmed) value. A line without a pair has empty key and value. */
  datatype KeyValue = KeyValue(found: bool, key: string, value: string)

  /** The end of the run of key characters of s starting at i. */
  function KeyEnd(s: string, i: nat): (e: nat)
    requires i <= |s|
    ensures i <= e <= |s|
    ensures e < |s| ==> !IsKeyChar(s[e])
    decreases |s| - i
  {
    if i < |s| && IsKeyChar(s[i]) then KeyEnd(s, i + 1) else i
  }

  /** The end of the run of Global::isWhitespace characters of s starting
      at i. */
  function SpaceEnd(s: string, i: nat): (e: nat)
    requires i <= |s|
    ensures i <= e <= |s|
    ensures e < |s| ==> !IsWhitespace(s[e])
    decreases |s| - i
  {
    if i < |s| && IsWhitespace(s[i]) then SpaceEnd(s, i + 1) else i
  }

  /** What ConfigParser::parseKeyValue makes of a trimmed line: the key is
      the leading run of key characters; after optional blanks comes '#'
      (no pair, or an error after a key), '=' or the end of the line, and
      anything else is an error; the value is what follows the '=' and its
      blanks, trimmed. A key without a value, or a value without a key, is
      an error. */
  function ParseKV(s: string): Result<KeyValue> {
    var k := KeyEnd(s, 0);
    AtSeparator(s, k, SpaceEnd(s, k))
  }

  /** The rest of ParseKV once the key ends at k and the blanks after it
      at j. */
  function AtSeparator(s: string, k: nat, j: nat): Result<KeyValue>
    requires k <= j <= |s|
  {
    if j < |s| && s[j] == '#' then
      if k > 0 then Failure(ParsingError) else Success(KeyValue(false, [], []))
    else if j < |s| && s[j] != '=' then Failure(ParsingError)
    else AtValue(s, k, SpaceEnd(s, if j < |s| then j + 1 else j))
  }

  /** The rest of ParseKV once the key ends at k and the value starts at v. */
  function AtValue(s: string, k: nat, v: nat): Result<KeyValue>
    requires k <= v <= |s|
  {
    if (k > 0) != (v < |s|) then Failure(ParsingError)
    else Success(KeyValue(k > 0, s[..k], Trim(s[v..])))
  }

  /** ConfigParser::parseKeyValue (config_parser.cpp:144-239): four scans
      over the line with one index, the key and the value built a character
      at a time (the first two in ScanKey, the last two in ScanValue). The
      bool result and the key and value out-parameters are the KeyValue; a
      throw is a Failure. */
  method ParseKeyValue(trimmedLine: string) returns (r: Result<KeyValue>)
    ensures r == ParseKV(trimmedLine)
  {
    var s := trimmedLine;
    var decided, key, foundAnyKey, i := ScanKey(s);
    if decided.Some? {
      return decided.value;
    }
    ghost var j := i;
    if i < |s| {
      i := i + 1; // past the '='
    }
    var value, foundAnyValue := ScanValue(s, i);
    value := Trim(value);
    EqualsThenValue(s, |key|, j);
    if foundAnyKey != foundAnyValue {
      return Failure(ParsingError);
    }
    return Success(KeyValue(foundAnyKey, key, value));
  }

  /** The key scans of parseKeyValue (config_parser.cpp:150-198): the key
      characters are appended to key; a '#' ends the line (an error after a
      key); a blank or '=' ends the key, after which blanks are skipped up
      to the '='; any other character is an error. Gives Some(the result)
      when the line is decided here, and otherwise the key and the position
      of the '=' (or the end of the line). */
  method ScanKey(s: string) returns (decided: Option<Result<KeyValue>>, key: string, foundAnyKey: bool, i: nat)
    ensures decided.Some? ==> decided.value == ParseKV(s)
    ensures decided.None? ==>
      && key == s[..KeyEnd(s, 0)]
      && foundAnyKey == (KeyEnd(s, 0) > 0)
      && KeyEnd(s, 0) <= i <= |s|
      && i == SpaceEnd(s, KeyEnd(s, 0))
      && (i < |s| ==> s[i] == '=')
  {
    decided := None;
    key := [];
    foundAnyKey := false;
    i := 0;
    while i < |s|
      invariant 0 <= i <= |s|
      invariant KeyEnd(s, i) == KeyEnd(s, 0)
      invariant key == s[..i] && foundAnyKey == (i > 0)
    {
      var c := s[i];
      if IsAlpha(c) || Numbers.IsDigit(c) || c == '_' || c == '-' {
        SliceSnoc(s, 0, i);
        key := key + [c];
        foundAnyKey := true;
        i := i + 1;
      } else if c == '#' {
        WhitespaceChars(c);
        SpaceEndAt(s, i, i);
        if foundAnyKey {
          return Some(Failure(ParsingError)), key, foundAnyKey, i;
        }
        return Some(Success(KeyValue(false, [], []))), key, foundAnyKey, i;
      } else if IsWhitespace(c) || c == '=' {
        break;
      } else {
        SpaceEndAt(s, i, i);
        return Some(Failure(ParsingError)), key, foundAnyKey, i;
      }
    }
    ghost var k := i;
    while i < |s|
      invariant k <= i <= |s|
      invariant SpaceEnd(s, i) == SpaceEnd(s, k)
    {
      var c := s[i];
      if IsWhitespace(c) {
        i := i + 1;
      } else if c == '#' {
        if foundAnyKey {
          return Some(Failure(ParsingError)), key, foundAnyKey, i;
        }
        return Some(Success(KeyValue(false, [], []))), key, foundAnyKey, i;
      } else if c == '=' {
        break;
      } else {
        return Some(Failure(ParsingError)), key, foundAnyKey, i;
      }
    }
  }

  /** The value scans of parseKeyValue (config_parser.cpp:205-226): the
      blanks after the '=' are skipped (a '#' stops the skip like any other
      character and starts the value), then the rest of the line is the
      value, copied a character at a time. */
  method ScanValue(s: string, start: nat) returns (value: string, foundAnyValue: bool)
    requires start <= |s|
    ensures value == s[SpaceEnd(s, start)..]
    ensures foundAnyValue <==> SpaceEnd(s, start) < |s|
  {
    var i := start;
    while i < |s| && IsWhitespace(s[i])
      invariant start <= i <= |s|
      invariant SpaceEnd(s, i) == SpaceEnd(s, start)
    {
      i := i + 1;
    }
    ghost var v := i;
    value := [];
    foundAnyValue := false;
    while i < |s|
      invariant v <= i <= |s|
      invariant value == s[v..i] && foundAnyValue == (i > v)
    {
      SliceSnoc(s, v, i);
      value := value + [s[i]];
      foundAnyValue := true;
      i := i + 1;
    }
  }

  /** Past an '=' (or at the end) the parse goes on with the value. */
  lemma EqualsThenValue(s: string, k: nat, j: nat)
    requires k <= j <= |s|
    requires j < |s| ==> s[j] == '='
    ensures AtSeparator(s, k, j) == AtValue(s, k, SpaceEnd(s, if j < |s| then j + 1 else j))
  {
  }

  lemma SliceSnoc(s: string, a: nat, b: nat)
    requires a <= b < |s|
    ensures s[a..b + 1] == s[a..b] + [s[b]]
  {
  }

  /** Everything KeyEnd passes over is a key character. */
  lemma {:induction false} KeyEndRun(s: string, i: nat)
    requires i <= |s|
    ensures forall j :: i <= j < KeyEnd(s, i) ==> IsKeyChar(s[j])
    decreases |s| - i
  {
    if i < |s| && IsKeyChar(s[i]) {
      KeyEndRun(s, i + 1);
    }
  }

  /** KeyEnd stops exactly at the first character after a run of key
      characters. */
  lemma {:induction false} KeyEndAt(s: string, i: nat, e: nat)
    requires i <= e <= |s|
    requires forall j :: i <= j < e ==> IsKeyChar(s[j])
    requires e < |s| ==> !IsKeyChar(s[e])
    ensures KeyEnd(s, i) == e
    decreases e - i
  {
    if i < e {
      KeyEndAt(s, i + 1, e);
    }
  }

  /** SpaceEnd stops exactly at the first character after a run of blanks. */
  lemma {:induction false} SpaceEndAt(s: string, i: nat, e: nat)
    requires i <= e <= |s|
    requires forall j :: i <= j < e ==> IsWhitespace(s[j])
    requires e < |s| ==> !IsWhitespace(s[e])
    ensures SpaceEnd(s, i) == e
    decreases e - i
  {
    if i < e {
      SpaceEndAt(s, i + 1, e);
    }
  }

  /** A reported pair has a non-empty key of key characters only and a
      non-empty, already trimmed value; a line without a pair reports an
      empty key and value. */
  lemma ParsedPairShape(s: string)
    requires ParseKV(s).Success?
    ensures var kv := ParseKV(s).value;
      if kv.found then
        && kv.key != []
        && (forall j :: 0 <= j < |kv.key| ==> IsKeyChar(kv.key[j]))
        && kv.value != []
        && Trim(kv.value) == kv.value
      else kv.key == [] && kv.value == []
  {
    var kv := ParseKV(s).value;
    var k := KeyEnd(s, 0);
    var j := SpaceEnd(s, k);
    if kv.found {
      KeyEndRun(s, 0);
      assert j < |s| ==> s[j] == '=';
      EqualsThenValue(s, k, j);
      assert j < |s|;
      var v := SpaceEnd(s, j + 1);
      assert ParseKV(s) == AtValue(s, k, v);
      FoundPairShape(s, k, v);
    }
  }

  /** The pair AtValue reports, when it reports one. */
  lemma FoundPairShape(s: string, k: nat, v: nat)
    requires k <= v <= |s| && (v < |s| ==> !IsWhitespace(s[v]))
    requires forall j :: 0 <= j < k ==> IsKeyChar(s[j])
    requires AtValue(s, k, v).Success? && AtValue(s, k, v).value.found
    ensures var kv := AtValue(s, k, v).value;
      && kv.key != []
      && (forall j :: 0 <= j < |kv.key| ==> IsKeyChar(kv.key[j]))
      && kv.value != []
      && Trim(kv.value) == kv.value
  {
    assert 0 < k && v < |s|;
    var w := s[v..];
    assert w[0] == s[v];
    WhitespaceChars(s[v]);
    TrimEmpty(w, Whitespace);
    TrimIdempotent(w, Whitespace);
  }

  /** A character other than a key character, a blank, '=' or '#' right
      after the key characters is an error. */
  lemma InvalidKeyCharFails(s: string, i: nat)
    requires i < |s|
    requires forall j :: 0 <= j < i ==> IsKeyChar(s[j])
    requires !IsKeyChar(s[i]) && !IsWhitespace(s[i]) && s[i] != '=' && s[i] != '#'
    ensures ParseKV(s) == Failure(ParsingError)
  {
    KeyEndAt(s, 0, i);
    SpaceEndAt(s, i, i);
  }

  /** A line that starts with '#' holds no pair, without error. */
  lemma CommentLineHoldsNoPair(s: string)
    requires s != [] && s[0] == '#'
    ensures ParseKV(s) == Success(KeyValue(false, [], []))
  {
    KeyEndAt(s, 0, 0);
    WhitespaceChars('#');
    SpaceEndAt(s, 0, 0);
  }

  /** A '#' after a key (and optional blanks) is an error. */
  lemma CommentAfterKeyFails(key: string, blanks: string, rest: string)
    requires key != [] && forall j :: 0 <= j < |key| ==> IsKeyChar(key[j])
    requires forall j :: 0 <= j < |blanks| ==> IsWhitespace(blanks[j])
    ensures ParseKV(key + blanks + "#" + rest) == Failure(ParsingError)
  {
    var s := key + blanks + "#" + rest;
    var e := |key| + |blanks|;
    assert s[e] == '#';
    assert !IsKeyChar('#');
    assert forall j :: |key| <= j < e ==> s[j] == blanks[j - |key|];
    KeyEndAt(s, 0, |key|);
    WhitespaceChars('#');
    SpaceEndAt(s, |key|, e);
  }

  /** A bare "=" holds no pair, without error. */
  lemma BareEqualsHoldsNoPair()
    ensures ParseKV("=") == Success(KeyValue(false, [], []))
  {
    KeyEndAt("=", 0, 0);
    WhitespaceChars('=');
    SpaceEndAt("=", 0, 0);
    SpaceEndAt("=", 1, 1);
  }

  /** A key followed by '=' and nothing else is an error. */
  lemma KeyWithoutValueFails(key: string)
    requires key != [] && forall j :: 0 <= j < |key| ==> IsKeyChar(key[j])
    ensures ParseKV(key + "=") == Failure(ParsingError)
  {
    var s := key + "=";
    KeyEndAt(s, 0, |key|);
    WhitespaceChars('=');
    SpaceEndAt(s, |key|, |key|);
    SpaceEndAt(s, |s|, |s|);
  }

  /** A value after '=' with no key before it is an error. */
  lemma ValueWithoutKeyFails(value: string)
    requires value != [] && !IsWhitespace(value[0])
    ensures ParseKV("=" + value) == Failure(ParsingError)
  {
    var s := "=" + value;
    KeyEndAt(s, 0, 0);
    WhitespaceChars('=');
    SpaceEndAt(s, 0, 0);
    SpaceEndAt(s, 1, 1);
  }

  /** A written pair reads back: the key as written and the value trimmed. */
  lemma PairRoundTrip(key: string, value: string)
    requires key != [] && forall j :: 0 <= j < |key| ==> IsKeyChar(key[j])
    requires value != [] && !IsWhitespace(value[0])
    ensures ParseKV(key + "=" + value) == Success(KeyValue(true, key, Trim(value)))
  {
    var s := key + "=" + value;
    var n := |key|;
    assert s[n] == '=' && !IsKeyChar('=');
    assert s[n + 1] == value[0];
    KeyEndAt(s, 0, n);
    WhitespaceChars('=');
    SpaceEndAt(s, n, n);
    SpaceEndAt(s, n + 1, n + 1);
    assert s[..n] == key;
    assert s[n + 1..] == value;
  }

  // ---------------------------------------------------------------------
  // @include directives

  /** The separators after the directive name (" \t\v\f="). */
  const DirectiveSeps: string := [' ', '\t', VT, FF, '=']

  /** What the directive branch of ConfigParser::readStreamContent
      (config_parser.cpp:258-290) makes of a trimmed line starting with '@':
      the name of the file to include, or the error. Everything from the
      first '#' is dropped; the rest must hold at least 9 characters, a
      separator, and "@include" (trimmed) before it; the name follows. */
  function IncludeDirective(t: string): Result<string> {
    var u := TextParsing.BeforeHash(t);
    if |u| < 9 then Failure(ParsingError)
    else match FindFirstOf(u, {' ', '\t', VT, FF, '='})
      case None => Failure(ParsingError)
      case Some(p0) =>
        if Trim(u[..p0]) != "@include" then Failure(ParsingError)
        else IncludeName(u[p0 + 1..])
  }

  /** The file name after the directive's separator: what follows the
      further separators, trimmed of blanks, then of single quotes, then of
      double quotes; an error when only separators follow. */
  function IncludeName(v: string): Result<string> {
    match FindFirstNotOf(v, DirectiveSeps)
    case None => Failure(ParsingError)
    case Some(p1) => Success(Trim(Trim(Trim(v[p1..]), "'"), "\""))
  }

  /** A directive shorter than 9 characters is an error. */
  lemma ShortDirectiveFails(t: string)
    requires |t| < 9
    ensures IncludeDirective(t) == Failure(ParsingError)
  {
  }

  /** Trimming never brings in a character. */
  lemma TrimKeepsOut(x: string, delims: string, c: char)
    requires c !in x
    ensures c !in Trim(x, delims)
  {
    TrimSlice(x, delims);
  }

  /** A file name read from text without '#' holds no '#'. */
  lemma IncludeNameHasNoHash(v: string)
    requires '#' !in v && IncludeName(v).Success?
    ensures '#' !in IncludeName(v).value
  {
    var p1 := FindFirstNotOf(v, DirectiveSeps).value;
    TrimKeepsOut(v[p1..], Whitespace, '#');
    TrimKeepsOut(Trim(v[p1..]), "'", '#');
    TrimKeepsOut(Trim(Trim(v[p1..]), "'"), "\"", '#');
  }

  /** A word starting with '@' is its own trim's start: if it trims to
      "@include", it starts with "@include". */
  lemma DirectiveWord(w: string)
    requires w != [] && w[0] == '@' && Trim(w) == "@include"
    ensures |w| >= 8 && w[..8] == "@include"
  {
    TrimSlice(w, Whitespace);
    assert LeadingDelims(w, Whitespace) == 0;
  }

  /** Only "@include" is accepted: a directive line that is accepted starts
      with it, and the name it gives holds no '#'. */
  lemma AcceptedDirectiveIsInclude(t: string)
    requires t != [] && t[0] == '@'
    requires IncludeDirective(t).Success?
    ensures |t| >= 9 && t[..8] == "@include"
    ensures '#' !in IncludeDirective(t).value
  {
    var u := TextParsing.BeforeHash(t);
    var p0 := FindFirstOf(u, {' ', '\t', VT, FF, '='}).value;
    assert u[0] == '@';
    DirectiveWord(u[..p0]);
    assert u[..8] == u[..p0][..8];
    assert '#' !in u[p0 + 1..];
    IncludeNameHasNoHash(u[p0 + 1..]);
  }

  /** Characters a file name may hold for the directive to give it back
      unchanged: no blank, separator, quote or '#'. */
  predicate PlainNameChar(c: char) {
    !IsWhitespace(c) && c !in DirectiveSeps && c != '\'' && c != '"' && c != '#'
  }

  /** A plain name is read back as it is. */
  lemma PlainIncludeName(name: string)
    requires name != [] && forall j :: 0 <= j < |name| ==> PlainNameChar(name[j])
    ensures IncludeName(name) == Success(name)
  {
    assert FindFirstNotOf(name, DirectiveSeps) == Some(0);
    assert name[0..] == name;
    forall j | 0 <= j < |name|
      ensures name[j] !in Whitespace
    {
      WhitespaceChars(name[j]);
    }
    TrimOfTrimmed(name, Whitespace);
    TrimOfTrimmed(name, "'");
    TrimOfTrimmed(name, "\"");
  }

  /** "@include name" names the file name. */
  lemma IncludeRoundTrip(name: string)
    requires name != [] && forall j :: 0 <= j < |name| ==> PlainNameChar(name[j])
    ensures IncludeDirective("@include " + name) == Success(name)
  {
    var t := "@include " + name;
    assert forall j :: 0 <= j < |t| ==> t[j] != '#';
    assert TextParsing.BeforeHash(t) == t;
    FindFirstOfAfter("@include", " " + name, {' ', '\t', VT, FF, '='});
    assert t == "@include" + (" " + name);
    assert FindFirstOf(t, {' ', '\t', VT, FF, '='}) == Some(8);
    TrimOfTrimmed("@include", Whitespace);
    assert t[..8] == "@include";
    assert t[9..] == name;
    PlainIncludeName(name);
  }

  /** "@include name" is already trimmed. */
  lemma IncludeLineTrimmed(name: string)
    requires name != [] && forall j :: 0 <= j < |name| ==> PlainNameChar(name[j])
    ensures Trim("@include " + name) == "@include " + name
  {
    var t := "@include " + name;
    assert t[|t| - 1] == name[|name| - 1];
    WhitespaceChars(name[|name| - 1]);
    TrimOfTrimmed(t, Whitespace);
  }

  // ---------------------------------------------------------------------
  // extractBaseDir

  /** The last position of s holding '/' or '\' (std::string::find_last_of). */
  function LastSlash(s: string): (r: Option<nat>)
    ensures r.Some? ==> r.value < |s| && (s[r.value] == '/' || s[r.value] == '\\')
    ensures r.Some? ==> forall j :: r.value < j < |s| ==> s[j] != '/' && s[j] != '\\'
    ensures r.None? ==> forall j :: 0 <= j < |s| ==> s[j] != '/' && s[j] != '\\'
  {
    if s == [] then None
    else if s[|s| - 1] == '/' || s[|s| - 1] == '\\' then Some(|s| - 1)
    else LastSlash(s[..|s| - 1])
  }

  /** ConfigParser::extractBaseDir (config_parser.cpp:329-340): the prefix
      of fname up to and including its last '/' or '\', or empty when it
      has none. */
  function ExtractBaseDir(fname: string): (dir: string)
    ensures dir <= fname
    ensures dir == [] <==> forall j :: 0 <= j < |fname| ==> fname[j] != '/' && fname[j] != '\\'
    ensures dir != [] ==> dir[|dir| - 1] == '/' || dir[|dir| - 1] == '\\'
    ensures forall j :: |dir| <= j < |fname| ==> fname[j] != '/' && fname[j] != '\\'
  {
    match LastSlash(fname)
    case Some(p) => fname[..p + 1]
    case None => []
  }

  // ---------------------------------------------------------------------
  // parseCommaSeparated

  /** The overrides of comma-separated pieces, in order: a blank piece is
      skipped, a piece without '=' is an error, and otherwise the trimmed
      text before the first '=' maps to the trimmed text after it, later
      pieces replacing earlier ones. */
  function CommaPairs(m: map<string, string>, pieces: seq<string>): Result<map<string, string>>
    decreases |pieces|
  {
    if pieces == [] then Success(m)
    else
      var s := Trim(pieces[0]);
      if s == [] then CommaPairs(m, pieces[1..])
      else match FindFirstOf(s, {'='})
        case None => Failure(ParsingError)
        case Some(pos) => CommaPairs(m[Trim(s[..pos]) := Trim(s[pos + 1..])], pieces[1..])
  }

  /** The pieces from position i on: the add goes on with piece i. */
  lemma CommaPairsFrom(m: map<string, string>, pieces: seq<string>, i: nat)
    requires i < |pieces|
    ensures CommaPairs(m, pieces[i..]) ==
      var s := Trim(pieces[i]);
      if s == [] then CommaPairs(m, pieces[i + 1..])
      else match FindFirstOf(s, {'='})
        case None => Failure(ParsingError)
        case Some(pos) => CommaPairs(m[Trim(s[..pos]) := Trim(s[pos + 1..])], pieces[i + 1..])
  {
    assert pieces[i..][0] == pieces[i];
    assert pieces[i..][1..] == pieces[i + 1..];
  }

  /** ConfigParser::parseCommaSeparated (config_parser.cpp:489-513). */
  method ParseCommaSeparated(commaSeparatedValues: string) returns (r: Result<map<string, string>>)
    ensures r == CommaPairs(map[], Tokens(commaSeparatedValues, ','))
  {
    var keyValues: map<string, string> := map[];
    var pieces := Split(commaSeparatedValues, ',');
    var i := 0;
    while i < |pieces|
      invariant 0 <= i <= |pieces|
      invariant CommaPairs(map[], pieces) == CommaPairs(keyValues, pieces[i..])
    {
      CommaPairsFrom(keyValues, pieces, i);
      var s := Trim(pieces[i]);
      if |s| > 0 {
        var pos := FindFirstOf(s, {'='});
        if pos.None? {
          return Failure(ParsingError);
        }
        var key := Trim(s[..pos.value]);
        var value := Trim(s[pos.value + 1..]);
        keyValues := keyValues[key := value];
      }
      i := i + 1;
    }
    return Success(keyValues);
  }

  /** A piece parseCommaSeparated rejects: not blank once trimmed, and
      without '='. */
  predicate MissingEquals(piece: string) {
    var s := Trim(piece);
    s != [] && '=' !in s
  }

  /** The map after one accepted piece: unchanged for a blank piece, else
      the trimmed key before the first '=' set to the trimmed rest. */
  function CommaNext(m: map<string, string>, piece: string): (r: map<string, string>)
    ensures m.Keys <= r.Keys
  {
    var s := Trim(piece);
    if s == [] then m
    else match FindFirstOf(s, {'='})
      case None => m
      case Some(pos) => m[Trim(s[..pos]) := Trim(s[pos + 1..])]
  }

  /** One piece of parseCommaSeparated: a rejected piece fails the parse,
      any other goes into the map. */
  lemma CommaPairsStep(m: map<string, string>, pieces: seq<string>)
    requires pieces != []
    ensures MissingEquals(pieces[0]) ==> CommaPairs(m, pieces) == Failure(ParsingError)
    ensures !MissingEquals(pieces[0]) ==> CommaPairs(m, pieces) == CommaPairs(CommaNext(m, pieces[0]), pieces[1..])
  {
    var s := Trim(pieces[0]);
    if s != [] && FindFirstOf(s, {'='}).None? {
      FirstOfSpec(s, {'='});
      assert '=' !in s;
    }
  }

  /** parseCommaSeparated fails exactly when some piece is not blank and has
      no '='; otherwise every key it started with is still there. */
  lemma {:induction false} CommaPairsOutcome(m: map<string, string>, pieces: seq<string>)
    ensures CommaPairs(m, pieces).Failure? <==> exists i :: 0 <= i < |pieces| && MissingEquals(pieces[i])
    ensures CommaPairs(m, pieces).Failure? ==> CommaPairs(m, pieces).error == ParsingError
    ensures CommaPairs(m, pieces).Success? ==> m.Keys <= CommaPairs(m, pieces).value.Keys
    decreases |pieces|
  {
    if pieces != [] {
      CommaPairsStep(m, pieces);
      if !MissingEquals(pieces[0]) {
        CommaPairsOutcome(CommaNext(m, pieces[0]), pieces[1..]);
        assert forall i :: 1 <= i < |pieces| ==> pieces[i] == pieces[1..][i - 1];
      }
    }
  }
}
