/** ConfigParser of core/config_parser.cpp: configuration text read into a
    key -> value map with duplicate-key rules and `@include` files, then
    edited in place (overrides, aliases, mutually exclusive keys) and read
    back with used/unused-key bookkeeping.

    Files are not opened here: a file system is a map from path to the
    lines of the file, and a path missing from it fails to open. */
module ConfigParsing {
  import opened Wrappers
  import opened Strings
  import opened ConfigSyntax

  // ---------------------------------------------------------------------
  // Reading: the state readStreamContent and processIncludedFile change

  /** The fields of ConfigParser that reading changes. logMessages holds
      one entry per reported override, naming the key (the message text is
      not modelled). */
  datatype ReadState = ReadState(
    keyValues: map<string, string>,
    includedFiles: seq<string>,
    baseDirs: seq<string>,
    curFilename: string,
    curLineNum: nat,
    logMessages: seq<string>,
    contents: string)

  /** What reading depends on but does not change: the top-level file name,
      the two override flags, the file system, and (for termination only)
      a set holding every name an include directive can give. */
  datatype Context = Context(
    fileName: string,
    overrideEnabled: bool,
    overrideFromIncludes: bool,
    files: map<string, seq<string>>,
    names: set<string>)

  /** The include directive of line, if any, names a member of names. */
  predicate IncludeNamed(names: set<string>, line: string) {
    IncludeDirective(Trim(line)).Success? ==> IncludeDirective(Trim(line)).value in names
  }

  predicate LinesNamed(names: set<string>, lines: seq<string>) {
    forall i {:trigger IncludeNamed(names, lines[i])} :: 0 <= i < |lines| ==> IncludeNamed(names, lines[i])
  }

  /** names covers every include directive of every file. */
  predicate Valid(files: map<string, seq<string>>, names: set<string>) {
    forall p {:trigger LinesNamed(names, files[p])} :: p in files ==> LinesNamed(names, files[p])
  }

  /** The names in files, as a set. */
  function Included(files: seq<string>): set<string> {
    if files == [] then {} else Included(files[..|files| - 1]) + {files[|files| - 1]}
  }

  lemma IncludedSnoc(files: seq<string>, x: string)
    ensures Included(files + [x]) == Included(files) + {x}
  {
    assert (files + [x])[..|files|] == files;
  }

  lemma {:induction false} IncludedMembers(files: seq<string>, x: string)
    ensures x in Included(files) <==> x in files
  {
    if files != [] {
      IncludedMembers(files[..|files| - 1], x);
      assert files == files[..|files| - 1] + [files[|files| - 1]];
    }
  }

  /** The names that can still be included: each file is included at most
      once, so this shrinks with every include and bounds the recursion. */
  function Remaining(c: Context, st: ReadState): set<string> {
    c.names - Included(st.includedFiles)
  }

  /** The text of lines, each followed by a newline. */
  function Text(lines: seq<string>): string {
    if lines == [] then [] else Text(lines[..|lines| - 1]) + lines[|lines| - 1] + "\n"
  }

  /** The concatenation of the base directories. */
  function Concatenated(dirs: seq<string>): string {
    if dirs == [] then [] else Concatenated(dirs[..|dirs| - 1]) + dirs[|dirs| - 1]
  }

  /** Reading only adds to the files included and leaves baseDirs as it
      found them. */
  predicate Grows(a: ReadState, b: ReadState) {
    Included(a.includedFiles) <= Included(b.includedFiles) && b.baseDirs == a.baseDirs
  }

  /** A key = value line of the current file: an error if the key was
      already set in this file (unless keysOverrideEnabled) or earlier (in a
      file that included this one, or in an included file; unless
      keysOverrideFromIncludes), with one log entry per allowed override. */
  function AddKey(c: Context, st: ReadState, keys: set<string>, k: string, v: string): Result<ReadState> {
    if k in keys && !c.overrideEnabled then Failure(ParsingError)
    else
      var log1 := if k in keys then st.logMessages + [k] else st.logMessages;
      if k in st.keyValues && !c.overrideFromIncludes then Failure(ParsingError)
      else
        var log2 := if k in st.keyValues then log1 + [k] else log1;
        Success(st.(keyValues := st.keyValues[k := v], logMessages := log2))
  }

  /** One pass of the loop of ConfigParser::readStreamContent, keys being
      the keys already set in the current file: the line counts towards
      curLineNum and is trimmed, then handled by TrimmedStep. The result is
      the new state and key set. */
  function LineStep(c: Context, st: ReadState, keys: set<string>, line: string): (r: Result<(ReadState, set<string>)>)
    requires Valid(c.files, c.names) && IncludeNamed(c.names, line)
    ensures r.Success? ==> Grows(st, r.value.0)
  {
    TrimmedStep(c, st.(curLineNum := st.curLineNum + 1), keys, Trim(line))
  }

  /** A trimmed line t: a blank line or one starting with '#' is skipped; an
      '@' line is a directive; any other line is parsed as key = value. */
  function TrimmedStep(c: Context, st: ReadState, keys: set<string>, t: string): (r: Result<(ReadState, set<string>)>)
    requires Valid(c.files, c.names)
    requires IncludeDirective(t).Success? ==> IncludeDirective(t).value in c.names
    ensures r.Success? ==> Grows(st, r.value.0)
    decreases Remaining(c, st), 0, 4
  {
    if t == [] || t[0] == '#' then Success((st, keys))
    else if t[0] == '@' then WithKeys(DirectiveStep(c, st, t), keys)
    else PairStep(c, st, keys, t)
  }

  /** The outcome of a directive line, with the key set it leaves as it was. */
  function WithKeys(r: Result<ReadState>, keys: set<string>): Result<(ReadState, set<string>)> {
    match r
    case Failure(e) => Failure(e)
    case Success(st) => Success((st, keys))
  }

  /** An '@' line t (trimmed): the include directive's file is included and
      curLineNum is then restored. */
  function DirectiveStep(c: Context, st: ReadState, t: string): (r: Result<ReadState>)
    requires Valid(c.files, c.names)
    requires IncludeDirective(t).Success? ==> IncludeDirective(t).value in c.names
    ensures r.Success? ==> Grows(st, r.value)
    decreases Remaining(c, st), 0, 3
  {
    match IncludeDirective(t)
    case Failure(e) => Failure(e)
    case Success(name) =>
      match IncludeFile(c, st, name)
      case Failure(e) => Failure(e)
      case Success(st2) => Success(st2.(curLineNum := st.curLineNum))
  }

  /** A key = value line t (trimmed): see AddParsed. */
  function PairStep(c: Context, st: ReadState, keys: set<string>, t: string): (r: Result<(ReadState, set<string>)>)
    ensures r.Success? ==> r.value.0.includedFiles == st.includedFiles && r.value.0.baseDirs == st.baseDirs
  {
    AddParsed(c, st, keys, ParseKV(t))
  }

  /** The outcome p of parsing a key = value line: an error is passed on,
      no pair changes nothing, and a pair found is added by AddKey and its
      key joins keys. */
  function AddParsed(c: Context, st: ReadState, keys: set<string>, p: Result<KeyValue>): (r: Result<(ReadState, set<string>)>)
    ensures r.Success? ==> r.value.0.includedFiles == st.includedFiles && r.value.0.baseDirs == st.baseDirs
  {
    match p
    case Failure(e) => Failure(e)
    case Success(kv) =>
      if !kv.found then Success((st, keys))
      else match AddKey(c, st, keys, kv.key, kv.value)
        case Failure(e) => Failure(e)
        case Success(st2) => Success((st2, keys + {kv.key}))
  }

  /** The loop of ConfigParser::readStreamContent over lines: one LineStep
      per line, stopping at the first error. */
  function ReadLines(c: Context, st: ReadState, keys: set<string>, lines: seq<string>): (r: Result<ReadState>)
    requires Valid(c.files, c.names) && LinesNamed(c.names, lines)
    ensures r.Success? ==> Grows(st, r.value)
    decreases Remaining(c, st), |lines|, 0
  {
    if lines == [] then Success(st)
    else
      assert IncludeNamed(c.names, lines[0]) && LinesNamed(c.names, lines[1..]);
      var st1 := st.(curLineNum := st.curLineNum + 1);
      assert Remaining(c, st1) == Remaining(c, st);
      match TrimmedStep(c, st1, keys, Trim(lines[0]))
      case Failure(e) => Failure(e)
      case Success(next) => ReadLines(c, next.0, next.1, lines[1..])
  }

  /** The three kinds of line LineStep tells apart. */
  lemma LineStepCases(c: Context, st: ReadState, keys: set<string>, line: string)
    requires Valid(c.files, c.names) && IncludeNamed(c.names, line)
    ensures var st1 := st.(curLineNum := st.curLineNum + 1);
      var t := Trim(line);
      && (t == [] || t[0] == '#' ==> LineStep(c, st, keys, line) == Success((st1, keys)))
      && (t != [] && t[0] == '@' ==> LineStep(c, st, keys, line) == WithKeys(DirectiveStep(c, st1, t), keys))
      && (t != [] && t[0] != '#' && t[0] != '@' ==> LineStep(c, st, keys, line) == PairStep(c, st1, keys, t))
  {
    var t := Trim(line);
    var st1 := st.(curLineNum := st.curLineNum + 1);
    if t == [] || t[0] == '#' {
      TrimmedSkip(c, st1, keys, t);
    } else if t[0] == '@' {
      TrimmedDirective(c, st1, keys, t);
    } else {
      TrimmedPair(c, st1, keys, t);
    }
  }

  /** LineStep is TrimmedStep on the trimmed line, one line further on. */
  lemma LineStepTrimmed(c: Context, st: ReadState, keys: set<string>, line: string)
    requires Valid(c.files, c.names) && IncludeNamed(c.names, line)
    ensures LineStep(c, st, keys, line) == TrimmedStep(c, st.(curLineNum := st.curLineNum + 1), keys, Trim(line))
  {
    var t := Trim(line);
    var st1 := st.(curLineNum := st.curLineNum + 1);
    LineStepCases(c, st, keys, line);
    if t == [] || t[0] == '#' {
      TrimmedSkip(c, st1, keys, t);
    } else if t[0] == '@' {
      TrimmedDirective(c, st1, keys, t);
    } else {
      TrimmedPair(c, st1, keys, t);
    }
  }

  lemma TrimmedSkip(c: Context, st: ReadState, keys: set<string>, t: string)
    requires Valid(c.files, c.names)
    requires IncludeDirective(t).Success? ==> IncludeDirective(t).value in c.names
    requires t == [] || t[0] == '#'
    ensures TrimmedStep(c, st, keys, t) == Success((st, keys))
  {
  }

  lemma TrimmedDirective(c: Context, st: ReadState, keys: set<string>, t: string)
    requires Valid(c.files, c.names)
    requires IncludeDirective(t).Success? ==> IncludeDirective(t).value in c.names
    requires t != [] && t[0] == '@'
    ensures TrimmedStep(c, st, keys, t) == WithKeys(DirectiveStep(c, st, t), keys)
  {
  }

  lemma TrimmedPair(c: Context, st: ReadState, keys: set<string>, t: string)
    requires Valid(c.files, c.names)
    requires IncludeDirective(t).Success? ==> IncludeDirective(t).value in c.names
    requires t != [] && t[0] != '#' && t[0] != '@'
    ensures TrimmedStep(c, st, keys, t) == PairStep(c, st, keys, t)
  {
  }

  /** ReadLines on a non-empty list is the LineStep of its first line
      followed by ReadLines on the rest. */
  lemma ReadLinesCons(c: Context, st: ReadState, keys: set<string>, lines: seq<string>)
    requires Valid(c.files, c.names) && LinesNamed(c.names, lines) && lines != []
    ensures LinesNamed(c.names, lines[1..])
    ensures var r := LineStep(c, st, keys, lines[0]);
      && (r.Failure? ==> ReadLines(c, st, keys, lines) == Failure(r.error))
      && (r.Success? ==> ReadLines(c, st, keys, lines) == ReadLines(c, r.value.0, r.value.1, lines[1..]))
  {
    assert IncludeNamed(c.names, lines[0]);
  }

  /** One pass of the reading loop: reading lines from the i-th on, with the
      outcome of the i-th line's LineStep in hand, either fails as that step
      did or goes on from the step's state with the lines after it. */
  lemma ReadLinesStep(c: Context, st0: ReadState, before: ReadState, keys: set<string>, lines: seq<string>, i: nat,
                      err: Option<Error>, after: ReadState, nextKeys: set<string>)
    requires Valid(c.files, c.names) && LinesNamed(c.names, lines) && i < |lines|
    requires ReadLines(c, st0, {}, lines) == ReadLines(c, before, keys, lines[i..])
    requires StepOutcome(err, after, nextKeys, LineStep(c, before, keys, lines[i]))
    ensures err.Some? ==> ReadLines(c, st0, {}, lines) == Failure(err.value)
    ensures err.None? ==> Grows(before, after)
    ensures err.None? ==> ReadLines(c, st0, {}, lines) == ReadLines(c, after, nextKeys, lines[i + 1..])
  {
    assert LinesNamed(c.names, lines[i..]);
    ReadLinesCons(c, before, keys, lines[i..]);
    assert lines[i..][1..] == lines[i + 1..];
  }

  /** ConfigParser::readStreamContent on a file of the given lines: the line
      count restarts, no key has been set in this file yet, and on success
      the file's text is appended to contents (after that of the files it
      included). */
  function ReadFile(c: Context, st: ReadState, lines: seq<string>): (r: Result<ReadState>)
    requires Valid(c.files, c.names) && LinesNamed(c.names, lines)
    ensures r.Success? ==> Grows(st, r.value)
    decreases Remaining(c, st), |lines|, 1
  {
    match ReadLines(c, st.(curLineNum := 0), {}, lines)
    case Failure(e) => Failure(e)
    case Success(st1) => Success(st1.(contents := st1.contents + Text(lines)))
  }

  /** ConfigParser::processIncludedFile: an error for the top-level file or
      a file already included, and for an absolute directory; the file is
      looked up under the concatenated base directories, its own directory
      is pushed while it is read and popped afterwards. curFilename is left
      at the included file. */
  function IncludeFile(c: Context, st: ReadState, fname: string): (r: Result<ReadState>)
    requires Valid(c.files, c.names) && fname in c.names
    ensures r.Success? ==> Grows(st, r.value) && fname in Included(r.value.includedFiles)
    decreases Remaining(c, st), 0, 2
  {
    if fname == c.fileName || fname in st.includedFiles then Failure(ParsingError)
    else
      var st1 := st.(includedFiles := st.includedFiles + [fname], curFilename := fname);
      IncludedMembers(st.includedFiles, fname);
      IncludedSnoc(st.includedFiles, fname);
      var fpath := Concatenated(st.baseDirs) + fname;
      var baseDir := ExtractBaseDir(fname);
      if baseDir != [] && (baseDir[0] == '\\' || baseDir[0] == '/') then Failure(ParsingError)
      else
        var st2 := if baseDir == [] then st1 else st1.(baseDirs := st1.baseDirs + [baseDir]);
        if fpath !in c.files then Failure(IOError)
        else ReadIncluded(c, st2, c.files[fpath], baseDir != [])
  }

  /** The end of processIncludedFile: the included file's lines are read,
      then the base directory pushed for it, if any, is popped. */
  function ReadIncluded(c: Context, st: ReadState, lines: seq<string>, pushed: bool): (r: Result<ReadState>)
    requires Valid(c.files, c.names) && LinesNamed(c.names, lines)
    requires pushed ==> st.baseDirs != []
    ensures r.Success? ==> Included(st.includedFiles) <= Included(r.value.includedFiles)
    ensures r.Success? ==> r.value.baseDirs == if pushed then st.baseDirs[..|st.baseDirs| - 1] else st.baseDirs
    decreases Remaining(c, st), |lines|, 2
  {
    match ReadFile(c, st, lines)
    case Failure(e) => Failure(e)
    case Success(st3) => Success(if pushed then st3.(baseDirs := st3.baseDirs[..|st3.baseDirs| - 1]) else st3)
  }

  /** err reports the outcome r, and on success st is its state. */
  ghost predicate Outcome(err: Option<Error>, st: ReadState, r: Result<ReadState>) {
    match r
    case Success(v) => err.None? && st == v
    case Failure(e) => err == Some(e)
  }

  /** err reports the outcome r of a LineStep, and on success st and keys
      are its state and key set. */
  ghost predicate StepOutcome(err: Option<Error>, st: ReadState, keys: set<string>, r: Result<(ReadState, set<string>)>) {
    match r
    case Success(v) => err.None? && st == v.0 && keys == v.1
    case Failure(e) => err == Some(e)
  }

  // ---------------------------------------------------------------------
  // Properties of reading

  /** key = value with a key of key characters and a value with no
      surrounding whitespace: a line read back as exactly that pair. */
  predicate PairLine(key: string, value: string) {
    && key != [] && (forall j :: 0 <= j < |key| ==> IsKeyChar(key[j]))
    && value != [] && !IsWhitespace(value[0]) && !IsWhitespace(value[|value| - 1])
  }

  lemma PairLineParses(key: string, value: string)
    requires PairLine(key, value)
    ensures Trim(key + "=" + value) == key + "=" + value
    ensures ParseKV(key + "=" + value) == Success(KeyValue(true, key, value))
  {
    var line := key + "=" + value;
    WhitespaceChars(value[0]);
    WhitespaceChars(value[|value| - 1]);
    TrimOfTrimmed(value, Whitespace);
    PairRoundTrip(key, value);
    assert line[0] == key[0] && line[|line| - 1] == value[|value| - 1];
    TrimOfTrimmed(line, Whitespace);
  }

  /** Whether a line is skipped: blank, or a comment once trimmed. */
  predicate Skipped(line: string) {
    var t := Trim(line);
    t == [] || t[0] == '#'
  }

  /** Blank and comment lines only count lines: the state is otherwise
      unchanged and the keys of the current file stay as they are. */
  lemma {:induction false} SkippedLinesOnlyCount(c: Context, st: ReadState, keys: set<string>, lines: seq<string>)
    requires Valid(c.files, c.names) && LinesNamed(c.names, lines)
    requires forall i :: 0 <= i < |lines| ==> Skipped(lines[i])
    ensures ReadLines(c, st, keys, lines) == Success(st.(curLineNum := st.curLineNum + |lines|))
    decreases |lines|
  {
    if lines != [] {
      ReadLinesCons(c, st, keys, lines);
      LineStepCases(c, st, keys, lines[0]);
      SkippedLinesOnlyCount(c, st.(curLineNum := st.curLineNum + 1), keys, lines[1..]);
    }
  }

  /** A pair line is a key = value line: its LineStep is the PairStep of
      the pair. */
  lemma PairLineStep(c: Context, st: ReadState, keys: set<string>, key: string, value: string)
    requires Valid(c.files, c.names) && IncludeNamed(c.names, key + "=" + value)
    requires PairLine(key, value)
    ensures LineStep(c, st, keys, key + "=" + value)
         == PairStep(c, st.(curLineNum := st.curLineNum + 1), keys, key + "=" + value)
    ensures ParseKV(key + "=" + value) == Success(KeyValue(true, key, value))
  {
    var line := key + "=" + value;
    PairLineParses(key, value);
    assert line[0] == key[0] && IsKeyChar(key[0]);
    assert line[0] != '#' && line[0] != '@';
    var t := Trim(line);
    assert t != [] && t[0] != '#' && t[0] != '@';
    LineStepCases(c, st, keys, line);
  }

  /** A pair line whose key was already set in the same file is an error
      when keysOverrideEnabled is off. */
  lemma RepeatedInFileFails(c: Context, st: ReadState, keys: set<string>, key: string, value: string)
    requires Valid(c.files, c.names) && IncludeNamed(c.names, key + "=" + value)
    requires PairLine(key, value) && key in keys && !c.overrideEnabled
    ensures LineStep(c, st, keys, key + "=" + value) == Failure(ParsingError)
  {
    PairLineStep(c, st, keys, key, value);
  }

  /** A pair line whose key was set before this file was entered (or by a
      file it included) is an error when keysOverrideFromIncludes is off. */
  lemma SetEarlierFails(c: Context, st: ReadState, keys: set<string>, key: string, value: string)
    requires Valid(c.files, c.names) && IncludeNamed(c.names, key + "=" + value)
    requires PairLine(key, value) && key in st.keyValues && !c.overrideFromIncludes
    ensures LineStep(c, st, keys, key + "=" + value) == Failure(ParsingError)
  {
    PairLineStep(c, st, keys, key, value);
  }

  /** A pair line that is allowed sets the key, joins it to the keys of the
      file, and logs one entry per override. */
  lemma AllowedPairSets(c: Context, st: ReadState, keys: set<string>, key: string, value: string)
    requires Valid(c.files, c.names) && IncludeNamed(c.names, key + "=" + value)
    requires PairLine(key, value)
    requires key in keys ==> c.overrideEnabled
    requires key in st.keyValues ==> c.overrideFromIncludes
    ensures var r := LineStep(c, st, keys, key + "=" + value);
      && r.Success?
      && r.value.0.keyValues == st.keyValues[key := value]
      && r.value.1 == keys + {key}
      && |r.value.0.logMessages| == |st.logMessages| + (if key in keys then 1 else 0) + (if key in st.keyValues then 1 else 0)
  {
    PairLineStep(c, st, keys, key, value);
  }

  /** The same key twice in one file is an error unless
      keysOverrideEnabled, whatever the earlier state. */
  lemma DuplicateKeyInFile(c: Context, st: ReadState, key: string, v1: string, v2: string)
    requires Valid(c.files, c.names)
    requires IncludeNamed(c.names, key + "=" + v1) && IncludeNamed(c.names, key + "=" + v2)
    requires PairLine(key, v1) && PairLine(key, v2) && !c.overrideEnabled
    ensures ReadLines(c, st, {}, [key + "=" + v1, key + "=" + v2]) == Failure(ParsingError)
  {
    var l1, l2 := key + "=" + v1, key + "=" + v2;
    PairLineStep(c, st, {}, key, v1);
    var r := LineStep(c, st, {}, l1);
    if r.Success? {
      assert r.value.1 == {key};
      RepeatedInFileFails(c, r.value.0, r.value.1, key, v2);
    }
    SecondLineFails(c, st, {}, l1, l2);
  }

  /** Two lines fail to read with a parsing error when the first does, or
      when the second does after the first. */
  lemma SecondLineFails(c: Context, st: ReadState, keys: set<string>, l1: string, l2: string)
    requires Valid(c.files, c.names) && IncludeNamed(c.names, l1) && IncludeNamed(c.names, l2)
    requires var r := LineStep(c, st, keys, l1);
      if r.Success? then LineStep(c, r.value.0, r.value.1, l2) == Failure(ParsingError)
      else r.error == ParsingError
    ensures ReadLines(c, st, keys, [l1, l2]) == Failure(ParsingError)
  {
    var lines := [l1, l2];
    assert LinesNamed(c.names, lines);
    ReadLinesCons(c, st, keys, lines);
    var r := LineStep(c, st, keys, l1);
    if r.Success? {
      ReadLinesCons(c, r.value.0, r.value.1, lines[1..]);
    }
  }

  /** The pair a parse outcome holds, if any. */
  function PairFrom(p: Result<KeyValue>): map<string, string> {
    if p.Success? && p.value.found then map[p.value.key := p.value.value] else map[]
  }

  /** The pair a line sets, if any. */
  function PairOf(line: string): map<string, string> {
    var t := Trim(line);
    if t == [] || t[0] == '#' || t[0] == '@' then map[] else PairFrom(ParseKV(t))
  }

  /** The pairs lines set, a later line winning over an earlier one. */
  function Assignments(lines: seq<string>): map<string, string> {
    if lines == [] then map[] else PairOf(lines[0]) + Assignments(lines[1..])
  }

  predicate NoDirectives(lines: seq<string>) {
    forall i :: 0 <= i < |lines| ==> Trim(lines[i]) == [] || Trim(lines[i])[0] != '@'
  }

  /** A key = value line that is read sets at most the pair it holds. */
  lemma AddParsedSets(c: Context, st: ReadState, keys: set<string>, p: Result<KeyValue>)
    requires AddParsed(c, st, keys, p).Success?
    ensures AddParsed(c, st, keys, p).value.0.keyValues == st.keyValues + PairFrom(p)
  {
    if p.value.found {
      assert st.keyValues + map[p.value.key := p.value.value] == st.keyValues[p.value.key := p.value.value];
    } else {
      assert st.keyValues + map[] == st.keyValues;
    }
  }

  /** A line that is not a directive sets at most the pair it holds. */
  lemma StepSetsPairOf(c: Context, st: ReadState, keys: set<string>, line: string)
    requires Valid(c.files, c.names) && IncludeNamed(c.names, line)
    requires Trim(line) == [] || Trim(line)[0] != '@'
    requires LineStep(c, st, keys, line).Success?
    ensures LineStep(c, st, keys, line).value.0.keyValues == st.keyValues + PairOf(line)
  {
    LineStepCases(c, st, keys, line);
    var t := Trim(line);
    if t != [] && t[0] != '#' {
      AddParsedSets(c, st.(curLineNum := st.curLineNum + 1), keys, ParseKV(t));
    } else {
      assert st.keyValues + map[] == st.keyValues;
    }
  }

  lemma UnionAssociates(a: map<string, string>, b: map<string, string>, d: map<string, string>)
    ensures (a + b) + d == a + (b + d)
  {
    assert forall k :: k in (a + b) + d <==> k in a + (b + d);
  }

  /** Reading lines without directives that succeeds leaves every key at
      the value of its last assignment, and other keys as they were. */
  lemma {:induction false} LastValueWins(c: Context, st: ReadState, keys: set<string>, lines: seq<string>)
    requires Valid(c.files, c.names) && LinesNamed(c.names, lines) && NoDirectives(lines)
    requires ReadLines(c, st, keys, lines).Success?
    ensures ReadLines(c, st, keys, lines).value.keyValues == st.keyValues + Assignments(lines)
    decreases |lines|
  {
    if lines != [] {
      ReadLinesCons(c, st, keys, lines);
      var next := LineStep(c, st, keys, lines[0]).value;
      StepSetsPairOf(c, st, keys, lines[0]);
      assert NoDirectives(lines[1..]);
      LastValueWins(c, next.0, next.1, lines[1..]);
      UnionAssociates(st.keyValues, PairOf(lines[0]), Assignments(lines[1..]));
    }
  }

  /** Including the top-level file or a file already included is an error. */
  lemma IncludeCycleFails(c: Context, st: ReadState, fname: string)
    requires Valid(c.files, c.names) && fname in c.names
    requires fname == c.fileName || fname in st.includedFiles
    ensures IncludeFile(c, st, fname) == Failure(ParsingError)
  {
  }

  /** An include directive naming the top-level file or a file already
      included is an error. */
  lemma IncludeCycleLineFails(c: Context, st: ReadState, keys: set<string>, name: string)
    requires Valid(c.files, c.names) && name in c.names
    requires name != [] && forall j :: 0 <= j < |name| ==> PlainNameChar(name[j])
    requires name == c.fileName || name in st.includedFiles
    ensures IncludeNamed(c.names, "@include " + name)
    ensures LineStep(c, st, keys, "@include " + name) == Failure(ParsingError)
  {
    var line := "@include " + name;
    IncludeRoundTrip(name);
    IncludeLineTrimmed(name);
    assert line[0] == '@';
    CycleDirectiveFails(c, st, keys, line, name);
  }

  /** A line whose include directive names the top-level file or a file
      already included is an error. */
  lemma CycleDirectiveFails(c: Context, st: ReadState, keys: set<string>, line: string, name: string)
    requires Valid(c.files, c.names) && name in c.names
    requires Trim(line) != [] && Trim(line)[0] == '@' && IncludeDirective(Trim(line)) == Success(name)
    requires name == c.fileName || name in st.includedFiles
    ensures IncludeNamed(c.names, line)
    ensures LineStep(c, st, keys, line) == Failure(ParsingError)
  {
    var st1 := st.(curLineNum := st.curLineNum + 1);
    var t := Trim(line);
    IncludeCycleFails(c, st1, name);
    DirectiveOfInclude(c, st1, t, name);
    assert DirectiveStep(c, st1, t) == Failure(ParsingError);
    LineStepCases(c, st, keys, line);
  }

  /** An include directive t naming fname does what including fname does,
      apart from curLineNum. */
  lemma DirectiveOfInclude(c: Context, st: ReadState, t: string, fname: string)
    requires Valid(c.files, c.names) && fname in c.names
    requires IncludeDirective(t) == Success(fname)
    ensures IncludeFile(c, st, fname).Failure? ==> DirectiveStep(c, st, t) == Failure(IncludeFile(c, st, fname).error)
    ensures IncludeFile(c, st, fname).Success? ==>
      DirectiveStep(c, st, t) == Success(IncludeFile(c, st, fname).value.(curLineNum := st.curLineNum))
  {
  }

  /** An included file named by an absolute path (its directory starting
      with '/' or '\\') is an error. */
  lemma AbsoluteIncludeFails(c: Context, st: ReadState, fname: string)
    requires Valid(c.files, c.names) && fname in c.names
    requires fname != [] && (fname[0] == '/' || fname[0] == '\\')
    ensures IncludeFile(c, st, fname) == Failure(ParsingError)
  {
    var dir := ExtractBaseDir(fname);
    assert dir != [];
    assert dir[0] == fname[0];
  }
}
