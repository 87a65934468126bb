/** The ConfigParser object of core/config_parser.cpp: its fields and the
    methods that change them in place. Each method is proved against the
    specification functions of ConfigParsing (reading) and ConfigEdits
    (editing and reading back). The usedKeys mutex is not modelled: usedKeys
    is a plain field. The file system is a map from path to lines. */
module Config {
  import opened Wrappers
  import opened Strings
  import opened ConfigSyntax
  import opened ConfigParsing
  import opened ConfigEdits

  class ConfigParser {
    var initialized: bool
    var fileName: string
    var contents: string
    var keyValues: map<string, string>
    var keysOverrideEnabled: bool
    var keysOverrideFromIncludes: bool
    var curLineNum: nat
    var curFilename: string
    var includedFiles: seq<string>
    var baseDirs: seq<string>
    var logMessages: seq<string>
    var usedKeys: set<string>

    /** The fields reading changes, as a ReadState. */
    ghost function St(): ReadState
      reads this
    {
      ReadState(keyValues, includedFiles, baseDirs, curFilename, curLineNum, logMessages, contents)
    }

    /** The fields reading leaves unchanged. */
    ghost function Fixed(): (string, bool, bool, bool, set<string>)
      reads this`fileName, this`keysOverrideEnabled, this`keysOverrideFromIncludes, this`initialized, this`usedKeys
    {
      (fileName, keysOverrideEnabled, keysOverrideFromIncludes, initialized, usedKeys)
    }

    /** What reading depends on, for the file system files. */
    ghost function Ctx(files: map<string, seq<string>>, names: set<string>): Context
      reads this`fileName, this`keysOverrideEnabled, this`keysOverrideFromIncludes, this`initialized, this`usedKeys
    {
      var f := Fixed();
      Context(f.0, f.1, f.2, files, names)
    }

    /** ConfigParser(keysOverride, keysOverrideFromIncludes)
        (config_parser.cpp:11-17): everything empty, not initialized. */
    constructor(keysOverride: bool, fromIncludes: bool)
      ensures !initialized && fileName == [] && contents == [] && keyValues == map[]
      ensures keysOverrideEnabled == keysOverride && keysOverrideFromIncludes == fromIncludes
      ensures curLineNum == 0 && curFilename == [] && includedFiles == [] && baseDirs == []
      ensures logMessages == [] && usedKeys == {}
    {
      initialized := false;
      fileName := [];
      contents := [];
      keyValues := map[];
      keysOverrideEnabled := keysOverride;
      keysOverrideFromIncludes := fromIncludes;
      curLineNum := 0;
      curFilename := [];
      includedFiles := [];
      baseDirs := [];
      logMessages := [];
      usedKeys := {};
    }

    // -------------------------------------------------------------------
    // Reading

    /** ConfigParser::readStreamContent (config_parser.cpp:242-320) on the
        lines of one stream: the line count restarts, the lines are read by
        ReadStreamLines, and on success their text is appended to contents. */
    method ReadStreamContent(files: map<string, seq<string>>, ghost names: set<string>, lines: seq<string>)
      returns (err: Option<Error>)
      requires Valid(files, names) && LinesNamed(names, lines)
      modifies this
      decreases Remaining(Ctx(files, names), St()), |lines|, 1
      ensures Fixed() == old(Fixed())
      ensures Outcome(err, St(), ReadFile(old(Ctx(files, names)), old(St()), lines))
    {
      curLineNum := 0;
      var content;
      err, content := ReadStreamLines(files, names, lines);
      if err.None? {
        contents := contents + content;
      }
    }

    /** The loop of readStreamContent (config_parser.cpp:249-318): each line
        is added to the collected text and read by ReadLine, with
        curFileKeys the keys set so far in this stream. */
    method ReadStreamLines(files: map<string, seq<string>>, ghost names: set<string>, lines: seq<string>)
      returns (err: Option<Error>, content: string)
      requires Valid(files, names) && LinesNamed(names, lines)
      modifies this
      decreases Remaining(Ctx(files, names), St()), |lines|, 0
      ensures Fixed() == old(Fixed())
      ensures Outcome(err, St(), ReadLines(old(Ctx(files, names)), old(St()), {}, lines))
      ensures err.None? ==> content == Text(lines)
    {
      ghost var c, st0 := Ctx(files, names), St();
      content := [];
      var curFileKeys: set<string> := {};
      var i := 0;
      while i < |lines|
        invariant 0 <= i <= |lines|
        invariant Fixed() == old(Fixed())
        invariant Grows(st0, St())
        invariant ReadLines(c, st0, {}, lines) == ReadLines(c, St(), curFileKeys, lines[i..])
        invariant content == Text(lines[..i])
      {
        assert lines[..i + 1][..i] == lines[..i];
        content := content + lines[i] + "\n";
        ghost var before := St();
        var e, nextKeys := ReadLine(files, names, curFileKeys, lines[i]);
        ReadLinesStep(c, st0, before, curFileKeys, lines, i, e, St(), nextKeys);
        if e.Some? {
          return e, content;
        }
        curFileKeys := nextKeys;
        i := i + 1;
      }
      assert lines[..i] == lines;
      return None, content;
    }

    /** One pass of the loop of readStreamContent (config_parser.cpp:249-317)
        with curFileKeys = keys: see LineStep. */
    method ReadLine(files: map<string, seq<string>>, ghost names: set<string>, keys: set<string>, line: string)
      returns (err: Option<Error>, nextKeys: set<string>)
      requires Valid(files, names) && IncludeNamed(names, line)
      modifies this
      decreases Remaining(Ctx(files, names), St()), 0, 5
      ensures Fixed() == old(Fixed())
      ensures StepOutcome(err, St(), nextKeys, LineStep(old(Ctx(files, names)), old(St()), keys, line))
    {
      ghost var c, st := Ctx(files, names), St();
      LineStepTrimmed(c, st, keys, line);
      curLineNum := curLineNum + 1;
      assert St() == st.(curLineNum := st.curLineNum + 1) && Ctx(files, names) == c;
      err, nextKeys := ReadTrimmedLine(files, names, keys, Trim(line));
    }

    /** The trimmed line t of readStreamContent (config_parser.cpp:253-317):
        see TrimmedStep. */
    method ReadTrimmedLine(files: map<string, seq<string>>, ghost names: set<string>, keys: set<string>, t: string)
      returns (err: Option<Error>, nextKeys: set<string>)
      requires Valid(files, names)
      requires IncludeDirective(t).Success? ==> IncludeDirective(t).value in names
      modifies this
      decreases Remaining(Ctx(files, names), St()), 0, 4
      ensures Fixed() == old(Fixed())
      ensures StepOutcome(err, St(), nextKeys, TrimmedStep(old(Ctx(files, names)), old(St()), keys, t))
    {
      ghost var c, st := Ctx(files, names), St();
      if |t| == 0 || t[0] == '#' {
        TrimmedSkip(c, st, keys, t);
        return None, keys;
      }
      if t[0] == '@' {
        TrimmedDirective(c, st, keys, t);
        err := ReadDirectiveLine(files, names, t);
        return err, keys;
      }
      TrimmedPair(c, st, keys, t);
      err, nextKeys := ReadPairLine(files, names, keys, t);
    }

    /** The '@' branch of readStreamContent (config_parser.cpp:258-290): see
        DirectiveStep. */
    method ReadDirectiveLine(files: map<string, seq<string>>, ghost names: set<string>, t: string)
      returns (err: Option<Error>)
      requires Valid(files, names)
      requires IncludeDirective(t).Success? ==> IncludeDirective(t).value in names
      modifies this
      decreases Remaining(Ctx(files, names), St()), 0, 3
      ensures Fixed() == old(Fixed())
      ensures Outcome(err, St(), DirectiveStep(old(Ctx(files, names)), old(St()), t))
    {
      ghost var c, st := Ctx(files, names), St();
      var target := IncludeDirective(t);
      if target.Failure? {
        return Some(target.error);
      }
      var lineNum := curLineNum;
      err := ProcessIncludedFile(files, names, target.value);
      assert Outcome(err, St(), IncludeFile(c, st, target.value));
      if err.Some? {
        return;
      }
      curLineNum := lineNum;
    }

    /** The key = value branch of readStreamContent
        (config_parser.cpp:292-317): see PairStep and AddKey. */
    method ReadPairLine(ghost files: map<string, seq<string>>, ghost names: set<string>, keys: set<string>, t: string)
      returns (err: Option<Error>, nextKeys: set<string>)
      modifies this
      ensures Fixed() == old(Fixed())
      ensures StepOutcome(err, St(), nextKeys, PairStep(old(Ctx(files, names)), old(St()), keys, t))
    {
      nextKeys := keys;
      var parsed := ParseKeyValue(t);
      if parsed.Failure? {
        return Some(parsed.error), keys;
      }
      var kv := parsed.value;
      if !kv.found {
        return None, keys;
      }
      if kv.key in keys {
        if !keysOverrideEnabled {
          return Some(ParsingError), keys;
        }
        logMessages := logMessages + [kv.key];
      }
      if kv.key in keyValues {
        if !keysOverrideFromIncludes {
          return Some(ParsingError), keys;
        }
        logMessages := logMessages + [kv.key];
      }
      keyValues := keyValues[kv.key := kv.value];
      return None, keys + {kv.key};
    }

    /** The path processIncludedFile opens (config_parser.cpp:120-125): the
        base directories in order, then fname. */
    method IncludePath(fname: string) returns (fpath: string)
      ensures fpath == Concatenated(baseDirs) + fname
    {
      fpath := [];
      var j := 0;
      while j < |baseDirs|
        invariant 0 <= j <= |baseDirs|
        invariant fpath == Concatenated(baseDirs[..j])
      {
        assert baseDirs[..j + 1][..j] == baseDirs[..j];
        fpath := fpath + baseDirs[j];
        j := j + 1;
      }
      assert baseDirs[..j] == baseDirs;
      fpath := fpath + fname;
    }

    /** ConfigParser::processIncludedFile (config_parser.cpp:110-141): see
        IncludeFile. */
    method ProcessIncludedFile(files: map<string, seq<string>>, ghost names: set<string>, fname: string)
      returns (err: Option<Error>)
      requires Valid(files, names) && fname in names
      modifies this
      decreases Remaining(Ctx(files, names), St()), 0, 2
      ensures Fixed() == old(Fixed())
      ensures Outcome(err, St(), IncludeFile(old(Ctx(files, names)), old(St()), fname))
    {
      ghost var c, st := Ctx(files, names), St();
      var repeated := ContainsString(includedFiles, fname);
      if fname == fileName || repeated {
        return Some(ParsingError);
      }
      var fpath := IncludePath(fname);
      includedFiles := includedFiles + [fname];
      curFilename := fname;
      IncludedMembers(old(includedFiles), fname);
      IncludedSnoc(old(includedFiles), fname);
      var baseDir := ExtractBaseDir(fname);
      if baseDir != [] {
        if baseDir[0] == '\\' || baseDir[0] == '/' {
          return Some(ParsingError);
        }
        baseDirs := baseDirs + [baseDir];
      }
      if fpath !in files {
        return Some(IOError);
      }
      ghost var st1 := st.(includedFiles := st.includedFiles + [fname], curFilename := fname);
      assert St() == (if baseDir == [] then st1 else st1.(baseDirs := st1.baseDirs + [baseDir]));
      assert Ctx(files, names) == c;
      err := ReadIncludedLines(files, names, files[fpath], baseDir != []);
    }

    /** The end of processIncludedFile (config_parser.cpp:136-140): see
        ReadIncluded. */
    method ReadIncludedLines(files: map<string, seq<string>>, ghost names: set<string>, lines: seq<string>, pushed: bool)
      returns (err: Option<Error>)
      requires Valid(files, names) && LinesNamed(names, lines)
      requires pushed ==> baseDirs != []
      modifies this
      decreases Remaining(Ctx(files, names), St()), |lines|, 2
      ensures Fixed() == old(Fixed())
      ensures Outcome(err, St(), ReadIncluded(old(Ctx(files, names)), old(St()), lines, pushed))
    {
      err := ReadStreamContent(files, names, lines);
      if err.None? && pushed {
        baseDirs := baseDirs[..|baseDirs| - 1];
      }
    }

    // -------------------------------------------------------------------
    // Initialization

    /** ConfigParser::initializeInternal (config_parser.cpp:101-107): the map
        and the text are cleared, the current file is the configuration
        file, and the lines are read. */
    method InitializeInternal(files: map<string, seq<string>>, ghost names: set<string>, lines: seq<string>)
      returns (err: Option<Error>)
      requires Valid(files, names) && LinesNamed(names, lines)
      modifies this
      ensures Fixed() == old(Fixed())
      ensures Outcome(err, St(), ReadFile(old(Ctx(files, names)), old(St()).(keyValues := map[], contents := [], curFilename := fileName), lines))
    {
      keyValues := map[];
      contents := [];
      curFilename := fileName;
      err := ReadStreamContent(files, names, lines);
    }

    /** ConfigParser::initialize(fname) (config_parser.cpp:57-80): refused
        once initialized; a file that cannot be opened is an IOError;
        otherwise the file becomes the configuration file, its base
        directory is pushed, and it is read. */
    method InitializeFromFile(files: map<string, seq<string>>, ghost names: set<string>, fname: string)
      returns (err: Option<Error>)
      requires Valid(files, names)
      modifies this
      ensures old(initialized) ==> err == Some(StringError) && St() == old(St()) && Fixed() == old(Fixed())
      ensures !old(initialized) && fname !in files ==> err == Some(IOError) && St() == old(St()) && Fixed() == old(Fixed())
      ensures !old(initialized) && fname in files ==>
        && fileName == fname && initialized == err.None?
        && keysOverrideEnabled == old(keysOverrideEnabled) && keysOverrideFromIncludes == old(keysOverrideFromIncludes)
        && usedKeys == old(usedKeys)
        && Outcome(err, St(), ReadFile(Ctx(files, names), Opened(old(St()), fname), files[fname]))
    {
      if initialized {
        return Some(StringError);
      }
      if fname !in files {
        return Some(IOError);
      }
      fileName := fname;
      var baseDir := ExtractBaseDir(fname);
      if baseDir != [] {
        baseDirs := baseDirs + [baseDir];
      }
      err := InitializeInternal(files, names, files[fname]);
      initialized := err.None?;
    }

    /** The state initialize(fname) reads the file from. */
    static ghost function Opened(st: ReadState, fname: string): ReadState {
      var dir := ExtractBaseDir(fname);
      st.(keyValues := map[], contents := [], curFilename := fname,
          baseDirs := if dir == [] then st.baseDirs else st.baseDirs + [dir])
    }

    /** ConfigParser::initialize(istream) (config_parser.cpp:83-89): refused
        once initialized; otherwise the stream is read. */
    method InitializeFromStream(files: map<string, seq<string>>, ghost names: set<string>, lines: seq<string>)
      returns (err: Option<Error>)
      requires Valid(files, names) && LinesNamed(names, lines)
      modifies this
      ensures old(initialized) ==> err == Some(StringError) && St() == old(St()) && Fixed() == old(Fixed())
      ensures !old(initialized) ==>
        && fileName == old(fileName) && initialized == err.None?
        && keysOverrideEnabled == old(keysOverrideEnabled) && keysOverrideFromIncludes == old(keysOverrideFromIncludes)
        && usedKeys == old(usedKeys)
        && Outcome(err, St(), ReadFile(Ctx(files, names), old(St()).(keyValues := map[], contents := [], curFilename := fileName), lines))
    {
      if initialized {
        return Some(StringError);
      }
      err := InitializeInternal(files, names, lines);
      initialized := err.None?;
    }

    /** ConfigParser::initialize(map) (config_parser.cpp:92-98): refused once
        initialized; otherwise the map is taken as it is. */
    method InitializeFromMap(kvs: map<string, string>) returns (err: Option<Error>)
      modifies this`keyValues, this`initialized
      ensures old(initialized) ==> err == Some(StringError) && keyValues == old(keyValues) && initialized
      ensures !old(initialized) ==> err.None? && keyValues == kvs && initialized
    {
      if initialized {
        return Some(StringError);
      }
      keyValues := kvs;
      initialized := true;
      return None;
    }

    // -------------------------------------------------------------------
    // Overrides

    /** ConfigParser::overrideKey (config_parser.cpp:395-407): see
        OverrideOne. */
    method OverrideKey(key: string, value: string)
      modifies this`keyValues
      ensures keyValues == OverrideOne(old(keyValues), key, value)
    {
      if |value| == 0 {
        if key in keyValues {
          keyValues := keyValues - {key};
        }
      } else {
        keyValues := keyValues[key := value];
      }
    }

    /** ConfigParser::overrideKeys(newkvs) (config_parser.cpp:420-436): the
        overrides of newkvs, and the file name records them. */
    method OverrideKeys(newkvs: map<string, string>)
      modifies this`keyValues, this`fileName
      ensures keyValues == OverrideAll(old(keyValues), newkvs)
      ensures fileName == old(fileName) + " and/or command-line and query overrides"
    {
      ApplyOverrides(newkvs);
      fileName := fileName + " and/or command-line and query overrides";
    }

    /** The loop of overrideKeys (config_parser.cpp:422-434): every entry of
        newkvs in key order, as overrideKey. */
    method ApplyOverrides(newkvs: map<string, string>)
      modifies this`keyValues
      ensures keyValues == OverrideAll(old(keyValues), newkvs)
    {
      ghost var m := keyValues;
      var rest := newkvs.Keys;
      while rest != {}
        invariant rest <= newkvs.Keys
        invariant keyValues == OverrideAll(m, Restrict(newkvs, newkvs.Keys - rest))
        decreases |rest|
      {
        var k := Least(rest);
        OverrideStep(m, newkvs, newkvs.Keys - rest, k);
        assert newkvs.Keys - rest + {k} == newkvs.Keys - (rest - {k});
        OverrideKey(k, newkvs[k]);
        rest := rest - {k};
      }
      assert newkvs.Keys - rest == newkvs.Keys;
      RestrictAll(newkvs);
    }

    /** Whether newkvs has a key of a (the hasA and hasB loops of
        config_parser.cpp:445-464). */
    static method AnyKeyIn(a: set<string>, newkvs: map<string, string>) returns (found: bool)
      ensures found <==> HasAny(a, newkvs)
    {
      var rest := a;
      while rest != {}
        invariant rest <= a
        invariant forall k :: k in a - rest ==> k !in newkvs
        decreases |rest|
      {
        var k := Least(rest);
        if k in newkvs {
          return true;
        }
        rest := rest - {k};
      }
      return false;
    }

    /** ConfigParser::overrideKeys(newkvs, mutexKeySets)
        (config_parser.cpp:439-486): for each pair (a, b) in order, the keys
        of b are erased if newkvs has a key of a and the keys of a if it has
        one of b; then the overrides of newkvs are applied. */
    method OverrideKeysMutex(newkvs: map<string, string>, sets: seq<(set<string>, set<string>)>)
      modifies this`keyValues, this`fileName
      ensures keyValues == OverrideAll(MutexErased(old(keyValues), newkvs, sets), newkvs)
      ensures fileName == old(fileName) + " and/or command-line and query overrides"
    {
      ghost var erased := MutexErased(keyValues, newkvs, sets);
      var i := 0;
      while i < |sets|
        invariant 0 <= i <= |sets|
        invariant MutexErased(keyValues, newkvs, sets[i..]) == erased
        invariant fileName == old(fileName)
      {
        var a, b := sets[i].0, sets[i].1;
        var hasA := AnyKeyIn(a, newkvs);
        var hasB := AnyKeyIn(b, newkvs);
        assert sets[i..][1..] == sets[i + 1..];
        if hasA {
          keyValues := keyValues - b;
        }
        if hasB {
          keyValues := keyValues - a;
        }
        i := i + 1;
      }
      OverrideKeys(newkvs);
    }

    /** ConfigParser::overrideKeys(fname) (config_parser.cpp:410-417): the
        base directories are forgotten and fname is read as an include. */
    method OverrideKeysFromFile(files: map<string, seq<string>>, ghost names: set<string>, fname: string)
      returns (err: Option<Error>)
      requires Valid(files, names) && fname in names
      modifies this
      ensures Fixed() == old(Fixed())
      ensures Outcome(err, St(), IncludeFile(old(Ctx(files, names)), old(St()).(baseDirs := []), fname))
    {
      baseDirs := [];
      err := ProcessIncludedFile(files, names, fname);
    }

    /** ConfigParser::applyAlias (config_parser.cpp:377-392): see Alias. */
    method ApplyAlias(from: string, to: string) returns (err: Option<Error>)
      modifies this`keyValues, this`usedKeys
      ensures var r := Alias(old(keyValues), old(usedKeys), from, to);
        match r
        case Failure(e) => err == Some(e) && keyValues == old(keyValues) && usedKeys == old(usedKeys)
        case Success(v) => err.None? && keyValues == v.0 && usedKeys == v.1
    {
      if Contains(from) && Contains(to) {
        return Some(IOError);
      }
      if Contains(from) {
        keyValues := keyValues[to := keyValues[from]];
        keyValues := keyValues - {from};
        if from in usedKeys {
          usedKeys := usedKeys + {to};
          usedKeys := usedKeys - {from};
        }
      }
      return None;
    }

    // -------------------------------------------------------------------
    // Used keys

    /** ConfigParser::unsetUsedKey (config_parser.cpp:370-374). */
    method UnsetUsedKey(key: string)
      modifies this`usedKeys
      ensures key !in usedKeys
      ensures forall k :: k != key ==> (k in usedKeys <==> k in old(usedKeys))
    {
      usedKeys := usedKeys - {key};
    }

    /** ConfigParser::markAllKeysUsedWithPrefix (config_parser.cpp:516-529):
        the keys with the prefix become used, and no others. */
    method MarkAllKeysUsedWithPrefix(prefix: string)
      modifies this`usedKeys
      ensures forall k :: k in usedKeys <==> k in old(usedKeys) || (k in keyValues && IsPrefix(k, prefix))
    {
      var rest := keyValues.Keys;
      while rest != {}
        invariant rest <= keyValues.Keys
        invariant forall k :: k in usedKeys <==> k in old(usedKeys) || (k in keyValues && k !in rest && IsPrefix(k, prefix))
        decreases |rest|
      {
        var key := Least(rest);
        if IsPrefix(key, prefix) {
          usedKeys := usedKeys + {key};
        }
        rest := rest - {key};
      }
    }

    /** ConfigParser::unusedKeys (config_parser.cpp:566-583): the keys not
        used, in the increasing order of the map. */
    method UnusedKeys() returns (unused: seq<string>)
      ensures StrictlySorted(unused)
      ensures forall k :: k in unused <==> k in keyValues && k !in usedKeys
    {
      unused := [];
      var rest := keyValues.Keys;
      while rest != {}
        invariant rest <= keyValues.Keys
        invariant StrictlySorted(unused)
        invariant forall k :: k in unused <==> k in keyValues && k !in rest && k !in usedKeys
        invariant forall i, k :: 0 <= i < |unused| && k in rest ==> StrLess(unused[i], k)
        decreases |rest|
      {
        var key := Least(rest);
        if key !in usedKeys {
          unused := unused + [key];
        }
        rest := rest - {key};
      }
    }

    // -------------------------------------------------------------------
    // Lookups

    /** ConfigParser::contains (config_parser.cpp:586-589). */
    predicate Contains(key: string)
      reads this
    {
      key in keyValues
    }

    /** ConfigParser::containsAny (config_parser.cpp:592-600). */
    method ContainsAny(possibleKeys: seq<string>) returns (found: bool)
      ensures found <==> exists i :: 0 <= i < |possibleKeys| && possibleKeys[i] in keyValues
    {
      for i := 0 to |possibleKeys|
        invariant forall j :: 0 <= j < i ==> possibleKeys[j] !in keyValues
      {
        if Contains(possibleKeys[i]) {
          return true;
        }
      }
      return false;
    }

    /** ConfigParser::firstFoundOrFail (config_parser.cpp:603-618): the first
        of possibleKeys that is set, or an IOError. */
    method FirstFoundOrFail(possibleKeys: seq<string>) returns (r: Result<string>)
      ensures match FirstFound(keyValues, possibleKeys)
        case None => r == Failure(IOError)
        case Some(i) => r == Success(possibleKeys[i])
    {
      for i := 0 to |possibleKeys|
        invariant forall j :: 0 <= j < i ==> possibleKeys[j] !in keyValues
      {
        if Contains(possibleKeys[i]) {
          FirstFoundAt(keyValues, possibleKeys, i);
          return Success(possibleKeys[i]);
        }
      }
      FirstFoundNone(keyValues, possibleKeys);
      return Failure(IOError);
    }

    /** ConfigParser::firstFoundOrEmpty (config_parser.cpp:621-629): the
        first of possibleKeys that is set, or the empty string. */
    method FirstFoundOrEmpty(possibleKeys: seq<string>) returns (key: string)
      ensures match FirstFound(keyValues, possibleKeys)
        case None => key == []
        case Some(i) => key == possibleKeys[i]
    {
      for i := 0 to |possibleKeys|
        invariant forall j :: 0 <= j < i ==> possibleKeys[j] !in keyValues
      {
        if Contains(possibleKeys[i]) {
          FirstFoundAt(keyValues, possibleKeys, i);
          return possibleKeys[i];
        }
      }
      FirstFoundNone(keyValues, possibleKeys);
      return [];
    }

    // -------------------------------------------------------------------
    // Getters

    /** ConfigParser::getString (config_parser.cpp:632-646): the value of
        key, which becomes used; an IOError if it is not set. */
    method GetString(key: string) returns (r: Result<string>)
      modifies this`usedKeys
      ensures key !in keyValues ==> r == Failure(IOError) && usedKeys == old(usedKeys)
      ensures key in keyValues ==> r == Success(keyValues[key]) && usedKeys == old(usedKeys) + {key}
    {
      if key !in keyValues {
        return Failure(IOError);
      }
      usedKeys := usedKeys + {key};
      return Success(keyValues[key]);
    }

    /** ConfigParser::getString(key, possibles) (config_parser.cpp:649-659):
        as GetString, and an IOError if the value is not one of possibles. */
    method GetStringOneOf(key: string, possibles: set<string>) returns (r: Result<string>)
      modifies this`usedKeys
      ensures key !in keyValues ==> r == Failure(IOError) && usedKeys == old(usedKeys)
      ensures key in keyValues ==> usedKeys == old(usedKeys) + {key}
      ensures key in keyValues && keyValues[key] in possibles ==> r == Success(keyValues[key])
      ensures key in keyValues && keyValues[key] !in possibles ==> r == Failure(IOError)
    {
      r := GetString(key);
      if r.Success? && r.value !in possibles {
        return Failure(IOError);
      }
    }

    /** ConfigParser::getStrings (config_parser.cpp:662-666): the value of
        key split at commas. */
    method GetStrings(key: string) returns (r: Result<seq<string>>)
      modifies this`usedKeys
      ensures key !in keyValues ==> r == Failure(IOError) && usedKeys == old(usedKeys)
      ensures key in keyValues ==> r == Success(Tokens(keyValues[key], ',')) && usedKeys == old(usedKeys) + {key}
    {
      var s := GetString(key);
      if s.Failure? {
        return Failure(s.error);
      }
      var pieces := Split(s.value, ',');
      return Success(pieces);
    }

    /** ConfigParser::getInt(key, min, max) (config_parser.cpp:765-782), with
        parse standing for Global::tryStringToInt: see IntInRange. The
        source asserts min <= max. */
    method GetInt(key: string, min: int, max: int, parse: string -> Option<int>) returns (r: Result<int>)
      requires min <= max
      modifies this`usedKeys
      ensures key !in keyValues ==> r == Failure(IOError) && usedKeys == old(usedKeys)
      ensures key in keyValues ==> r == IntInRange(keyValues[key], min, max, parse) && usedKeys == old(usedKeys) + {key}
    {
      var value := GetString(key);
      if value.Failure? {
        return Failure(value.error);
      }
      var x := parse(value.value);
      if x.None? {
        return Failure(IOError);
      }
      if x.value < min || x.value > max {
        return Failure(IOError);
      }
      return Success(x.value);
    }

    /** ConfigParser::getNonNegativeIntDashedPairs (config_parser.cpp:831-863),
        with parse standing for Global::tryStringToInt: see DashedPairs. */
    method GetNonNegativeIntDashedPairs(key: string, min: int, max: int, parse: string -> Option<int>)
      returns (r: Result<seq<(int, int)>>)
      modifies this`usedKeys
      ensures key !in keyValues ==> r == Failure(IOError) && usedKeys == old(usedKeys)
      ensures key in keyValues ==> r == DashedPairs(Tokens(keyValues[key], ','), min, max, parse) && usedKeys == old(usedKeys) + {key}
    {
      var strs := GetStrings(key);
      if strs.Failure? {
        return Failure(strs.error);
      }
      var pieces := strs.value;
      var ret := [];
      ghost var step := piece => DashedPair(piece, min, max, parse);
      for i := 0 to |pieces|
        invariant Collect(pieces[..i], step) == Success(ret)
        invariant usedKeys == old(usedKeys) + {key}
      {
        assert pieces[..i + 1][..i] == pieces[..i];
        var t := Trim(pieces[i]);
        if |t| == 0 {
          continue;
        }
        var halves := Split(t, '-');
        if |halves| != 2 {
          CollectFailsAt(pieces, i, step);
          return Failure(IOError);
        }
        var p0 := parse(halves[0]);
        if p0.None? {
          CollectFailsAt(pieces, i, step);
          return Failure(IOError);
        }
        var p1 := parse(halves[1]);
        if p1.None? {
          CollectFailsAt(pieces, i, step);
          return Failure(IOError);
        }
        if p0.value < min || p0.value > max || p1.value < min || p1.value > max {
          CollectFailsAt(pieces, i, step);
          return Failure(IOError);
        }
        ret := ret + [(p0.value, p1.value)];
      }
      assert pieces[..|pieces|] == pieces;
      return Success(ret);
    }
  }

  /** The first found key is at position i when it is the first set one. */
  lemma FirstFoundAt(m: map<string, string>, keys: seq<string>, i: nat)
    requires i < |keys| && keys[i] in m && forall j :: 0 <= j < i ==> keys[j] !in m
    ensures FirstFound(m, keys) == Some(i)
  {
    match FirstFound(m, keys)
    case None =>
    case Some(f) =>
  }

  /** No key found when none is set. */
  lemma FirstFoundNone(m: map<string, string>, keys: seq<string>)
    requires forall j :: 0 <= j < |keys| ==> keys[j] !in m
    ensures FirstFound(m, keys) == None
  {
  }
}
