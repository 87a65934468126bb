/** What the editing and reading-back operations of ConfigParser
    (core/config_parser.cpp) do to its key -> value map and used-key set,
    as functions on values, with the properties the methods of
    Config.ConfigParser inherit from them. */
module ConfigEdits {
  import opened Wrappers
  import opened Strings

  // ---------------------------------------------------------------------
  // Overrides

  /** ConfigParser::overrideKey (config_parser.cpp:395-407): an empty value
      erases the key, any other value sets it. */
  function OverrideOne(m: map<string, string>, k: string, v: string): (r: map<string, string>)
    ensures v == [] ==> k !in r
    ensures v != [] ==> k in r && r[k] == v
    ensures forall j :: j != k ==> (j in r <==> j in m) && (j in r ==> r[j] == m[j])
  {
    if v == [] then m - {k} else m[k := v]
  }

  /** Every key of n overridden in m as OverrideOne does it. */
  function OverrideAll(m: map<string, string>, n: map<string, string>): (r: map<string, string>)
    ensures forall k :: k in n && n[k] == [] ==> k !in r
    ensures forall k :: k in n && n[k] != [] ==> k in r && r[k] == n[k]
    ensures forall k :: k !in n ==> (k in r <==> k in m) && (k in r ==> r[k] == m[k])
  {
    map k | k in m.Keys + n.Keys && (k in n ==> n[k] != []) :: if k in n then n[k] else m[k]
  }

  /** The entries of n whose keys are in ks. */
  function Restrict(n: map<string, string>, ks: set<string>): map<string, string> {
    map k | k in n && k in ks :: n[k]
  }

  /** Overriding one more key of n extends an override by part of n. */
  lemma OverrideStep(m: map<string, string>, n: map<string, string>, done: set<string>, k: string)
    requires k in n && k !in done
    ensures OverrideOne(OverrideAll(m, Restrict(n, done)), k, n[k]) == OverrideAll(m, Restrict(n, done + {k}))
  {
    var a := OverrideOne(OverrideAll(m, Restrict(n, done)), k, n[k]);
    var b := OverrideAll(m, Restrict(n, done + {k}));
    assert forall j :: j in a <==> j in b;
  }

  /** Overriding by all of n is overriding by the whole of n. */
  lemma RestrictAll(n: map<string, string>)
    ensures Restrict(n, n.Keys) == n
  {
  }

  /** Overriding by a single entry is overrideKey. */
  lemma OverrideAllOne(m: map<string, string>, k: string, v: string)
    ensures OverrideAll(m, map[k := v]) == OverrideOne(m, k, v)
  {
    var a := OverrideAll(m, map[k := v]);
    var b := OverrideOne(m, k, v);
    assert forall j :: j in a <==> j in b;
  }

  /** Applying the same overrides twice changes nothing more. */
  lemma OverrideAllIdempotent(m: map<string, string>, n: map<string, string>)
    ensures OverrideAll(OverrideAll(m, n), n) == OverrideAll(m, n)
  {
    var a := OverrideAll(OverrideAll(m, n), n);
    var b := OverrideAll(m, n);
    assert forall j :: j in a <==> j in b;
  }

  // ---------------------------------------------------------------------
  // Mutually exclusive key sets

  /** Some key of a is in n. */
  predicate HasAny(a: set<string>, n: map<string, string>) {
    exists k :: k in a && k in n
  }

  /** One pair (a, b) of overrideKeys with mutex sets
      (config_parser.cpp:441-482): if n has a key of a, every key of b is
      erased, and if it has a key of b, every key of a. */
  function EraseMutex(m: map<string, string>, n: map<string, string>, a: set<string>, b: set<string>): map<string, string> {
    var m1 := if HasAny(a, n) then m - b else m;
    if HasAny(b, n) then m1 - a else m1
  }

  /** Every pair of sets handled in order. */
  function MutexErased(m: map<string, string>, n: map<string, string>, sets: seq<(set<string>, set<string>)>): map<string, string>
    decreases |sets|
  {
    if sets == [] then m else MutexErased(EraseMutex(m, n, sets[0].0, sets[0].1), n, sets[1..])
  }

  /** k is erased by one of the pairs of sets, given the new map n. */
  predicate Excluded(k: string, n: map<string, string>, sets: seq<(set<string>, set<string>)>) {
    exists i :: 0 <= i < |sets| && ((k in sets[i].1 && HasAny(sets[i].0, n)) || (k in sets[i].0 && HasAny(sets[i].1, n)))
  }

  /** The erasure keeps exactly the keys no pair excludes, at their old
      values. */
  lemma {:induction false} MutexErasedKeys(m: map<string, string>, n: map<string, string>, sets: seq<(set<string>, set<string>)>, k: string)
    ensures k in MutexErased(m, n, sets) <==> k in m && !Excluded(k, n, sets)
    ensures k in MutexErased(m, n, sets) ==> MutexErased(m, n, sets)[k] == m[k]
    decreases |sets|
  {
    if sets != [] {
      var m1 := EraseMutex(m, n, sets[0].0, sets[0].1);
      MutexErasedKeys(m1, n, sets[1..], k);
      assert forall i :: 1 <= i < |sets| ==> sets[1..][i - 1] == sets[i];
      if Excluded(k, n, sets[1..]) {
        var i :| 0 <= i < |sets[1..]| && ((k in sets[1..][i].1 && HasAny(sets[1..][i].0, n)) || (k in sets[1..][i].0 && HasAny(sets[1..][i].1, n)));
        assert sets[1..][i] == sets[i + 1];
      }
    }
  }

  /** overrideKeys with mutex sets: the erasure, then the overrides. A key
      with a non-empty new value ends at that value whatever the sets say;
      a key not in n survives exactly when no pair excludes it. */
  lemma MutexOverride(m: map<string, string>, n: map<string, string>, sets: seq<(set<string>, set<string>)>, k: string)
    ensures var r := OverrideAll(MutexErased(m, n, sets), n);
      && (k in n && n[k] != [] ==> k in r && r[k] == n[k])
      && (k in n && n[k] == [] ==> k !in r)
      && (k !in n ==> (k in r <==> k in m && !Excluded(k, n, sets)) && (k in r ==> r[k] == m[k]))
  {
    MutexErasedKeys(m, n, sets, k);
  }

  // ---------------------------------------------------------------------
  // Aliases

  /** ConfigParser::applyAlias (config_parser.cpp:377-392) on the map m and
      the used keys: an error if both keys are set; otherwise the value of
      from moves to to, and so does the used mark. */
  function Alias(m: map<string, string>, used: set<string>, from: string, to: string): (r: Result<(map<string, string>, set<string>)>)
    ensures r.Failure? <==> from in m && to in m
    ensures r.Failure? ==> r.error == IOError
    ensures r.Success? && from !in m ==> r.value == (m, used)
    ensures r.Success? && from in m ==>
      && from !in r.value.0 && to in r.value.0 && r.value.0[to] == m[from]
      && (forall k :: k != from && k != to ==> (k in r.value.0 <==> k in m) && (k in r.value.0 ==> r.value.0[k] == m[k]))
      && r.value.1 == (if from in used then used - {from} + {to} else used)
  {
    if from in m && to in m then Failure(IOError)
    else if from in m then
      Success((m[to := m[from]] - {from}, if from in used then used + {to} - {from} else used))
    else Success((m, used))
  }

  /** Aliasing back undoes an alias, when the target was neither set nor
      used. */
  lemma AliasRoundTrip(m: map<string, string>, used: set<string>, from: string, to: string)
    requires from in m && to !in m && to !in used
    ensures Alias(m, used, from, to).Success?
    ensures var r := Alias(m, used, from, to).value;
      Alias(r.0, r.1, to, from) == Success((m, used))
  {
    var r := Alias(m, used, from, to).value;
    var back := Alias(r.0, r.1, to, from).value;
    assert forall k :: k in back.0 <==> k in m;
    assert back.0 == m;
    assert back.1 == used;
  }

  /** Aliasing keeps the number of keys. */
  lemma AliasKeepsCount(m: map<string, string>, used: set<string>, from: string, to: string)
    requires Alias(m, used, from, to).Success?
    ensures |Alias(m, used, from, to).value.0| == |m|
  {
    if from in m {
      var r := Alias(m, used, from, to).value.0;
      assert r.Keys == m.Keys - {from} + {to};
      assert |m.Keys - {from}| == |m.Keys| - 1;
    }
  }

  // ---------------------------------------------------------------------
  // The order of std::map<std::string, ...>

  /** std::string's operator<: lexicographic by character, a proper prefix
      first. */
  predicate StrLess(a: string, b: string)
    decreases |a|
  {
    if a == [] then b != []
    else if b == [] then false
    else if a[0] != b[0] then a[0] < b[0]
    else StrLess(a[1..], b[1..])
  }

  lemma {:induction false} StrLessIrreflexive(a: string)
    ensures !StrLess(a, a)
    decreases |a|
  {
    if a != [] {
      StrLessIrreflexive(a[1..]);
    }
  }

  lemma {:induction false} StrLessTransitive(a: string, b: string, c: string)
    requires StrLess(a, b) && StrLess(b, c)
    ensures StrLess(a, c)
    decreases |a|
  {
    if a != [] && b != [] && c != [] && a[0] == b[0] && b[0] == c[0] {
      StrLessTransitive(a[1..], b[1..], c[1..]);
    }
  }

  lemma {:induction false} StrLessTotal(a: string, b: string)
    requires a != b
    ensures StrLess(a, b) || StrLess(b, a)
    decreases |a|
  {
    if a != [] && b != [] && a[0] == b[0] {
      assert a == [a[0]] + a[1..] && b == [b[0]] + b[1..];
      StrLessTotal(a[1..], b[1..]);
    }
  }

  /** s in strictly increasing order, as the keys of a std::map iterate. */
  predicate StrictlySorted(s: seq<string>) {
    forall i, j :: 0 <= i < j < |s| ==> StrLess(s[i], s[j])
  }

  /** The key std::map's iteration visits first among s: its least. */
  method Least(s: set<string>) returns (least: string)
    requires s != {}
    ensures least in s
    ensures forall x :: x in s && x != least ==> StrLess(least, x)
  {
    least :| least in s;
    var rest := s - {least};
    while rest != {}
      invariant rest <= s && least in s && least !in rest
      invariant forall x :: x in s - rest && x != least ==> StrLess(least, x)
      decreases |rest|
    {
      var x :| x in rest;
      if StrLess(x, least) {
        forall y | y in s - rest && y != x
          ensures StrLess(x, y)
        {
          if y != least {
            StrLessTransitive(x, least, y);
          }
        }
        least := x;
      } else {
        StrLessTotal(x, least);
      }
      rest := rest - {x};
    }
  }

  // ---------------------------------------------------------------------
  // Lookups

  /** The position of the first of keys that m holds, if any. */
  function FirstFound(m: map<string, string>, keys: seq<string>): (r: Option<nat>)
    ensures r.Some? ==> r.value < |keys| && keys[r.value] in m && forall j :: 0 <= j < r.value ==> keys[j] !in m
    ensures r.None? ==> forall j :: 0 <= j < |keys| ==> keys[j] !in m
    decreases |keys|
  {
    if keys == [] then None
    else if keys[0] in m then Some(0)
    else match FirstFound(m, keys[1..])
      case None => None
      case Some(i) => Some(i + 1)
  }

  // ---------------------------------------------------------------------
  // Typed values

  /** getInt(key, min, max) (config_parser.cpp:765-782) on the value v, with
      parse standing for Global::tryStringToInt: an error if v does not
      parse or falls outside [min, max]. */
  function IntInRange(v: string, min: int, max: int, parse: string -> Option<int>): (r: Result<int>)
    ensures r.Success? <==> parse(v).Some? && min <= parse(v).value <= max
    ensures r.Success? ==> r.value == parse(v).value
    ensures r.Failure? ==> r.error == IOError
  {
    match parse(v)
    case None => Failure(IOError)
    case Some(x) => if x < min || x > max then Failure(IOError) else Success(x)
  }

  /** One comma-separated piece of getNonNegativeIntDashedPairs
      (config_parser.cpp:836-860): blank pieces are skipped (None); the
      rest must split at '-' into exactly two integers in [min, max]. */
  function DashedPair(piece: string, min: int, max: int, parse: string -> Option<int>): Result<Option<(int, int)>> {
    var t := Trim(piece);
    if t == [] then Success(None)
    else
      var halves := Tokens(t, '-');
      if |halves| != 2 then Failure(IOError)
      else match (parse(halves[0]), parse(halves[1]))
        case (Some(p0), Some(p1)) =>
          if p0 < min || p0 > max || p1 < min || p1 > max then Failure(IOError)
          else Success(Some((p0, p1)))
        case _ => Failure(IOError)
  }

  /** The outcomes of step on each piece in turn, collected: the pairs in
      order, or the error of the first piece that has one. */
  function Collect(pieces: seq<string>, step: string -> Result<Option<(int, int)>>): Result<seq<(int, int)>> {
    if pieces == [] then Success([])
    else AddPair(Collect(pieces[..|pieces| - 1], step), step(pieces[|pieces| - 1]))
  }

  /** The pairs so far, followed by the outcome of one more piece. */
  function AddPair(pairs: Result<seq<(int, int)>>, next: Result<Option<(int, int)>>): Result<seq<(int, int)>> {
    match pairs
    case Failure(e) => Failure(e)
    case Success(ps) =>
      match next
      case Failure(e) => Failure(e)
      case Success(None) => Success(ps)
      case Success(Some(p)) => Success(ps + [p])
  }

  /** getNonNegativeIntDashedPairs over the comma-separated pieces. */
  function DashedPairs(pieces: seq<string>, min: int, max: int, parse: string -> Option<int>): Result<seq<(int, int)>> {
    Collect(pieces, piece => DashedPair(piece, min, max, parse))
  }

  /** The first piece with an error decides the error of the whole. */
  lemma {:induction false} CollectFailsAt(pieces: seq<string>, i: nat, step: string -> Result<Option<(int, int)>>)
    requires i < |pieces| && Collect(pieces[..i], step).Success? && step(pieces[i]).Failure?
    ensures Collect(pieces, step) == Failure(step(pieces[i]).error)
    decreases |pieces|
  {
    var n := |pieces| - 1;
    var prefix := pieces[..n];
    if i < n {
      assert prefix[..i] == pieces[..i];
      assert prefix[i] == pieces[i];
      CollectFailsAt(prefix, i, step);
    } else {
      assert prefix == pieces[..i];
    }
  }

  /** An error in a prefix is an error of the whole. */
  lemma {:induction false} CollectPrefixFails(pieces: seq<string>, i: nat, step: string -> Result<Option<(int, int)>>)
    requires i <= |pieces| && Collect(pieces[..i], step).Failure?
    ensures Collect(pieces, step).Failure?
    decreases |pieces|
  {
    if i < |pieces| {
      var prefix := pieces[..|pieces| - 1];
      assert prefix[..i] == pieces[..i];
      CollectPrefixFails(prefix, i, step);
    } else {
      assert pieces[..i] == pieces;
    }
  }

  /** The number of pieces that are not blank. */
  function NonBlank(pieces: seq<string>): nat {
    if pieces == [] then 0
    else NonBlank(pieces[..|pieces| - 1]) + (if Trim(pieces[|pieces| - 1]) == [] then 0 else 1)
  }

  /** On success: one pair per non-blank piece, every number in
      [min, max]. */
  lemma {:induction false} DashedPairsShape(pieces: seq<string>, min: int, max: int, parse: string -> Option<int>)
    requires DashedPairs(pieces, min, max, parse).Success?
    ensures var ps := DashedPairs(pieces, min, max, parse).value;
      && |ps| == NonBlank(pieces)
      && forall i :: 0 <= i < |ps| ==> min <= ps[i].0 <= max && min <= ps[i].1 <= max
  {
    if pieces != [] {
      DashedPairsShape(pieces[..|pieces| - 1], min, max, parse);
    }
  }

  /** A non-blank piece that does not split at '-' into exactly two parts
      makes the whole an error. */
  lemma DashedPairsBadPiece(pieces: seq<string>, min: int, max: int, parse: string -> Option<int>, i: nat)
    requires i < |pieces| && Trim(pieces[i]) != [] && |Tokens(Trim(pieces[i]), '-')| != 2
    ensures DashedPairs(pieces, min, max, parse) == Failure(IOError)
  {
    var step := piece => DashedPair(piece, min, max, parse);
    assert step(pieces[i]) == Failure(IOError);
    DashedPairsErrorIsIO(pieces, min, max, parse);
    if Collect(pieces[..i], step).Success? {
      CollectFailsAt(pieces, i, step);
    } else {
      CollectPrefixFails(pieces, i, step);
    }
  }

  /** Every error of getNonNegativeIntDashedPairs is an IOError. */
  lemma {:induction false} DashedPairsErrorIsIO(pieces: seq<string>, min: int, max: int, parse: string -> Option<int>)
    ensures DashedPairs(pieces, min, max, parse).Failure? ==> DashedPairs(pieces, min, max, parse).error == IOError
    decreases |pieces|
  {
    if pieces != [] {
      DashedPairsErrorIsIO(pieces[..|pieces| - 1], min, max, parse);
    }
  }
}
