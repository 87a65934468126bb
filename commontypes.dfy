/** enabled_t of core/commontypes.h: a three-valued setting (false, true,
    or decided automatically) with its parser and printer. */
module CommonTypes {

  /** enabled_t::value (commontypes.h:6). */
  datatype Enabled = False | True | Auto

  /** The spellings tryParse reads as True, and as False. */
  const TrueSpellings: set<string> := {"1", "t", "true", "enabled", "y", "yes"}
  const FalseSpellings: set<string> := {"0", "f", "false", "disabled", "n", "no"}

  /** enabled_t::operator== (commontypes.h:16). */
  predicate Eq(a: Enabled, b: Enabled) {
    a == b
  }

  /** enabled_t::operator!= (commontypes.h:19). */
  predicate Neq(a: Enabled, b: Enabled) {
    a != b
  }

  /** enabled_t::toString (commontypes.h:22-24). */
  function ToString(e: Enabled): string {
    match e
    case True => "true"
    case False => "false"
    case Auto => "auto"
  }

  /** enabled_t::tryParse(v, buf) (commontypes.h:27-37): whether v was
      understood, and the value of buf afterwards. */
  function TryParse(v: string, buf: Enabled): (r: (bool, Enabled))
    ensures !r.0 ==> r.1 == buf
  {
    if v == "1" || v == "t" || v == "true" || v == "enabled" || v == "y" || v == "yes" then (true, True)
    else if v == "0" || v == "f" || v == "false" || v == "disabled" || v == "n" || v == "no" then (true, False)
    else if v == "auto" then (true, Auto)
    else (false, buf)
  }

  /** tryParse accepts exactly the listed spellings: those for True give
      True, those for False give False, "auto" gives Auto, and any other
      text is refused with buf left as it was. */
  lemma TryParseSpellings(v: string, buf: Enabled)
    ensures TryParse(v, buf) == (true, True) <==> v in TrueSpellings
    ensures TryParse(v, buf) == (true, False) <==> v in FalseSpellings
    ensures TryParse(v, buf) == (true, Auto) <==> v == "auto"
    ensures !TryParse(v, buf).0 <==> v !in TrueSpellings && v !in FalseSpellings && v != "auto"
    ensures !TryParse(v, buf).0 ==> TryParse(v, buf).1 == buf
  {
  }

  /** What toString prints parses back to the same value. */
  lemma TryParseToString(e: Enabled, buf: Enabled)
    ensures TryParse(ToString(e), buf) == (true, e)
    ensures ToString(e) in TrueSpellings <==> e == True
    ensures ToString(e) in FalseSpellings <==> e == False
  {
    assert "auto"[0] != "true"[0];
  }

  /** != is the negation of ==. */
  lemma NeqIsNotEq(a: Enabled, b: Enabled)
    ensures Neq(a, b) <==> !Eq(a, b)
  {
  }
}
