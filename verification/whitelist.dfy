/** The response-logging whitelist: patterns read at `init` from the
    `whitePatterns` parameter (`;`-separated) and the `isInWhite` test of a
    request URI. Regular expressions stay abstract: `compiles` says whether
    `Pattern.compile` accepts a source, `matcher` what a full match of a URI
    against a source does. */
module Whitelist {
  import opened Wrappers
  import opened Text

  /** A compiled pattern, known by its source text. */
  datatype Pattern = Pattern(source: string)

  /** `matcher(uri).matches()`: a full match, no match, or a throw. */
  datatype MatchOutcome = Matched | NotMatched | MatchThrew

  type Compiler = string -> bool
  type Matcher = (string, string) -> MatchOutcome

  /** `whitePatterns.split(";")`: the pieces between semicolons, in order,
      trailing empty pieces dropped. Java's `"".split(";")` is `[""]` while
      `Entries("")` is empty; `init` never splits the empty string, so the
      difference is unreachable. */
  function Entries(whitePatterns: string): (entries: seq<string>)
    ensures entries <= SplitAll(whitePatterns, ';')
    ensures forall i | |entries| <= i < |SplitAll(whitePatterns, ';')| :: SplitAll(whitePatterns, ';')[i] == ""
    ensures forall i | 0 <= i < |entries| :: ';' !in entries[i]
    ensures |entries| == 0 || entries[|entries| - 1] != ""
  {
    DropTrailingEmpty(SplitAll(whitePatterns, ';'))
  }

  /** The pattern set `init` builds: empty when the parameter is missing or
      empty, otherwise one pattern per entry that compiles. */
  function InitWhitelist(whitePatterns: Option<string>, compiles: Compiler): (patterns: set<Pattern>)
    ensures whitePatterns.None? || whitePatterns.value == "" ==> patterns == {}
    ensures forall p | p in patterns :: compiles(p.source) && p.source in Entries(whitePatterns.value)
    ensures whitePatterns.Some? ==>
      forall e | e in Entries(whitePatterns.value) && compiles(e) :: Pattern(e) in patterns
  {
    if whitePatterns.None? || whitePatterns.value == "" then {}
    else set e | e in Entries(whitePatterns.value) && compiles(e) :: Pattern(e)
  }

  /** An entry that fails to compile is dropped and does not stop the rest:
      the set is the one the remaining entries give on their own. */
  lemma BadEntryDropped(bad: string, rest: string, compiles: Compiler)
    requires ';' !in bad
    requires !compiles(bad)
    ensures InitWhitelist(Some(bad + ";" + rest), compiles) == InitWhitelist(Some(rest), compiles)
  {
    var all := bad + ";" + rest;
    SplitAllAfter(bad, ';', rest);
    assert Entries(all) == DropTrailingEmpty([bad] + SplitAll(rest, ';'));
    DropTrailingEmptyCons(bad, SplitAll(rest, ';'));
    var left := InitWhitelist(Some(all), compiles);
    var right := InitWhitelist(Some(rest), compiles);
    if rest == "" {
      assert SplitAll(rest, ';') == [""];
    }
    forall p | p in left ensures p in right {
      assert p.source != bad;
    }
  }

  /** `isInWhite`: false for an empty set; otherwise true when some pattern
      fully matches the URI. A pattern whose match throws counts as no match. */
  predicate IsInWhite(patterns: set<Pattern>, uri: string, matcher: Matcher)
  {
    if |patterns| == 0 then false
    else exists p | p in patterns :: matcher(p.source, uri) == Matched
  }

  /** `anyMatch` evaluated one pattern at a time, in whatever order the set
      yields them; it agrees with `IsInWhite` for every order. */
  method AnyMatch(patterns: set<Pattern>, uri: string, matcher: Matcher) returns (found: bool)
    ensures found == IsInWhite(patterns, uri, matcher)
  {
    found := false;
    var pending := patterns;
    while pending != {} && !found
      invariant pending <= patterns
      invariant found ==> IsInWhite(patterns, uri, matcher)
      invariant !found ==> forall p | p in patterns - pending :: matcher(p.source, uri) != Matched
      decreases pending
    {
      var p :| p in pending;
      found := matcher(p.source, uri) == Matched;
      pending := pending - {p};
    }
  }

  /** A pattern whose match throws can be removed without changing the answer. */
  lemma ThrowingPatternIgnored(patterns: set<Pattern>, p: Pattern, uri: string, matcher: Matcher)
    requires matcher(p.source, uri) == MatchThrew
    ensures IsInWhite(patterns, uri, matcher) == IsInWhite(patterns - {p}, uri, matcher)
  {
  }
}
