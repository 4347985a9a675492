/**
 * minigrep's library (minigrep/src/lib.rs): the argument parser
 * `Config::new`, the two line filters `search` and
 * `case_insensitive_search`, and the choice between them that `run` makes.
 * Reading the file and printing the lines are I/O and stay outside: the file
 * contents are a parameter.
 */
module Minigrep {
  import opened Wrappers
  import opened Slices
  import opened Str

  datatype Config = Config(caseSensitive: bool, query: string, filename: string)

  /** The one error message `Config::new` reports, for either missing argument. */
  const MissingArgument := "Didn't get a query string"

  /** The environment variable whose presence turns case-insensitive search on. */
  const CaseInsensitiveVar := "CASE_INSENSITIVE"

  /** One `next()` on the argument iterator: the next argument, if any, and the rest. */
  function NextArg(args: seq<string>): (Option<string>, seq<string>) {
    if args == [] then (None, []) else (Some(args[0]), args[1..])
  }

  /**
   * `Config::new`: skip the program name, take the query and then the file
   * name; further arguments are ignored. `env` is the process environment.
   */
  function NewConfig(args: seq<string>, env: map<string, string>): (r: Result<Config>)
    ensures r.Err? <==> |args| < 3
    ensures r.Err? ==> r.message == MissingArgument
    ensures r.Ok? ==> r.value.query == args[1] && r.value.filename == args[2]
    ensures r.Ok? ==> (r.value.caseSensitive <==> CaseInsensitiveVar !in env)
  {
    var (_, afterProgram) := NextArg(args);
    match NextArg(afterProgram)
    case (None, _) => Err(MissingArgument)
    case (Some(query), afterQuery) =>
      match NextArg(afterQuery)
      case (None, _) => Err(MissingArgument)
      case (Some(filename), _) =>
        var caseSensitive := CaseInsensitiveVar !in env;
        Ok(Config(caseSensitive, query, filename))
  }

  /** A command line built from a configuration parses back to it, whatever follows. */
  lemma NewConfigRoundTrip(program: string, config: Config, extra: seq<string>, env: map<string, string>)
    requires config.caseSensitive <==> CaseInsensitiveVar !in env
    ensures NewConfig([program, config.query, config.filename] + extra, env) == Ok(config)
  {
  }

  /** Only the presence of `CASE_INSENSITIVE` matters, not its value. */
  lemma NewConfigIgnoresVariableValue(args: seq<string>, env: map<string, string>, value: string)
    requires CaseInsensitiveVar in env
    ensures NewConfig(args, env[CaseInsensitiveVar := value]) == NewConfig(args, env)
  {
  }

  /** The line test of `search`. */
  function Matches(query: string): string -> bool {
    line => Contains(line, query)
  }

  /** The line test of `case_insensitive_search`, given the lowercased query. */
  function MatchesLowercased(loweredQuery: string): string -> bool {
    line => Contains(ToLowercase(line), loweredQuery)
  }

  /** `line.to_lowercase().contains(&query.to_lowercase())` */
  predicate ContainsIgnoringCase(line: string, query: string) {
    Contains(ToLowercase(line), ToLowercase(query))
  }

  /** `search`: the lines of `contents` that contain `query`. */
  function Search(query: string, contents: string): (r: seq<string>)
    ensures IsSubsequence(r, Lines(contents))
    ensures forall line :: line in r ==> Contains(line, query)
  {
    FilterIsSubsequence(Matches(query), Lines(contents));
    Filter(Matches(query), Lines(contents))
  }

  /**
   * `case_insensitive_search`: the lines of `contents` whose lowercase form
   * contains the lowercased query; the lines themselves are returned as they
   * are.
   */
  function CaseInsensitiveSearch(query: string, contents: string): (r: seq<string>)
    ensures IsSubsequence(r, Lines(contents))
    ensures forall line :: line in r ==> Contains(ToLowercase(line), ToLowercase(query))
  {
    var query := ToLowercase(query);
    FilterIsSubsequence(MatchesLowercased(query), Lines(contents));
    Filter(MatchesLowercased(query), Lines(contents))
  }

  /**
   * `search` returns exactly the lines of `contents` that contain the query,
   * unchanged and in their original order: the `j`-th result is the line at
   * position `idx[j]`, the positions increase, and a line's position is
   * among them exactly when the line contains the query.
   */
  lemma SearchSelectsMatchingLines(query: string, contents: string)
    ensures var lines, r := Lines(contents), Search(query, contents);
      var idx := KeptPositions(Matches(query), lines);
      && |idx| == |r|
      && (forall j :: 0 <= j < |r| ==> idx[j] < |lines| && r[j] == lines[idx[j]])
      && (forall j, k :: 0 <= j < k < |r| ==> idx[j] < idx[k])
      && (forall i :: 0 <= i < |lines| ==> (Contains(lines[i], query) <==> i in idx))
  {
    FilterSelects(Matches(query), Lines(contents));
  }

  /**
   * `case_insensitive_search` returns exactly the original lines whose
   * lowercase form contains the lowercased query, in their original order.
   */
  lemma CaseInsensitiveSelectsMatchingLines(query: string, contents: string)
    ensures var lines, r := Lines(contents), CaseInsensitiveSearch(query, contents);
      var idx := KeptPositions(MatchesLowercased(ToLowercase(query)), lines);
      && |idx| == |r|
      && (forall j :: 0 <= j < |r| ==> idx[j] < |lines| && r[j] == lines[idx[j]])
      && (forall j, k :: 0 <= j < k < |r| ==> idx[j] < idx[k])
      && (forall i :: 0 <= i < |lines| ==> (ContainsIgnoringCase(lines[i], query) <==> i in idx))
  {
    CaseInsensitiveKeepsOrder(query, contents);
    CaseInsensitiveKeepsMatches(query, contents);
  }

  /** The lines `case_insensitive_search` returns are lines of the text, unchanged and in order. */
  lemma CaseInsensitiveKeepsOrder(query: string, contents: string)
    ensures var lines, r := Lines(contents), CaseInsensitiveSearch(query, contents);
      var idx := KeptPositions(MatchesLowercased(ToLowercase(query)), lines);
      && |idx| == |r|
      && (forall j :: 0 <= j < |r| ==> idx[j] < |lines| && r[j] == lines[idx[j]])
      && (forall j, k :: 0 <= j < k < |r| ==> idx[j] < idx[k])
  {
    FilterSelects(MatchesLowercased(ToLowercase(query)), Lines(contents));
  }

  /** A line of the text is among those `case_insensitive_search` returns exactly when it matches. */
  lemma CaseInsensitiveKeepsMatches(query: string, contents: string)
    ensures var lines := Lines(contents);
      var idx := KeptPositions(MatchesLowercased(ToLowercase(query)), lines);
      forall i :: 0 <= i < |lines| ==> (ContainsIgnoringCase(lines[i], query) <==> i in idx)
  {
    var lines, keep := Lines(contents), MatchesLowercased(ToLowercase(query));
    FilterSelects(keep, lines);
    forall i | 0 <= i < |lines| ensures keep(lines[i]) == ContainsIgnoringCase(lines[i], query) {
    }
  }

  /** A search never returns more lines than the text has. */
  lemma SearchNoLongerThanText(query: string, contents: string)
    ensures |Search(query, contents)| <= |Lines(contents)|
    ensures |CaseInsensitiveSearch(query, contents)| <= |Lines(contents)|
  {
    SubsequenceNoLonger(Search(query, contents), Lines(contents));
    SubsequenceNoLonger(CaseInsensitiveSearch(query, contents), Lines(contents));
  }

  /** Two queries that differ only in the case of their letters. */
  predicate SameIgnoringCase(a: string, b: string) {
    |a| == |b| && forall i :: 0 <= i < |a| ==> LowerChar(a[i]) == LowerChar(b[i])
  }

  /** `case_insensitive_search` sees the query only through its lowercase form. */
  lemma CaseInsensitiveIgnoresQueryCase(a: string, b: string, contents: string)
    requires SameIgnoringCase(a, b)
    ensures CaseInsensitiveSearch(a, contents) == CaseInsensitiveSearch(b, contents)
  {
    assert ToLowercase(a) == ToLowercase(b);
  }

  /** Lowercasing both sides keeps an occurrence. */
  lemma ContainsLowercased(line: string, query: string)
    requires Contains(line, query)
    ensures Contains(ToLowercase(line), ToLowercase(query))
  {
    ContainsIffOccurs(line, query);
    var i :| OccursAt(line, query, i);
    LowercaseSlice(line, i, i + |query|);
    assert OccursAt(ToLowercase(line), ToLowercase(query), i);
    ContainsIffOccurs(ToLowercase(line), ToLowercase(query));
  }

  /**
   * Every line `search` returns is also returned by
   * `case_insensitive_search`, and in the same relative order.
   */
  lemma SearchWithinCaseInsensitive(query: string, contents: string)
    ensures IsSubsequence(Search(query, contents), CaseInsensitiveSearch(query, contents))
    ensures forall line :: line in Search(query, contents) ==> line in CaseInsensitiveSearch(query, contents)
  {
    forall line | Matches(query)(line) ensures MatchesLowercased(ToLowercase(query))(line) {
      ContainsLowercased(line, query);
    }
    FilterMonotone(Matches(query), MatchesLowercased(ToLowercase(query)), Lines(contents));
    SubsequenceNoLonger(Search(query, contents), CaseInsensitiveSearch(query, contents));
  }

  /** The empty query is contained in every line, so both searches return every line. */
  lemma EmptyQueryKeepsEveryLine(contents: string)
    ensures Search("", contents) == Lines(contents)
    ensures CaseInsensitiveSearch("", contents) == Lines(contents)
  {
    assert forall line: string :: Contains(line, []) by {
      forall line: string ensures Contains(line, []) {
        assert StartsWith(line, []);
      }
    }
    FilterAll(Matches(""), Lines(contents));
    FilterAll(MatchesLowercased(ToLowercase("")), Lines(contents));
  }

  /** The search `run` performs: case-sensitive or not, as the configuration says. */
  function SelectResults(config: Config, contents: string): (r: seq<string>)
    ensures IsSubsequence(r, Lines(contents))
    ensures forall line :: line in r ==> Contains(ToLowercase(line), ToLowercase(config.query))
    ensures config.caseSensitive ==> forall line :: line in r ==> Contains(line, config.query)
  {
    if config.caseSensitive then
      SearchWithinCaseInsensitive(config.query, contents);
      Search(config.query, contents)
    else
      CaseInsensitiveSearch(config.query, contents)
  }

  /**
   * From the command line to the lines printed: the query is the first
   * argument after the program name, and the search is case-insensitive
   * exactly when `CASE_INSENSITIVE` is set.
   */
  lemma RunSearchesAsConfigured(args: seq<string>, env: map<string, string>, contents: string)
    requires |args| >= 3
    ensures NewConfig(args, env).Ok?
    ensures SelectResults(NewConfig(args, env).value, contents)
      == if CaseInsensitiveVar in env then CaseInsensitiveSearch(args[1], contents) else Search(args[1], contents)
  {
  }
}
