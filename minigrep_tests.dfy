/**
 * The two unit tests of minigrep/src/lib.rs, stated as lemmas about the
 * model. The second test, as written, calls `search`; `AsWrittenTestFails`
 * shows that `search` cannot meet its expectation, and
 * `CaseInsensitiveFindsRust` proves the expectation of the function the test
 * is named after.
 */
module MinigrepTests {
  import opened Slices
  import opened Str
  import opened Minigrep

  /**
   * The text of the `one_result` test, cut at its line breaks (the literal
   * opens with `"/` and a line break, so its first line is `"/"`).
   */
  const OneResultContents :=
    "/" + "\n" + ("Rust:" + "\n" + ("safe, fast, productive." + "\n" + ("Pick three." + "\n" + "Duct tape.")))

  /** The text of the `case_insensitive` test, cut at its line breaks. */
  const CaseInsensitiveContents :=
    "/" + "\n" + ("Rust:" + "\n" + ("safe, fast, productive." + "\n" + ("Pick three." + "\n" + "Trust Me")))

  /** A line that `lines` returns unchanged. */
  predicate PlainLine(line: string) {
    LF !in line && !EndsWithCr(line)
  }

  /** Two lines joined by a line break read back as those lines. */
  lemma TwoLines(a: string, b: string)
    requires PlainLine(a) && PlainLine(b) && b != []
    ensures Lines(a + "\n" + b) == [a, b]
  {
    SingleLine(b);
    LinesCons(a, b);
  }

  lemma ThreeLines(a: string, b: string, c: string)
    requires PlainLine(a) && PlainLine(b) && PlainLine(c) && c != []
    ensures Lines(a + "\n" + (b + "\n" + c)) == [a, b, c]
  {
    TwoLines(b, c);
    LinesCons(a, b + "\n" + c);
  }

  lemma FourLines(a: string, b: string, c: string, d: string)
    requires PlainLine(a) && PlainLine(b) && PlainLine(c) && PlainLine(d) && d != []
    ensures Lines(a + "\n" + (b + "\n" + (c + "\n" + d))) == [a, b, c, d]
  {
    ThreeLines(b, c, d);
    LinesCons(a, b + "\n" + (c + "\n" + d));
  }

  lemma FiveLines(a: string, b: string, c: string, d: string, e: string)
    requires PlainLine(a) && PlainLine(b) && PlainLine(c) && PlainLine(d) && PlainLine(e) && e != []
    ensures Lines(a + "\n" + (b + "\n" + (c + "\n" + (d + "\n" + e)))) == [a, b, c, d, e]
  {
    FourLines(b, c, d, e);
    LinesCons(a, b + "\n" + (c + "\n" + (d + "\n" + e)));
  }

  lemma OneResultLines()
    ensures Lines(OneResultContents) == ["/", "Rust:", "safe, fast, productive.", "Pick three.", "Duct tape."]
  {
    FiveLines("/", "Rust:", "safe, fast, productive.", "Pick three.", "Duct tape.");
  }

  lemma CaseInsensitiveLines()
    ensures Lines(CaseInsensitiveContents) == ["/", "Rust:", "safe, fast, productive.", "Pick three.", "Trust Me"]
  {
    FiveLines("/", "Rust:", "safe, fast, productive.", "Pick three.", "Trust Me");
  }

  /** Filtering decides the first element, then filters the rest. */
  lemma FilterCons<T>(keep: T -> bool, x: T, rest: seq<T>)
    ensures Filter(keep, [x] + rest) == Pick(keep, x) + Filter(keep, rest)
  {
    assert ([x] + rest)[1..] == rest;
  }

  /** Filtering a few elements decides each of them in turn. */
  lemma FilterTwo<T>(keep: T -> bool, a: T, b: T)
    ensures Filter(keep, [a, b]) == Pick(keep, a) + Pick(keep, b)
  {
    FilterCons(keep, b, []);
    FilterCons(keep, a, [b]);
    assert [a, b] == [a] + [b];
    assert [b] == [b] + [];
  }

  lemma FilterThree<T>(keep: T -> bool, a: T, b: T, c: T)
    ensures Filter(keep, [a, b, c]) == Pick(keep, a) + (Pick(keep, b) + Pick(keep, c))
  {
    FilterTwo(keep, b, c);
    FilterCons(keep, a, [b, c]);
    assert [a, b, c] == [a] + [b, c];
  }

  lemma FilterFour<T>(keep: T -> bool, a: T, b: T, c: T, d: T)
    ensures Filter(keep, [a, b, c, d]) == Pick(keep, a) + (Pick(keep, b) + (Pick(keep, c) + Pick(keep, d)))
  {
    FilterThree(keep, b, c, d);
    FilterCons(keep, a, [b, c, d]);
    assert [a, b, c, d] == [a] + [b, c, d];
  }

  lemma FilterFive<T>(keep: T -> bool, a: T, b: T, c: T, d: T, e: T)
    ensures Filter(keep, [a, b, c, d, e])
      == Pick(keep, a) + (Pick(keep, b) + (Pick(keep, c) + (Pick(keep, d) + Pick(keep, e))))
  {
    FilterFour(keep, b, c, d, e);
    FilterCons(keep, a, [b, c, d, e]);
    assert [a, b, c, d, e] == [a] + [b, c, d, e];
  }

  /**
   * A line in which the pattern's first element occurs only at `m`, where
   * the next element differs from the pattern's second one.
   */
  lemma AbsentPast<T>(s: seq<T>, pat: seq<T>, m: nat)
    requires |pat| >= 2 && m + 1 < |s| && pat[0] !in s[..m]
    requires s[m + 1] != pat[1] && pat[0] !in s[m + 1..]
    ensures !Contains(s, pat)
  {
    ContainsSkip(s, pat, m);
    assert !StartsWith(s[m..], pat) by {
      if |pat| <= |s[m..]| {
        assert s[m..][..|pat|][1] == s[m + 1];
      }
    }
    assert s[m..][1..] == s[m + 1..];
    NotContains(s[m + 1..], pat);
  }

  /** `search` drops a line that lacks the query's first character. */
  lemma DropsWithout(query: string, line: string)
    requires query != [] && query[0] !in line
    ensures Pick(Matches(query), line) == []
  {
    NotContains(line, query);
  }

  /** `search` drops a line whose one candidate position for the query fails at its second character. */
  lemma DropsPast(query: string, line: string, m: nat)
    requires |query| >= 2 && m + 1 < |line| && query[0] !in line[..m]
    requires line[m + 1] != query[1] && query[0] !in line[m + 1..]
    ensures Pick(Matches(query), line) == []
  {
    AbsentPast(line, query, m);
  }

  /** `search` keeps a line holding the query at `m`. */
  lemma KeepsAt(query: string, line: string, m: nat)
    requires query != [] && m <= |line| && query[0] !in line[..m] && StartsWith(line[m..], query)
    ensures Pick(Matches(query), line) == [line]
  {
    ContainsSkip(line, query, m);
  }

  /** `case_insensitive_search` decides a line as `search` decides its lowercase form. */
  lemma DecidesLowercased(loweredQuery: string, line: string)
    ensures Pick(MatchesLowercased(loweredQuery), line)
      == if Pick(Matches(loweredQuery), ToLowercase(line)) == [] then [] else [line]
  {
  }

  /** How `search` decides each line of the `one_result` text for `"duct"`. */
  lemma OneResultDecisions()
    ensures Pick(Matches("duct"), "/") == [] && Pick(Matches("duct"), "Rust:") == []
    ensures Pick(Matches("duct"), "safe, fast, productive.") == ["safe, fast, productive."]
    ensures Pick(Matches("duct"), "Pick three.") == [] && Pick(Matches("duct"), "Duct tape.") == []
  {
    DropsWithout("duct", "/");
    DropsWithout("duct", "Rust:");
    KeepsProductive();
    DropsWithout("duct", "Pick three.");
    DropsWithout("duct", "Duct tape.");
  }

  lemma KeepsProductive()
    ensures Pick(Matches("duct"), "safe, fast, productive.") == ["safe, fast, productive."]
  {
    KeepsAt("duct", "safe, fast, productive.", 15);
  }

  /** `one_result`: `"Duct tape."` is left out because matching is case-sensitive. */
  lemma OneResult()
    ensures Search("duct", OneResultContents) == ["safe, fast, productive."]
  {
    OneResultDecisions();
    OneResultLines();
    FilterFive(Matches("duct"), "/", "Rust:", "safe, fast, productive.", "Pick three.", "Duct tape.");
  }

  /** How `search` decides each line of the `case_insensitive` text for `"rUsT"`: it drops them all. */
  lemma AsWrittenDecisions()
    ensures Pick(Matches("rUsT"), "/") == [] && Pick(Matches("rUsT"), "Rust:") == []
    ensures Pick(Matches("rUsT"), "safe, fast, productive.") == []
    ensures Pick(Matches("rUsT"), "Pick three.") == [] && Pick(Matches("rUsT"), "Trust Me") == []
  {
    DropsWithout("rUsT", "/");
    DropsWithout("rUsT", "Rust:");
    ExactDropsProductive();
    ExactDropsPickThree();
    ExactDropsTrustMe();
  }

  lemma ExactDropsProductive()
    ensures Pick(Matches("rUsT"), "safe, fast, productive.") == []
  {
    DropsPast("rUsT", "safe, fast, productive.", 13);
  }

  lemma ExactDropsPickThree()
    ensures Pick(Matches("rUsT"), "Pick three.") == []
  {
    DropsPast("rUsT", "Pick three.", 7);
  }

  lemma ExactDropsTrustMe()
    ensures Pick(Matches("rUsT"), "Trust Me") == []
  {
    DropsPast("rUsT", "Trust Me", 1);
  }

  /**
   * The `case_insensitive` test as written calls `search`, which finds no
   * line at all for the query `"rUsT"`, since no line holds it with exactly
   * that case; the expected `["Rust:", "Trust Me"]` is out of reach.
   */
  lemma AsWrittenTestFails()
    ensures Search("rUsT", CaseInsensitiveContents) == []
    ensures Search("rUsT", CaseInsensitiveContents) != ["Rust:", "Trust Me"]
  {
    AsWrittenDecisions();
    CaseInsensitiveLines();
    FilterFive(Matches("rUsT"), "/", "Rust:", "safe, fast, productive.", "Pick three.", "Trust Me");
  }

  /** The lines of the `case_insensitive` text that `case_insensitive_search` keeps for `"rust"`. */
  lemma CaseInsensitiveKeeps()
    ensures Pick(MatchesLowercased("rust"), "Rust:") == ["Rust:"]
    ensures Pick(MatchesLowercased("rust"), "Trust Me") == ["Trust Me"]
  {
    KeepsRust();
    KeepsTrustMe();
  }

  lemma KeepsRust()
    ensures Pick(MatchesLowercased("rust"), "Rust:") == ["Rust:"]
  {
    assert ToLowercase("Rust:") == "rust:";
    KeepsAt("rust", "rust:", 0);
    DecidesLowercased("rust", "Rust:");
  }

  lemma KeepsTrustMe()
    ensures Pick(MatchesLowercased("rust"), "Trust Me") == ["Trust Me"]
  {
    assert ToLowercase("Trust Me") == "trust me";
    KeepsAt("rust", "trust me", 1);
    DecidesLowercased("rust", "Trust Me");
  }

  /** The lines of the `case_insensitive` text that `case_insensitive_search` drops for `"rust"`. */
  lemma CaseInsensitiveDrops()
    ensures Pick(MatchesLowercased("rust"), "/") == []
    ensures Pick(MatchesLowercased("rust"), "safe, fast, productive.") == []
    ensures Pick(MatchesLowercased("rust"), "Pick three.") == []
  {
    assert ToLowercase("/") == "/";
    DropsWithout("rust", "/");
    DecidesLowercased("rust", "/");
    DropsProductive();
    DropsPickThree();
  }

  /**
   * `case_insensitive_search` drops a line in which the query's first letter,
   * in either case, occurs only at `m`, followed there by something other
   * than the query's second character.
   */
  lemma DropsPastIgnoringCase(query: string, line: string, m: nat)
    requires |query| >= 2 && 'a' <= query[0] <= 'z' && m + 1 < |line|
    requires query[0] !in line[..m] && UpperOf(query[0]) !in line[..m]
    requires query[0] !in line[m + 1..] && UpperOf(query[0]) !in line[m + 1..]
    requires LowerChar(line[m + 1]) != query[1]
    ensures Pick(MatchesLowercased(query), line) == []
  {
    var lowered := ToLowercase(line);
    LowercaseSlice(line, 0, m);
    LowercaseAbsent(line[..m], query[0]);
    LowercaseSlice(line, m + 1, |line|);
    LowercaseAbsent(line[m + 1..], query[0]);
    AbsentPast(lowered, query, m);
  }

  lemma DropsProductive()
    ensures Pick(MatchesLowercased("rust"), "safe, fast, productive.") == []
  {
    DropsPastIgnoringCase("rust", "safe, fast, productive.", 13);
  }

  lemma DropsPickThree()
    ensures Pick(MatchesLowercased("rust"), "Pick three.") == []
  {
    DropsPastIgnoringCase("rust", "Pick three.", 7);
  }

  /** The expectation of `case_insensitive`, met by `case_insensitive_search`. */
  lemma CaseInsensitiveFindsRust()
    ensures CaseInsensitiveSearch("rUsT", CaseInsensitiveContents) == ["Rust:", "Trust Me"]
  {
    assert ToLowercase("rUsT") == "rust";
    CaseInsensitiveKeeps();
    CaseInsensitiveDrops();
    CaseInsensitiveLines();
    FilterFive(MatchesLowercased("rust"), "/", "Rust:", "safe, fast, productive.", "Pick three.", "Trust Me");
  }
}
