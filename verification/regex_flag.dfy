/**
 * The regex strategy: the stored content is a pattern, and the attempt is
 * accepted when the pattern, matched at the start of the attempt, consumes
 * all of it.
 */
module RegexFlag {
  import opened Wrappers
  import opened Flags

  /** What `re.match(pattern, text[, re.IGNORECASE])` can produce. */
  datatype MatchOutcome =
    | ParseError              // the pattern does not parse: `re.error` is raised
    | NoMatch                 // `re.match` returned `None`
    | Matched(group: string)  // a match object whose `group()` is this text

  /**
   * The regular-expression engine, taken as a parameter: pattern, text and
   * whether `re.IGNORECASE` is passed.
   */
  type Matcher = (string, string, bool) -> MatchOutcome

  /** An engine that behaves like `re.match`: a match is always a prefix of the text. */
  ghost predicate Anchored(reMatch: Matcher)
  {
    forall pattern, text, ignoreCase ::
      reMatch(pattern, text, ignoreCase).Matched? ==> reMatch(pattern, text, ignoreCase).group <= text
  }

  const RegexParseErrorMessage: string := "Regex parse error occured"

  /**
   * `CTFdRegexFlag.compare`: a parse error is raised as a `FlagException`;
   * otherwise the result is true exactly when there is a match and the matched
   * text is the whole attempt.
   */
  function Compare(flag: FlagRecord, provided: string, reMatch: Matcher): (r: Result<bool, FlagException>)
    ensures r.Failure? <==> reMatch(flag.content, provided, IsCaseInsensitive(flag)) == ParseError
    ensures r.Failure? ==> r.error == FlagException(RegexParseErrorMessage)
    ensures r == Success(true) <==> reMatch(flag.content, provided, IsCaseInsensitive(flag)) == Matched(provided)
  {
    match reMatch(flag.content, provided, IsCaseInsensitive(flag))
    case ParseError => Failure(FlagException(RegexParseErrorMessage))
    case NoMatch => Success(false)
    case Matched(group) => Success(group == provided)
  }

  /**
   * With an engine that anchors at the start, the attempt is accepted exactly
   * when the match is as long as the attempt; a match of a proper prefix is a
   * rejection, never an error.
   */
  lemma AcceptedIffMatchSpansAttempt(flag: FlagRecord, provided: string, reMatch: Matcher)
    requires Anchored(reMatch)
    ensures var outcome := reMatch(flag.content, provided, IsCaseInsensitive(flag));
            (Compare(flag, provided, reMatch) == Success(true) <==>
             outcome.Matched? && |outcome.group| == |provided|)
    ensures var outcome := reMatch(flag.content, provided, IsCaseInsensitive(flag));
            outcome.Matched? && |outcome.group| < |provided| ==> Compare(flag, provided, reMatch) == Success(false)
  {
    var outcome := reMatch(flag.content, provided, IsCaseInsensitive(flag));
    if outcome.Matched? {
      assert outcome.group <= provided;
      if |outcome.group| == |provided| {
        assert outcome.group == provided[..|provided|];
      }
    }
  }
}
