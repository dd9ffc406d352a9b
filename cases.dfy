/**
 * The concrete rows of test/include/test_cases.hpp, which the character-level
 * matchers are held to, as facts about the reference semantics (no text of these
 * rows holds a wildcard, so the character greedy matcher's contract covers them
 * too), and the rows of test/include/test_parser_cases.hpp as facts about the
 * tokenizer. Each tokenizer proof lists the loop state after every step.
 */
module Cases {
  import opened Wrappers
  import opened Tokens
  import opened Issues
  import opened CharSpec
  import opened Parser

  /** Exact text, lengths and the empty string (test/include/test_cases.hpp:20-31). */
  lemma BasicCases()
    ensures MatchChars("test", "test")
    ensures !MatchChars("test", "text")
    ensures !MatchChars("test", "testing")
    ensures MatchChars("", "")
    ensures !MatchChars("a", "")
    ensures !MatchChars("", "a")
    ensures MatchChars("", "*")
    ensures !MatchChars("", "?")
    ensures MatchChars("", "**")
    ensures !MatchChars("", "*?")
  {
  }

  /** `?` anywhere in the pattern (test/include/test_cases.hpp:34-38). */
  lemma QuestionMarkCases()
    ensures MatchChars("test", "te?t")
    ensures MatchChars("test", "?est")
    ensures MatchChars("test", "tes?")
    ensures MatchChars("test", "????")
    ensures MatchChars("test", "t?st")
  {
  }

  /** `*` matching none, one or many characters (test/include/test_cases.hpp:42-49). */
  lemma StarCases()
    ensures MatchChars("ab", "a*b")
    ensures MatchChars("acb", "a*b")
    ensures MatchChars("axyzb", "a*b")
    ensures MatchChars("aa", "a*")
    ensures MatchChars("aa", "*a")
    ensures MatchChars("abc", "a**c")
    ensures MatchChars("abc", "*")
    ensures MatchChars("abc", "***")
  {
  }

  /** A `*` that must give characters back (test/include/test_cases.hpp:52-62). */
  lemma BacktrackingCases()
    ensures MatchChars("ab", "*ab")
    ensures MatchChars("aab", "a*ab")
    ensures MatchChars("mississippi", "m*iss*pi")
    ensures MatchChars("abacde", "a*cde")
    ensures MatchChars("bb", "b*b")
    ensures MatchChars("aaa", "a*a")
  {
  }

  /** `*` and `?` together (test/include/test_cases.hpp:65-74). */
  lemma MixedCases()
    ensures MatchChars("abc", "a*?c")
    ensures MatchChars("abcc", "a*?c")
    ensures !MatchChars("ac", "a*?c")
    ensures MatchChars("axc", "a?*c")
    ensures MatchChars("axbyc", "a?*c")
    ensures MatchChars("abacde", "a*c?e")
    ensures MatchChars("adceb", "*a*b")
    ensures MatchChars("abc", "?*")
  {
  }

  /** Patterns that look close but do not match (test/include/test_cases.hpp:77-88). */
  lemma TrapCases()
    ensures !MatchChars("a", "ab*")
    ensures !MatchChars("ba", "*a?")
    ensures !MatchChars("b", "?*b")
    ensures !MatchChars("acdcb", "a*c?b")
    ensures !MatchChars("b", "*a*")
  {
  }

  /**
   * A pattern character other than a wildcard that the text never holds cannot be
   * matched, wherever in the rest of the pattern it stands.
   */
  lemma {:induction false} MissingCharacter(s: string, p: string, i: nat, j: nat, k: nat)
    requires i <= |s| && j <= k < |p|
    requires p[k] != '*' && p[k] != '?' && p[k] !in s
    ensures !MatchCharsAt(s, p, i, j)
    decreases |p| - j, |s| - i
  {
    if p[j] == '*' {
      MissingCharacter(s, p, i, j + 1, k);
      if i < |s| {
        MissingCharacter(s, p, i + 1, j, k);
      }
    } else if i < |s| && j < k {
      MissingCharacter(s, p, i + 1, j + 1, k);
    } else if i < |s| {
      assert s[i] in s;
    }
  }

  /** Thirty `a` against `a*` repeated nine times and then `ab`: the final `b` is missing (test/include/test_cases.hpp:108-121). */
  lemma DeepFailureCase()
    ensures !MatchChars(seq(30, _ => 'a'), "a*a*a*a*a*a*a*a*a*ab")
  {
    var s: string := seq(30, _ => 'a');
    var p := "a*a*a*a*a*a*a*a*a*ab";
    assert p[19] == 'b';
    assert 'b' !in s by {
      forall x | x in s ensures x == 'a' { }
    }
    MissingCharacter(s, p, 0, 0, 19);
  }

  /** A thousand `b` against `a*`: the first pattern character already fails (test/include/test_cases.hpp:136-138). */
  lemma FastFailureCase()
    ensures !MatchChars(seq(1000, _ => 'b'), "a*")
  {
    var s: string := seq(1000, _ => 'b');
    SliceStep(s, "a*");
  }

  /** An empty pattern (test/include/test_parser_cases.hpp:18). */
  lemma ParseEmpty()
    ensures Tokenize("") == ParseResult([], [])
  {
  }

  /** One literal (test/include/test_parser_cases.hpp:19). */
  lemma ParsePlainLiteral()
    ensures Tokenize("abc") == ParseResult([LiteralSequence("abc")], [])
  {
    var p := "abc";
    assert Step(p, 0, ScanState([], "", [])).1 == ScanState([], "a", []);
    assert Step(p, 1, ScanState([], "a", [])).1 == ScanState([], "ab", []);
    assert Step(p, 2, ScanState([], "ab", [])).1 == ScanState([], "abc", []);
  }

  /** `?` between literals (test/include/test_parser_cases.hpp:20-22). */
  lemma ParseAnyChar()
    ensures Tokenize("a?c") == ParseResult([LiteralSequence("a"), AnyChar, LiteralSequence("c")], [])
  {
    var p := "a?c";
    assert Step(p, 0, ScanState([], "", [])).1 == ScanState([], "a", []);
    assert Step(p, 1, ScanState([], "a", [])).1 == ScanState([LiteralSequence("a"), AnyChar], "", []);
    assert Step(p, 2, ScanState([LiteralSequence("a"), AnyChar], "", [])).1 == ScanState([LiteralSequence("a"), AnyChar], "c", []);
  }

  /** `*` between literals (test/include/test_parser_cases.hpp:23-25). */
  lemma ParseStar()
    ensures Tokenize("a*c") == ParseResult([LiteralSequence("a"), AnySequence, LiteralSequence("c")], [])
  {
    var p := "a*c";
    assert Step(p, 0, ScanState([], "", [])).1 == ScanState([], "a", []);
    assert Step(p, 1, ScanState([], "a", [])).1 == ScanState([LiteralSequence("a"), AnySequence], "", []);
    assert Step(p, 2, ScanState([LiteralSequence("a"), AnySequence], "", [])).1 == ScanState([LiteralSequence("a"), AnySequence], "c", []);
  }

  /** A second star is merged with a warning (test/include/test_parser_cases.hpp:26-29). */
  lemma ParseTwoStars()
    ensures Tokenize("a**c") == ParseResult([LiteralSequence("a"), AnySequence, LiteralSequence("c")], [ParseEvent(ConsecutiveAsterisksMerged, 3, None)])
  {
    var p := "a**c";
    assert Step(p, 0, ScanState([], "", [])).1 == ScanState([], "a", []);
    assert Step(p, 1, ScanState([], "a", [])).1 == ScanState([LiteralSequence("a"), AnySequence], "", []);
    assert Step(p, 2, ScanState([LiteralSequence("a"), AnySequence], "", [])).1 == ScanState([LiteralSequence("a"), AnySequence], "", [ParseEvent(ConsecutiveAsterisksMerged, 3, None)]);
    assert Step(p, 3, ScanState([LiteralSequence("a"), AnySequence], "", [ParseEvent(ConsecutiveAsterisksMerged, 3, None)])).1 == ScanState([LiteralSequence("a"), AnySequence], "c", [ParseEvent(ConsecutiveAsterisksMerged, 3, None)]);
  }

  /** Each extra star gives its own event (test/include/test_parser_cases.hpp:30-34). */
  lemma ParseThreeStars()
    ensures Tokenize("a***c") == ParseResult([LiteralSequence("a"), AnySequence, LiteralSequence("c")], [ParseEvent(ConsecutiveAsterisksMerged, 3, None), ParseEvent(ConsecutiveAsterisksMerged, 4, None)])
  {
    var p := "a***c";
    assert Step(p, 0, ScanState([], "", [])).1 == ScanState([], "a", []);
    assert Step(p, 1, ScanState([], "a", [])).1 == ScanState([LiteralSequence("a"), AnySequence], "", []);
    assert Step(p, 2, ScanState([LiteralSequence("a"), AnySequence], "", [])).1 == ScanState([LiteralSequence("a"), AnySequence], "", [ParseEvent(ConsecutiveAsterisksMerged, 3, None)]);
    assert Step(p, 3, ScanState([LiteralSequence("a"), AnySequence], "", [ParseEvent(ConsecutiveAsterisksMerged, 3, None)])).1 == ScanState([LiteralSequence("a"), AnySequence], "", [ParseEvent(ConsecutiveAsterisksMerged, 3, None), ParseEvent(ConsecutiveAsterisksMerged, 4, None)]);
    assert Step(p, 4, ScanState([LiteralSequence("a"), AnySequence], "", [ParseEvent(ConsecutiveAsterisksMerged, 3, None), ParseEvent(ConsecutiveAsterisksMerged, 4, None)])).1 == ScanState([LiteralSequence("a"), AnySequence], "c", [ParseEvent(ConsecutiveAsterisksMerged, 3, None), ParseEvent(ConsecutiveAsterisksMerged, 4, None)]);
  }

  /** An escaped star is literal (test/include/test_parser_cases.hpp:35). */
  lemma ParseEscapedStar()
    ensures Tokenize("a\\*c") == ParseResult([LiteralSequence("a*c")], [])
  {
    var p := "a\\*c";
    assert Step(p, 0, ScanState([], "", [])).1 == ScanState([], "a", []);
    assert Step(p, 1, ScanState([], "a", [])).1 == ScanState([], "a*", []);
    assert Step(p, 3, ScanState([], "a*", [])).1 == ScanState([], "a*c", []);
  }

  /** An escaped question mark is literal (test/include/test_parser_cases.hpp:36). */
  lemma ParseEscapedQuestionMark()
    ensures Tokenize("a\\?c") == ParseResult([LiteralSequence("a?c")], [])
  {
    var p := "a\\?c";
    assert Step(p, 0, ScanState([], "", [])).1 == ScanState([], "a", []);
    assert Step(p, 1, ScanState([], "a", [])).1 == ScanState([], "a?", []);
    assert Step(p, 3, ScanState([], "a?", [])).1 == ScanState([], "a?c", []);
  }

  /** An escaped backslash is literal (test/include/test_parser_cases.hpp:37). */
  lemma ParseEscapedBackslash()
    ensures Tokenize("a\\\\c") == ParseResult([LiteralSequence("a\\c")], [])
  {
    var p := "a\\\\c";
    assert Step(p, 0, ScanState([], "", [])).1 == ScanState([], "a", []);
    assert Step(p, 1, ScanState([], "a", [])).1 == ScanState([], "a\\", []);
    assert Step(p, 3, ScanState([], "a\\", [])).1 == ScanState([], "a\\c", []);
  }

  /** A lone final backslash is reported (test/include/test_parser_cases.hpp:38-40). */
  lemma ParseTrailingBackslash()
    ensures Tokenize("abc\\") == ParseResult([LiteralSequence("abc")], [ParseEvent(TrailingBackslash, 4, None)])
  {
    var p := "abc\\";
    assert Step(p, 0, ScanState([], "", [])).1 == ScanState([], "a", []);
    assert Step(p, 1, ScanState([], "a", [])).1 == ScanState([], "ab", []);
    assert Step(p, 2, ScanState([], "ab", [])).1 == ScanState([], "abc", []);
    assert Step(p, 3, ScanState([], "abc", [])).1 == ScanState([], "abc", [ParseEvent(TrailingBackslash, 4, None)]);
  }

  /** An undefined escape keeps the character and is reported (test/include/test_parser_cases.hpp:41-43). */
  lemma ParseUndefinedEscape()
    ensures Tokenize("a\\nc") == ParseResult([LiteralSequence("anc")], [ParseEvent(UndefinedEscapeSequence, 2, Some("n"))])
  {
    var p := "a\\nc";
    assert Step(p, 0, ScanState([], "", [])).1 == ScanState([], "a", []);
    assert Step(p, 1, ScanState([], "a", [])).1 == ScanState([], "an", [ParseEvent(UndefinedEscapeSequence, 2, Some("n"))]);
    assert Step(p, 3, ScanState([], "an", [ParseEvent(UndefinedEscapeSequence, 2, Some("n"))])).1 == ScanState([], "anc", [ParseEvent(UndefinedEscapeSequence, 2, Some("n"))]);
  }

  /** The first six characters of the complex parser case: a star, a literal, a `?` and an escaped star. */
  lemma ComplexPatternPrefix()
    ensures ScanFrom("*a?b\\*c**d\\", 0, ScanState([], "", [])) ==
            ScanFrom("*a?b\\*c**d\\", 6, ScanState([AnySequence, LiteralSequence("a"), AnyChar], "b*", []))
  {
    var p := "*a?b\\*c**d\\";
    assert Step(p, 0, ScanState([], "", [])).1 == ScanState([AnySequence], "", []);
    assert ScanFrom(p, 0, ScanState([], "", [])) == ScanFrom(p, 1, ScanState([AnySequence], "", []));
    assert Step(p, 1, ScanState([AnySequence], "", [])).1 == ScanState([AnySequence], "a", []);
    assert ScanFrom(p, 1, ScanState([AnySequence], "", [])) == ScanFrom(p, 2, ScanState([AnySequence], "a", []));
    assert Step(p, 2, ScanState([AnySequence], "a", [])).1 == ScanState([AnySequence, LiteralSequence("a"), AnyChar], "", []);
    assert ScanFrom(p, 2, ScanState([AnySequence], "a", [])) == ScanFrom(p, 3, ScanState([AnySequence, LiteralSequence("a"), AnyChar], "", []));
    assert Step(p, 3, ScanState([AnySequence, LiteralSequence("a"), AnyChar], "", [])).1 == ScanState([AnySequence, LiteralSequence("a"), AnyChar], "b", []);
    assert ScanFrom(p, 3, ScanState([AnySequence, LiteralSequence("a"), AnyChar], "", [])) == ScanFrom(p, 4, ScanState([AnySequence, LiteralSequence("a"), AnyChar], "b", []));
    assert Step(p, 4, ScanState([AnySequence, LiteralSequence("a"), AnyChar], "b", [])).1 == ScanState([AnySequence, LiteralSequence("a"), AnyChar], "b*", []);
    assert ScanFrom(p, 4, ScanState([AnySequence, LiteralSequence("a"), AnyChar], "b", [])) == ScanFrom(p, 6, ScanState([AnySequence, LiteralSequence("a"), AnyChar], "b*", []));
  }

  /** Wildcards, an escape, a merge and a trailing backslash together (test/include/test_parser_cases.hpp:44-49). */
  lemma ParseComplexPattern()
    ensures Tokenize("*a?b\\*c**d\\") == ParseResult([AnySequence, LiteralSequence("a"), AnyChar, LiteralSequence("b*c"), AnySequence, LiteralSequence("d")], [ParseEvent(ConsecutiveAsterisksMerged, 9, None), ParseEvent(TrailingBackslash, 11, None)])
  {
    var p := "*a?b\\*c**d\\";
    ComplexPatternPrefix();
    assert Step(p, 6, ScanState([AnySequence, LiteralSequence("a"), AnyChar], "b*", [])).1 == ScanState([AnySequence, LiteralSequence("a"), AnyChar], "b*c", []);
    assert ScanFrom(p, 6, ScanState([AnySequence, LiteralSequence("a"), AnyChar], "b*", [])) == ScanFrom(p, 7, ScanState([AnySequence, LiteralSequence("a"), AnyChar], "b*c", []));
    assert Step(p, 7, ScanState([AnySequence, LiteralSequence("a"), AnyChar], "b*c", [])).1 == ScanState([AnySequence, LiteralSequence("a"), AnyChar, LiteralSequence("b*c"), AnySequence], "", []);
    assert ScanFrom(p, 7, ScanState([AnySequence, LiteralSequence("a"), AnyChar], "b*c", [])) == ScanFrom(p, 8, ScanState([AnySequence, LiteralSequence("a"), AnyChar, LiteralSequence("b*c"), AnySequence], "", []));
    assert Step(p, 8, ScanState([AnySequence, LiteralSequence("a"), AnyChar, LiteralSequence("b*c"), AnySequence], "", [])).1 == ScanState([AnySequence, LiteralSequence("a"), AnyChar, LiteralSequence("b*c"), AnySequence], "", [ParseEvent(ConsecutiveAsterisksMerged, 9, None)]);
    assert ScanFrom(p, 8, ScanState([AnySequence, LiteralSequence("a"), AnyChar, LiteralSequence("b*c"), AnySequence], "", [])) == ScanFrom(p, 9, ScanState([AnySequence, LiteralSequence("a"), AnyChar, LiteralSequence("b*c"), AnySequence], "", [ParseEvent(ConsecutiveAsterisksMerged, 9, None)]));
    assert Step(p, 9, ScanState([AnySequence, LiteralSequence("a"), AnyChar, LiteralSequence("b*c"), AnySequence], "", [ParseEvent(ConsecutiveAsterisksMerged, 9, None)])).1 == ScanState([AnySequence, LiteralSequence("a"), AnyChar, LiteralSequence("b*c"), AnySequence], "d", [ParseEvent(ConsecutiveAsterisksMerged, 9, None)]);
    assert ScanFrom(p, 9, ScanState([AnySequence, LiteralSequence("a"), AnyChar, LiteralSequence("b*c"), AnySequence], "", [ParseEvent(ConsecutiveAsterisksMerged, 9, None)])) == ScanFrom(p, 10, ScanState([AnySequence, LiteralSequence("a"), AnyChar, LiteralSequence("b*c"), AnySequence], "d", [ParseEvent(ConsecutiveAsterisksMerged, 9, None)]));
    assert Step(p, 10, ScanState([AnySequence, LiteralSequence("a"), AnyChar, LiteralSequence("b*c"), AnySequence], "d", [ParseEvent(ConsecutiveAsterisksMerged, 9, None)])).1 == ScanState([AnySequence, LiteralSequence("a"), AnyChar, LiteralSequence("b*c"), AnySequence], "d", [ParseEvent(ConsecutiveAsterisksMerged, 9, None), ParseEvent(TrailingBackslash, 11, None)]);
    assert ScanFrom(p, 10, ScanState([AnySequence, LiteralSequence("a"), AnyChar, LiteralSequence("b*c"), AnySequence], "d", [ParseEvent(ConsecutiveAsterisksMerged, 9, None)])) == ScanFrom(p, 11, ScanState([AnySequence, LiteralSequence("a"), AnyChar, LiteralSequence("b*c"), AnySequence], "d", [ParseEvent(ConsecutiveAsterisksMerged, 9, None), ParseEvent(TrailingBackslash, 11, None)]));
  }
}
