/**
 * The token greedy matcher, visit-based revision (include/solvers/greedy.hpp):
 * indices into the text and the token list, plus one optional backtrack point.
 */
module TokenGreedy {
  import opened Wrappers
  import opened Tokens
  import opened Atoms
  import opened TokenSpec
  import opened CharSpec
  import opened Backtracking
  import opened Profiling
  import Parser

  /** GreedySolver::isMatch. */
  method IsMatch(text: string, tokens: seq<Token>) returns (r: bool)
    ensures r == GreedyRun(text, tokens)
    ensures Good(tokens) ==> r == MatchTokens(text, tokens)
  {
    if Good(tokens) {
      GreedyRunCorrect(text, tokens);
    }
    var m, n := |text|, |tokens|;
    var sIdx: nat := 0;
    var pIdx: nat := 0;
    var backtrack: Option<BacktrackPoint> := None;
    while sIdx < m
      invariant ScanValid(text, tokens, Scan(sIdx, pIdx, backtrack))
      invariant GreedyFrom(text, tokens, Scan(sIdx, pIdx, backtrack)) == GreedyRun(text, tokens)
      decreases (if backtrack.None? then m + 1 else m - backtrack.value.sMatchIdx), m - sIdx, n - pIdx
    {
      ghost var before := Scan(sIdx, pIdx, backtrack);
      // Case 1: a direct match of a single-character wildcard or of a literal.
      if pIdx < n {
        var matched := false;
        match tokens[pIdx] {
          case AnyChar =>
            sIdx := sIdx + 1;
            pIdx := pIdx + 1;
            matched := true;
          case LiteralSequence(literal) =>
            if m - sIdx >= |literal| && text[sIdx..sIdx + |literal|] == literal {
              sIdx := sIdx + |literal|;
              pIdx := pIdx + 1;
              matched := true;
            }
          case AnySequence =>
          case CharacterSet(_) =>
        }
        if matched {
          assert GreedyStep(text, tokens, before) == Advance(Scan(sIdx, pIdx, backtrack));
          continue;
        }
      }
      if pIdx < n && tokens[pIdx].AnySequence? {
        // Case 2: a star becomes the backtrack point.
        backtrack := Some(BacktrackPoint(pIdx, sIdx));
        pIdx := pIdx + 1;
      } else if backtrack.Some? {
        // Case 3: retry after the star with its match one character longer.
        pIdx := backtrack.value.starIdx + 1;
        backtrack := Some(backtrack.value.(sMatchIdx := backtrack.value.sMatchIdx + 1));
        sIdx := backtrack.value.sMatchIdx;
      } else {
        // Case 4: a mismatch with nothing to backtrack to.
        assert GreedyStep(text, tokens, before) == Reject;
        return false;
      }
      assert GreedyStep(text, tokens, before) == Advance(Scan(sIdx, pIdx, backtrack));
    }
    // The text is used up: skip trailing stars.
    ghost var rest := pIdx;
    while pIdx < n && tokens[pIdx].AnySequence?
      invariant rest <= pIdx <= n
      invariant SkipStars(tokens, pIdx) == SkipStars(tokens, rest)
      decreases n - pIdx
    {
      pIdx := pIdx + 1;
    }
    r := pIdx == n;
  }

  /** GreedySolver::run: the result, and two indices plus the optional backtrack point as space. */
  method Run(text: string, tokens: seq<Token>) returns (profile: SolverProfile)
    ensures profile.result == GreedyRun(text, tokens)
    ensures Good(tokens) ==> profile.result == MatchTokens(text, tokens)
    ensures profile.extraSpaceBytes == SizeOfSizeT * 2 + SizeOfOptionalBacktrackPoint
  {
    var result := IsMatch(text, tokens);
    profile := SolverProfile(result, SizeOfSizeT * 2 + SizeOfOptionalBacktrackPoint);
  }

  /** GreedySolver::runAndProfile on a raw pattern: tokenize, then match. */
  method RunPattern(text: string, p: string) returns (profile: SolverProfile)
    ensures profile.result == MatchAtoms(text, Parser.Decode(p, 0))
    ensures '\\' !in p ==> profile.result == MatchChars(text, p)
  {
    var parsed := Parser.Parse(p);
    profile := Run(text, parsed.tokens);
    if '\\' !in p {
      Parser.PlainPatternMatches(text, p);
    }
  }
}
