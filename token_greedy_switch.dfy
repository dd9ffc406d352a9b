/**
 * The token greedy matcher, switch-based revision (src/solvers/greedy.cpp). Every
 * kind of token is dispatched in one switch, a star records the backtrack point
 * directly, and a token without a case falls through to backtracking. It computes
 * the same scan as the visit-based revision, on every input.
 */
module TokenGreedySwitch {
  import opened Wrappers
  import opened Tokens
  import opened TokenSpec
  import opened Backtracking
  import opened Profiling

  /** GreedySolver::isMatch of the switch-based revision. */
  method IsMatch(text: string, tokens: seq<Token>) returns (r: bool)
    ensures r == GreedyRun(text, tokens)
    ensures Good(tokens) ==> r == MatchTokens(text, tokens)
  {
    if Good(tokens) {
      GreedyRunCorrect(text, tokens);
    }
    var m, n := |text|, |tokens|;
    var sIdx: nat := 0;
    var pIdx: nat := 0;
    var backtrack: Option<BacktrackPoint> := None;
    while sIdx < m
      invariant ScanValid(text, tokens, Scan(sIdx, pIdx, backtrack))
      invariant GreedyFrom(text, tokens, Scan(sIdx, pIdx, backtrack)) == GreedyRun(text, tokens)
      decreases (if backtrack.None? then m + 1 else m - backtrack.value.sMatchIdx), m - sIdx, n - pIdx
    {
      ghost var before := Scan(sIdx, pIdx, backtrack);
      if pIdx < n {
        match KindOf(tokens[pIdx]) {
          case AnyCharIndex =>
            sIdx := sIdx + 1;
            pIdx := pIdx + 1;
            assert GreedyStep(text, tokens, before) == Advance(Scan(sIdx, pIdx, backtrack));
            continue;
          case LiteralSequenceIndex =>
            var literal := tokens[pIdx].value;
            if m - sIdx >= |literal| && text[sIdx..sIdx + |literal|] == literal {
              sIdx := sIdx + |literal|;
              pIdx := pIdx + 1;
              assert GreedyStep(text, tokens, before) == Advance(Scan(sIdx, pIdx, backtrack));
              continue;
            }
          case AnySequenceIndex =>
            backtrack := Some(BacktrackPoint(pIdx, sIdx));
            pIdx := pIdx + 1;
            assert GreedyStep(text, tokens, before) == Advance(Scan(sIdx, pIdx, backtrack));
            continue;
          case CharacterSetIndex =>
        }
      }
      // A mismatch: backtrack to the last star, or give up.
      if backtrack.Some? {
        pIdx := backtrack.value.starIdx + 1;
        backtrack := Some(backtrack.value.(sMatchIdx := backtrack.value.sMatchIdx + 1));
        sIdx := backtrack.value.sMatchIdx;
      } else {
        assert GreedyStep(text, tokens, before) == Reject;
        return false;
      }
      assert GreedyStep(text, tokens, before) == Advance(Scan(sIdx, pIdx, backtrack));
    }
    ghost var rest := pIdx;
    while pIdx < n && tokens[pIdx].AnySequence?
      invariant rest <= pIdx <= n
      invariant SkipStars(tokens, pIdx) == SkipStars(tokens, rest)
      decreases n - pIdx
    {
      pIdx := pIdx + 1;
    }
    r := pIdx == n;
  }

  /** GreedySolver::run of the switch-based revision: the same constant space estimate. */
  method Run(text: string, tokens: seq<Token>) returns (profile: SolverProfile)
    ensures profile.result == GreedyRun(text, tokens)
    ensures Good(tokens) ==> profile.result == MatchTokens(text, tokens)
    ensures profile.extraSpaceBytes == SizeOfSizeT * 2 + SizeOfOptionalBacktrackPoint
  {
    var result := IsMatch(text, tokens);
    profile := SolverProfile(result, SizeOfSizeT * 2 + SizeOfOptionalBacktrackPoint);
  }
}
