/**
 * The character greedy matcher over NUL-terminated strings
 * (include/greedy_solver.hpp): a text pointer, a pattern pointer, the last star
 * seen and where in the text its match begins. Reading at the end of a string
 * yields the terminator.
 */
module CharGreedy {
  import opened Wrappers
  import opened Tokens
  import opened CharSpec
  import opened Backtracking
  import opened Profiling
  import Validator

  /** The character a pointer at index k reads: the terminator once the string ends. */
  function At(x: string, k: nat): (c: char)
    ensures k < |x| ==> c == x[k]
    ensures k >= |x| ==> c == '\0'
  {
    if k < |x| then x[k] else '\0'
  }

  /** The scan state of the per-character token list for the pointers of this matcher. */
  function AsScan(sIdx: nat, pIdx: nat, star: Option<nat>, sMatch: nat): Scan
  {
    Scan(sIdx, pIdx, if star.None? then None else Some(BacktrackPoint(star.value, sMatch)))
  }

  /**
   * GreedySolver::isMatch. s and p are the characters before their terminators.
   * When the text holds no `*` (a `*` in the text meets a pattern `*` as an equal
   * character) this is the scan of the per-character tokens, and so the reference
   * character semantics.
   */
  method IsMatch(s: string, p: string) returns (r: bool)
    requires '\0' !in s && '\0' !in p
    ensures '*' !in s ==> r == GreedyRun(s, CharTokens(p))
    ensures '*' !in s ==> r == MatchChars(s, p)
  {
    var tokens := CharTokens(p);
    ghost var plain := '*' !in s;
    GreedyRunCorrect(s, tokens);
    CharsMatchTokens(s, p);
    var sIdx: nat := 0;
    var pIdx: nat := 0;
    var star: Option<nat> := None;
    var sMatch: nat := 0;
    while At(s, sIdx) != '\0'
      invariant ScanValid(s, tokens, AsScan(sIdx, pIdx, star, sMatch))
      invariant plain ==> GreedyFrom(s, tokens, AsScan(sIdx, pIdx, star, sMatch)) == GreedyRun(s, tokens)
      decreases (if star.None? then |s| + 1 else |s| - sMatch), |s| - sIdx, |p| - pIdx
    {
      ghost var before := AsScan(sIdx, pIdx, star, sMatch);
      assert sIdx < |s|;
      if plain {
        CharStep(s, p, sIdx, pIdx, star, sMatch);
      }
      if At(p, pIdx) == '?' || At(p, pIdx) == At(s, sIdx) {
        sIdx := sIdx + 1;
        pIdx := pIdx + 1;
      } else if At(p, pIdx) == '*' {
        star := Some(pIdx);
        pIdx := pIdx + 1;
        sMatch := sIdx;
      } else if star.Some? {
        pIdx := star.value + 1;
        sMatch := sMatch + 1;
        sIdx := sMatch;
      } else {
        return false;
      }
      assert plain ==> GreedyStep(s, tokens, before) == Advance(AsScan(sIdx, pIdx, star, sMatch));
    }
    assert sIdx == |s|;
    ghost var rest := pIdx;
    while At(p, pIdx) == '*'
      invariant rest <= pIdx <= |p|
      invariant SkipStars(tokens, pIdx) == SkipStars(tokens, rest)
      decreases |p| - pIdx
    {
      pIdx := pIdx + 1;
    }
    r := At(p, pIdx) == '\0';
  }

  /**
   * One pass of the matcher's loop on a text without `*` is one step of the token
   * scan on the per-character tokens: a `?` or an equal character advances both
   * pointers, a `*` becomes the backtrack point, and otherwise the scan backtracks
   * or rejects.
   */
  lemma CharStep(s: string, p: string, sIdx: nat, pIdx: nat, star: Option<nat>, sMatch: nat)
    requires '\0' !in s && '*' !in s && sIdx < |s|
    requires ScanValid(s, CharTokens(p), AsScan(sIdx, pIdx, star, sMatch))
    ensures GreedyStep(s, CharTokens(p), AsScan(sIdx, pIdx, star, sMatch)) ==
              if At(p, pIdx) == '?' || At(p, pIdx) == s[sIdx] then
                Advance(AsScan(sIdx + 1, pIdx + 1, star, sMatch))
              else if At(p, pIdx) == '*' then
                Advance(AsScan(sIdx, pIdx + 1, Some(pIdx), sIdx))
              else if star.Some? then
                Advance(AsScan(sMatch + 1, star.value + 1, star, sMatch + 1))
              else Reject
  {
    var tokens := CharTokens(p);
    if pIdx < |p| {
      var c := p[pIdx];
      assert tokens[pIdx] == CharToken(c);
      if c != '*' && c != '?' {
        assert tokens[pIdx] == LiteralSequence([c]);
        assert s[sIdx..sIdx + 1] == [s[sIdx]];
      }
    }
  }

  /** GreedySolver::runAndProfile: the match and four pointers as space. */
  method RunAndProfile(s: string, p: string) returns (profile: SolverProfile)
    requires '\0' !in s && '\0' !in p
    ensures '*' !in s ==> profile.result == MatchChars(s, p)
    ensures profile.extraSpaceBytes == SizeOfPointer * 4
  {
    var result := IsMatch(s, p);
    profile := SolverProfile(result, SizeOfPointer * 4);
  }

  /**
   * The check the command-line driver makes before matching (src/main.cpp:104-111):
   * a text holding a wildcard is refused; any other text is matched, and then the
   * greedy answer is the reference one.
   */
  method RunValidated(s: string, p: string) returns (r: Option<SolverProfile>)
    requires '\0' !in s && '\0' !in p
    ensures r.None? <==> exists k :: 0 <= k < |s| && Validator.IsWildcard(s[k])
    ensures r.Some? ==> r.value.result == MatchChars(s, p)
  {
    var found := Validator.FindWildcard(s);
    if found.Some? {
      return None;
    }
    assert '*' !in s by {
      forall k | 0 <= k < |s| ensures s[k] != '*' {
        assert !Validator.IsWildcard(s[k]);
      }
    }
    var profile := RunAndProfile(s, p);
    return Some(profile);
  }
}
