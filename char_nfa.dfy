/**
 * The state-machine character matcher (include/nfa_solver.hpp): one row of the
 * table, rewritten in place for each text character. After i characters, entry j
 * says whether they match the first j pattern characters.
 */
module CharNfa {
  import opened CharSpec
  import opened Profiling

  /** NfaSolver::isMatch: the last state after the whole text is the reference answer. */
  method IsMatch(s: string, p: string) returns (r: bool)
    ensures r == MatchChars(s, p)
  {
    var m, n := |s|, |p|;
    var dp := new bool[n + 1](k => false);
    dp[0] := true;
    var j := 1;
    while j <= n
      invariant 1 <= j <= n + 1
      invariant forall b :: 0 <= b < j ==> dp[b] == AllStarChars(p, b)
      invariant forall b :: j <= b <= n ==> !dp[b]
    {
      if p[j - 1] == '*' {
        dp[j] := dp[j - 1];
      }
      j := j + 1;
    }
    forall b | 0 <= b <= n
      ensures dp[b] == MatchCharsPrefix(s, p, 0, b)
    {
      CharsRowZero(s, p, b);
    }
    var i := 1;
    while i <= m
      invariant 1 <= i <= m + 1
      invariant forall b :: 0 <= b <= n ==> dp[b] == MatchCharsPrefix(s, p, i - 1, b)
    {
      // pre holds the previous row's entry to the left of j.
      var pre := dp[0];
      CharsPrefixStep(s, p, i, 0);
      dp[0] := false;
      j := 1;
      while j <= n
        invariant 1 <= j <= n + 1
        invariant pre == MatchCharsPrefix(s, p, i - 1, j - 1)
        invariant forall b :: 0 <= b < j ==> dp[b] == MatchCharsPrefix(s, p, i, b)
        invariant forall b :: j <= b <= n ==> dp[b] == MatchCharsPrefix(s, p, i - 1, b)
      {
        CharsPrefixStep(s, p, i, j);
        var temp := dp[j];
        if p[j - 1] == '*' {
          dp[j] := dp[j - 1] || dp[j];
        } else if p[j - 1] == '?' || p[j - 1] == s[i - 1] {
          dp[j] := pre;
        } else {
          dp[j] := false;
        }
        pre := temp;
        j := j + 1;
      }
      i := i + 1;
    }
    r := dp[n];
    CharsPrefixWhole(s, p);
  }

  /** NfaSolver::runAndProfile: the match and one row of n+1 bools as space. */
  method RunAndProfile(s: string, p: string) returns (profile: SolverProfile)
    ensures profile.result == MatchChars(s, p)
    ensures profile.extraSpaceBytes == (|p| + 1) * SizeOfBool
  {
    var result := IsMatch(s, p);
    profile := SolverProfile(result, (|p| + 1) * SizeOfBool);
  }
}
