/**
 * The bottom-up character matcher (include/dp_solver.hpp): cell (i, j) of an
 * (m+1) x (n+1) table of booleans says whether the first i characters of the
 * text match the first j characters of the pattern.
 */
module CharDp {
  import opened CharSpec
  import opened Profiling

  /** DpSolver::isMatch: the table's last cell is the reference answer. */
  method IsMatch(s: string, p: string) returns (r: bool)
    ensures r == MatchChars(s, p)
  {
    var m, n := |s|, |p|;
    var dp := new bool[m + 1, n + 1]((i, j) => false);
    dp[0, 0] := true;
    var j := 1;
    while j <= n
      invariant 1 <= j <= n + 1
      invariant forall b :: 0 <= b < j ==> dp[0, b] == AllStarChars(p, b)
      invariant forall a, b :: 0 <= a <= m && 0 <= b <= n && (a > 0 || b >= j) ==> !dp[a, b]
    {
      if p[j - 1] == '*' {
        dp[0, j] := dp[0, j - 1];
      }
      j := j + 1;
    }
    forall b | 0 <= b <= n
      ensures dp[0, b] == MatchCharsPrefix(s, p, 0, b)
    {
      CharsRowZero(s, p, b);
    }
    var i := 1;
    while i <= m
      invariant 1 <= i <= m + 1
      invariant forall a, b :: 0 <= a < i && 0 <= b <= n ==> dp[a, b] == MatchCharsPrefix(s, p, a, b)
      invariant forall a, b :: i <= a <= m && 0 <= b <= n ==> !dp[a, b]
    {
      CharsPrefixStep(s, p, i, 0);
      j := 1;
      while j <= n
        invariant 1 <= j <= n + 1
        invariant forall a, b :: 0 <= a < i && 0 <= b <= n ==> dp[a, b] == MatchCharsPrefix(s, p, a, b)
        invariant forall b :: 0 <= b < j ==> dp[i, b] == MatchCharsPrefix(s, p, i, b)
        invariant forall b :: j <= b <= n ==> !dp[i, b]
        invariant forall a, b :: i < a <= m && 0 <= b <= n ==> !dp[a, b]
      {
        CharsPrefixStep(s, p, i, j);
        if p[j - 1] == '*' {
          dp[i, j] := dp[i, j - 1] || dp[i - 1, j];
        } else if p[j - 1] == '?' || p[j - 1] == s[i - 1] {
          dp[i, j] := dp[i - 1, j - 1];
        }
        j := j + 1;
      }
      i := i + 1;
    }
    r := dp[m, n];
    CharsPrefixWhole(s, p);
  }

  /** DpSolver::runAndProfile: the match and the (m+1) x (n+1) table of bools as space. */
  method RunAndProfile(s: string, p: string) returns (profile: SolverProfile)
    ensures profile.result == MatchChars(s, p)
    ensures profile.extraSpaceBytes == TableBytes(|s|, |p|, SizeOfBool)
  {
    var result := IsMatch(s, p);
    profile := SolverProfile(result, TableBytes(|s|, |p|, SizeOfBool));
  }
}
