/**
 * The bottom-up token matcher over a table of booleans (include/solvers/dp.hpp):
 * cell (i, j) says whether the first i characters match the first j tokens.
 */
module TokenDp {
  import opened Tokens
  import opened Atoms
  import opened TokenSpec
  import opened TokenTable
  import opened Profiling
  import Parser

  /**
   * DpSolver::isMatch: the table is filled row 0 first, then row by row, and the
   * last cell is returned. A token kind without a case leaves its cells false.
   */
  method IsMatch(text: string, tokens: seq<Token>) returns (r: bool)
    ensures r == DpTable(text, tokens, |text|, |tokens|)
    ensures NoCharacterSet(tokens) && NonEmptyLiterals(tokens) ==> r == MatchTokens(text, tokens)
  {
    var m, n := |text|, |tokens|;
    var dp := new bool[m + 1, n + 1]((i, j) => false);
    dp[0, 0] := true;
    var j := 1;
    while j <= n
      invariant 1 <= j <= n + 1
      invariant forall b :: 0 <= b < j ==> dp[0, b] == DpTable(text, tokens, 0, b)
      invariant forall a, b :: 0 <= a <= m && 0 <= b <= n && (a > 0 || b >= j) ==> !dp[a, b]
    {
      if tokens[j - 1].AnySequence? {
        dp[0, j] := dp[0, j - 1];
      }
      j := j + 1;
    }
    var i := 1;
    while i <= m
      invariant 1 <= i <= m + 1
      invariant forall a, b :: 0 <= a < i && 0 <= b <= n ==> dp[a, b] == DpTable(text, tokens, a, b)
      invariant forall a, b :: i <= a <= m && 0 <= b <= n ==> !dp[a, b]
    {
      FillRow(text, tokens, dp, i);
      i := i + 1;
    }
    r := dp[m, n];
    if NoCharacterSet(tokens) && NonEmptyLiterals(tokens) {
      TableDecides(text, tokens);
    }
  }

  /**
   * The inner loop of DpSolver::isMatch: row i from the row above it and the
   * cells to its left; no other row changes.
   */
  method FillRow(text: string, tokens: seq<Token>, dp: array2<bool>, i: nat)
    requires dp.Length0 == |text| + 1 && dp.Length1 == |tokens| + 1 && 1 <= i <= |text|
    requires forall a, b :: 0 <= a < i && 0 <= b <= |tokens| ==> dp[a, b] == DpTable(text, tokens, a, b)
    requires forall b :: 0 <= b <= |tokens| ==> !dp[i, b]
    modifies dp
    ensures forall a, b :: 0 <= a <= |text| && 0 <= b <= |tokens| && a != i ==> dp[a, b] == old(dp[a, b])
    ensures forall b :: 0 <= b <= |tokens| ==> dp[i, b] == DpTable(text, tokens, i, b)
  {
    var n := |tokens|;
    var j := 1;
    while j <= n
      invariant 1 <= j <= n + 1
      invariant forall a, b :: 0 <= a <= |text| && 0 <= b <= n && a != i ==> dp[a, b] == old(dp[a, b])
      invariant forall b :: 0 <= b < j ==> dp[i, b] == DpTable(text, tokens, i, b)
      invariant forall b :: j <= b <= n ==> !dp[i, b]
    {
      match tokens[j - 1] {
        case AnySequence =>
          dp[i, j] := dp[i, j - 1] || dp[i - 1, j];
        case AnyChar =>
          dp[i, j] := dp[i - 1, j - 1];
        case LiteralSequence(literal) =>
          if i >= |literal| && text[i - |literal|..i] == literal {
            dp[i, j] := dp[i - |literal|, j - 1];
          }
        case CharacterSet(_) =>
      }
      j := j + 1;
    }
  }

  /** DpSolver::run: the match and the (m+1) x (n+1) table of bools as space. */
  method Run(text: string, tokens: seq<Token>) returns (profile: SolverProfile)
    ensures profile.result == DpTable(text, tokens, |text|, |tokens|)
    ensures NoCharacterSet(tokens) && NonEmptyLiterals(tokens) ==> profile.result == MatchTokens(text, tokens)
    ensures profile.extraSpaceBytes == TableBytes(|text|, |tokens|, SizeOfBool)
  {
    var result := IsMatch(text, tokens);
    profile := SolverProfile(result, TableBytes(|text|, |tokens|, SizeOfBool));
  }

  /** DpSolver::runAndProfile on a raw pattern: the parser never yields an empty literal. */
  method RunAndProfilePattern(text: string, p: string) returns (profile: SolverProfile)
    ensures profile.result == MatchAtoms(text, Parser.Decode(p, 0))
    ensures profile.extraSpaceBytes == TableBytes(|text|, |Parser.Tokenize(p).tokens|, SizeOfBool)
  {
    var parsed := Parser.Parse(p);
    profile := Run(text, parsed.tokens);
  }
}
