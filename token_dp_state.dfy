/**
 * The bottom-up token matcher of src/solvers/dp.cpp: the same table as the
 * boolean one, with cells of a two-valued state, each computed by a switch on the
 * kind of its token.
 */
module TokenDpState {
  import opened Tokens
  import opened TokenSpec
  import opened TokenTable
  import opened Profiling

  /** The state of one table cell. */
  datatype DpState = NoMatch | Match

  /**
   * DpSolver::isMatch: cell (i, j) is Match exactly where the table function
   * holds, so this revision agrees with the boolean one on every input. A
   * CharacterSet has no case in the switch and is unreachable.
   */
  method IsMatch(text: string, tokens: seq<Token>) returns (r: bool)
    requires NoCharacterSet(tokens)
    ensures r == DpTable(text, tokens, |text|, |tokens|)
    ensures NonEmptyLiterals(tokens) ==> r == MatchTokens(text, tokens)
  {
    var m, n := |text|, |tokens|;
    var dp := new DpState[m + 1, n + 1]((i, j) => NoMatch);
    dp[0, 0] := Match;
    var j := 1;
    while j <= n
      invariant 1 <= j <= n + 1
      invariant forall b :: 0 <= b < j ==> dp[0, b].Match? == DpTable(text, tokens, 0, b)
      invariant forall a, b :: 0 <= a <= m && 0 <= b <= n && (a > 0 || b >= j) ==> dp[a, b] == NoMatch
    {
      if tokens[j - 1].AnySequence? {
        dp[0, j] := dp[0, j - 1];
      }
      j := j + 1;
    }
    var i := 1;
    while i <= m
      invariant 1 <= i <= m + 1
      invariant forall a, b :: 0 <= a < i && 0 <= b <= n ==> dp[a, b].Match? == DpTable(text, tokens, a, b)
      invariant forall a, b :: i <= a <= m && 0 <= b <= n ==> dp[a, b] == NoMatch
    {
      FillRow(text, tokens, dp, i);
      i := i + 1;
    }
    r := dp[m, n] == Match;
    if NonEmptyLiterals(tokens) {
      TableDecides(text, tokens);
    }
  }

  /** The inner loop of DpSolver::isMatch: row i, cell by cell; no other row changes. */
  method FillRow(text: string, tokens: seq<Token>, dp: array2<DpState>, i: nat)
    requires NoCharacterSet(tokens)
    requires dp.Length0 == |text| + 1 && dp.Length1 == |tokens| + 1 && 1 <= i <= |text|
    requires forall a, b :: 0 <= a < i && 0 <= b <= |tokens| ==> dp[a, b].Match? == DpTable(text, tokens, a, b)
    requires forall b :: 0 <= b <= |tokens| ==> dp[i, b] == NoMatch
    modifies dp
    ensures forall a, b :: 0 <= a <= |text| && 0 <= b <= |tokens| && a != i ==> dp[a, b] == old(dp[a, b])
    ensures forall b :: 0 <= b <= |tokens| ==> dp[i, b].Match? == DpTable(text, tokens, i, b)
  {
    var n := |tokens|;
    var j := 1;
    while j <= n
      invariant 1 <= j <= n + 1
      invariant forall a, b :: 0 <= a <= |text| && 0 <= b <= n && a != i ==> dp[a, b] == old(dp[a, b])
      invariant forall b :: 0 <= b < j ==> dp[i, b].Match? == DpTable(text, tokens, i, b)
      invariant forall b :: j <= b <= n ==> dp[i, b] == NoMatch
    {
      var c := Cell(text, tokens, dp, i, j);
      dp[i, j] := c;
      j := j + 1;
    }
  }

  /** The immediately-invoked switch that computes one cell from the cells before it. */
  function Cell(text: string, tokens: seq<Token>, dp: array2<DpState>, i: nat, j: nat): (c: DpState)
    reads dp
    requires NoCharacterSet(tokens)
    requires 0 < i <= |text| && 0 < j <= |tokens|
    requires dp.Length0 == |text| + 1 && dp.Length1 == |tokens| + 1
    requires forall a, b :: 0 <= a < i && 0 <= b <= |tokens| ==> dp[a, b].Match? == DpTable(text, tokens, a, b)
    requires forall b :: 0 <= b < j ==> dp[i, b].Match? == DpTable(text, tokens, i, b)
    ensures c.Match? == DpTable(text, tokens, i, j)
  {
    match tokens[j - 1]
    case AnySequence =>
      if dp[i, j - 1] == Match || dp[i - 1, j] == Match then Match else NoMatch
    case AnyChar =>
      dp[i - 1, j - 1]
    case LiteralSequence(literal) =>
      if i >= |literal| && text[i - |literal|..i] == literal then dp[i - |literal|, j - 1] else NoMatch
  }

  /** DpSolver::run: the match and the (m+1) x (n+1) table of states as space. */
  method Run(text: string, tokens: seq<Token>) returns (profile: SolverProfile)
    requires NoCharacterSet(tokens)
    ensures profile.result == DpTable(text, tokens, |text|, |tokens|)
    ensures NonEmptyLiterals(tokens) ==> profile.result == MatchTokens(text, tokens)
    ensures profile.extraSpaceBytes == TableBytes(|text|, |tokens|, SizeOfDpState)
  {
    var result := IsMatch(text, tokens);
    profile := SolverProfile(result, TableBytes(|text|, |tokens|, SizeOfDpState));
  }
}
