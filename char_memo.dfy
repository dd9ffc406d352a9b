/**
 * The memoized character matcher (include/memo_solver.hpp): a recursion on
 * (i, j) whose answers are cached in an (m+1) x (n+1) table of ints, -1 for not
 * yet computed, 0 for false and 1 for true. The table and the deepest level are
 * shared by reference; the deepest level is modelled as a value passed in and
 * handed back.
 */
module CharMemo {
  import opened CharSpec
  import opened Profiling

  const NotComputed: int := -1

  /** The int a table cell holds for a computed answer. */
  function Encode(b: bool): (v: int)
    ensures (v == 1) == b && (v == 0) == !b
  {
    if b then 1 else 0
  }

  /** The table has the right shape and every computed cell holds the reference answer. */
  ghost predicate MemoValid(s: string, p: string, memo: array2<int>)
    reads memo
  {
    memo.Length0 == |s| + 1 && memo.Length1 == |p| + 1 &&
    forall i, j :: 0 <= i <= |s| && 0 <= j <= |p| ==>
      memo[i, j] == NotComputed || memo[i, j] == Encode(MatchCharsAt(s, p, i, j))
  }

  /**
   * MemoSolver::isMatch: whether s[i..] matches p[j..], with that answer cached;
   * the maximum depth handed back is at least `depth` and at most `depth` plus
   * what is left of the text and the pattern.
   */
  method IsMatch(s: string, p: string, i: nat, j: nat, memo: array2<int>, depth: nat, maxDepth: nat)
    returns (r: bool, maxDepth': nat)
    requires i <= |s| && j <= |p| && MemoValid(s, p, memo)
    modifies memo
    ensures MemoValid(s, p, memo)
    ensures r == MatchCharsAt(s, p, i, j)
    ensures memo[i, j] == Encode(r)
    ensures maxDepth <= maxDepth' && depth <= maxDepth'
    ensures maxDepth' <= Max(maxDepth, depth + (|s| - i) + (|p| - j))
    decreases (|s| - i) + (|p| - j)
  {
    maxDepth' := Max(maxDepth, depth);
    if memo[i, j] != NotComputed {
      return memo[i, j] == 1, maxDepth';
    }
    var ans := false;
    if j == |p| {
      ans := i == |s|;
    } else {
      var firstMatch := i < |s| && (p[j] == '?' || p[j] == s[i]);
      if p[j] == '*' {
        ans, maxDepth' := IsMatch(s, p, i, j + 1, memo, depth + 1, maxDepth');
        if !ans && i < |s| {
          ans, maxDepth' := IsMatch(s, p, i + 1, j, memo, depth + 1, maxDepth');
        }
      } else if firstMatch {
        ans, maxDepth' := IsMatch(s, p, i + 1, j + 1, memo, depth + 1, maxDepth');
      }
    }
    memo[i, j] := Encode(ans);
    return ans, maxDepth';
  }

  /** The bytes of one stack frame: the two state arguments and a return address. */
  const FrameBytes: nat := SizeOfMemoMatchingState + SizeOfProfilingState + SizeOfPointer

  /** MemoSolver::runAndProfile: a fresh table, the match from (0, 0), and table plus stack as space. */
  method RunAndProfile(s: string, p: string) returns (profile: SolverProfile)
    ensures profile.result == MatchChars(s, p)
    ensures TableBytes(|s|, |p|, SizeOfInt) <= profile.extraSpaceBytes
    ensures profile.extraSpaceBytes <= TableBytes(|s|, |p|, SizeOfInt) + (|s| + |p|) * FrameBytes
  {
    var memo := new int[|s| + 1, |p| + 1]((i, j) => NotComputed);
    var result, maxDepth := IsMatch(s, p, 0, 0, memo, 0, 0);
    profile := SolverProfile(result, TableBytes(|s|, |p|, SizeOfInt) + maxDepth * FrameBytes);
    assert maxDepth * FrameBytes <= (|s| + |p|) * FrameBytes;
  }
}
