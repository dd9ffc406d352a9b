/**
 * The character-level backtracking matcher (include/solvers/recursive.hpp): an
 * object holding the text, the pattern and the deepest recursion level reached,
 * and a recursion on the indices (i, j).
 */
module CharRecursive {
  import opened CharSpec
  import opened Profiling

  /** The bytes of one stack frame: two int indices and a return address. */
  const FrameBytes: nat := SizeOfInt * 2 + SizeOfPointer

  class RecursiveSolver {
    const s: string
    const p: string
    const m: nat
    const n: nat
    var maxDepth: nat

    ghost predicate Valid()
      reads this
    {
      m == |s| && n == |p|
    }

    constructor (s: string, p: string)
      ensures Valid() && this.s == s && this.p == p && maxDepth == 0
    {
      this.s := s;
      this.p := p;
      m := |s|;
      n := |p|;
      maxDepth := 0;
    }

    /**
     * RecursiveSolver::isMatch(i, j, depth): whether s[i..] matches p[j..]; the
     * depth reached is at least `depth` and at most `depth` plus what is left of
     * the text and the pattern.
     */
    method IsMatch(i: nat, j: nat, depth: nat) returns (r: bool)
      requires Valid() && i <= m && j <= n
      modifies this`maxDepth
      ensures r == MatchCharsAt(s, p, i, j)
      ensures old(maxDepth) <= maxDepth && depth <= maxDepth
      ensures maxDepth <= Max(old(maxDepth), depth + (m - i) + (n - j))
      decreases (m - i) + (n - j)
    {
      maxDepth := Max(maxDepth, depth);
      if j == n {
        return i == m;
      }
      if p[j] == '*' {
        r := IsMatch(i, j + 1, depth + 1);
        if !r && i < m {
          r := IsMatch(i + 1, j, depth + 1);
        }
        return r;
      }
      if i < m && (p[j] == '?' || p[j] == s[i]) {
        r := IsMatch(i + 1, j + 1, depth + 1);
        return r;
      }
      return false;
    }

    /** RecursiveSolver::run: the match from (0, 0) and one frame per level reached. */
    method Run() returns (profile: SolverProfile)
      requires Valid()
      modifies this`maxDepth
      ensures profile.result == MatchChars(s, p)
      ensures old(maxDepth) <= maxDepth <= Max(old(maxDepth), m + n)
      ensures profile.extraSpaceBytes == maxDepth * FrameBytes
    {
      var result := IsMatch(0, 0, 0);
      profile := SolverProfile(result, maxDepth * FrameBytes);
    }
  }

  /** RecursiveSolver::runAndProfile: a fresh solver, run once. */
  method RunAndProfile(s: string, p: string) returns (profile: SolverProfile)
    ensures profile.result == MatchChars(s, p)
    ensures profile.extraSpaceBytes <= (|s| + |p|) * FrameBytes
  {
    var solver := new RecursiveSolver(s, p);
    profile := solver.Run();
    assert solver.maxDepth * FrameBytes <= (|s| + |p|) * FrameBytes;
  }
}
