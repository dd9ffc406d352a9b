/**
 * The thread-safe backtracking matcher over string views
 * (include/recursive_solver.hpp): each call takes the remaining text and
 * pattern and the depth, and the deepest level is shared through a reference,
 * modelled here as a value passed in and handed back.
 */
module CharSliceRecursive {
  import opened CharSpec
  import opened Profiling

  /** The bytes of one stack frame: the MatchingState argument and a return address. */
  const FrameBytes: nat := SizeOfSliceMatchingState + SizeOfPointer

  /**
   * RecursiveSolver::isMatch: whether s matches p. A run of stars is first
   * squeezed to one, which does not change the answer. The maximum depth handed
   * back is at least `depth` and at most `depth` plus the lengths of s and p.
   */
  method IsMatch(s: string, p: string, depth: nat, maxDepth: nat) returns (r: bool, maxDepth': nat)
    ensures r == MatchChars(s, p)
    ensures maxDepth <= maxDepth' && depth <= maxDepth'
    ensures maxDepth' <= Max(maxDepth, depth + |s| + |p|)
    decreases |s| + |p|
  {
    maxDepth' := Max(maxDepth, depth);
    if p == [] {
      SliceStep(s, p);
      return s == [], maxDepth';
    }
    if p[0] == '*' {
      var q := p;
      while |q| > 1 && q[1] == '*'
        invariant 0 < |q| <= |p| && q[0] == '*'
        invariant MatchChars(s, q) == MatchChars(s, p)
        decreases |q|
      {
        LeadingStars(s, q[2..]);
        assert q == "**" + q[2..];
        assert q[1..] == "*" + q[2..];
        q := q[1..];
      }
      SliceStep(s, q);
      r, maxDepth' := IsMatch(s, q[1..], depth + 1, maxDepth');
      if !r && s != [] {
        r, maxDepth' := IsMatch(s[1..], q, depth + 1, maxDepth');
      }
      return r, maxDepth';
    }
    SliceStep(s, p);
    if s != [] && (p[0] == '?' || p[0] == s[0]) {
      r, maxDepth' := IsMatch(s[1..], p[1..], depth + 1, maxDepth');
      return r, maxDepth';
    }
    return false, maxDepth';
  }

  /** RecursiveSolver::runAndProfile: the match and one frame per level reached. */
  method RunAndProfile(s: string, p: string) returns (profile: SolverProfile)
    ensures profile.result == MatchChars(s, p)
    ensures profile.extraSpaceBytes <= (|s| + |p|) * FrameBytes
  {
    var result, maxDepth := IsMatch(s, p, 0, 0);
    profile := SolverProfile(result, maxDepth * FrameBytes);
    assert maxDepth * FrameBytes <= (|s| + |p|) * FrameBytes;
  }
}
