/**
 * The memoized token matcher (include/solvers/memo.hpp): a recursion on the
 * indices (i, j) whose answers are cached in an (m+1) x (n+1) table of optional
 * booleans, and which records the deepest recursion level it reaches.
 */
module TokenMemo {
  import opened Wrappers
  import opened Tokens
  import opened Atoms
  import opened TokenSpec
  import opened Profiling
  import Parser

  /** The bytes of one stack frame: two size_t indices and a return address. */
  const FrameBytes: nat := SizeOfSizeT * 2 + SizeOfPointer

  class MemoSolver {
    const text: string
    const tokens: seq<Token>
    const m: nat
    const n: nat
    /** memo[i, j] caches whether text[i..] matches tokens[j..]. */
    const memo: array2<Option<bool>>
    var maxDepth: nat

    /** Every cached answer is the answer of the reference recurrence. */
    ghost predicate Valid()
      reads this, memo
    {
      m == |text| && n == |tokens| && NoCharacterSet(tokens) &&
      memo.Length0 == m + 1 && memo.Length1 == n + 1 &&
      forall i, j :: 0 <= i <= m && 0 <= j <= n && memo[i, j].Some? ==>
        memo[i, j].value == MatchTokensAt(text, tokens, i, j)
    }

    /** An empty table and a depth of zero. */
    constructor (text: string, tokens: seq<Token>)
      requires NoCharacterSet(tokens)
      ensures Valid() && fresh(memo)
      ensures this.text == text && this.tokens == tokens && maxDepth == 0
      ensures forall i, j :: 0 <= i <= m && 0 <= j <= n ==> memo[i, j].None?
    {
      this.text := text;
      this.tokens := tokens;
      m := |text|;
      n := |tokens|;
      memo := new Option<bool>[|text| + 1, |tokens| + 1]((i, j) => None);
      maxDepth := 0;
    }

    /**
     * MemoSolver::isMatch(i, j, depth): the reference answer for (i, j), which ends
     * up cached; the depth reached is at least `depth` and at most `depth` plus the
     * number of characters and tokens still to consume.
     */
    method IsMatch(i: nat, j: nat, depth: nat) returns (r: bool)
      requires Valid() && i <= m && j <= n
      modifies this`maxDepth, memo
      ensures Valid()
      ensures r == MatchTokensAt(text, tokens, i, j)
      ensures memo[i, j] == Some(r)
      ensures old(maxDepth) <= maxDepth && depth <= maxDepth
      ensures maxDepth <= Max(old(maxDepth), depth + (m - i) + (n - j))
      decreases (m - i) + (n - j), 1
    {
      maxDepth := Max(maxDepth, depth);
      if memo[i, j].Some? {
        return memo[i, j].value;
      }
      r := Compute(i, j, depth);
      memo[i, j] := Some(r);
    }

    /** The body of isMatch below the cache lookup: one case per kind of token. */
    method Compute(i: nat, j: nat, depth: nat) returns (ans: bool)
      requires Valid() && i <= m && j <= n && depth <= maxDepth
      modifies this`maxDepth, memo
      ensures Valid()
      ensures ans == MatchTokensAt(text, tokens, i, j)
      ensures old(maxDepth) <= maxDepth <= Max(old(maxDepth), depth + (m - i) + (n - j))
      decreases (m - i) + (n - j), 0
    {
      ans := false;
      if j == n {
        ans := i == m;
      } else {
        match tokens[j] {
          case AnySequence =>
            // The star matches nothing, or it takes one more character.
            ans := IsMatch(i, j + 1, depth + 1);
            if !ans && i < m {
              ans := IsMatch(i + 1, j, depth + 1);
            }
          case AnyChar =>
            if i < m {
              ans := IsMatch(i + 1, j + 1, depth + 1);
            }
          case LiteralSequence(literal) =>
            if i + |literal| <= m && text[i..i + |literal|] == literal {
              ans := IsMatch(i + |literal|, j + 1, depth + 1);
            }
          case CharacterSet(_) =>
        }
      }
    }

    /** MemoSolver::run: the match from (0, 0) and the table plus the deepest stack. */
    method Run() returns (profile: SolverProfile)
      requires Valid()
      modifies this`maxDepth, memo
      ensures Valid()
      ensures profile.result == MatchTokens(text, tokens)
      ensures old(maxDepth) <= maxDepth <= Max(old(maxDepth), m + n)
      ensures profile.extraSpaceBytes == TableBytes(m, n, SizeOfOptionalBool) + maxDepth * FrameBytes
    {
      var result := IsMatch(0, 0, 0);
      profile := SolverProfile(result, TableBytes(m, n, SizeOfOptionalBool) + maxDepth * FrameBytes);
    }
  }

  /**
   * MemoSolver::runAndProfile on tokens: a fresh solver, run once. The stack part
   * of the estimate is at most one frame per character and token.
   */
  method RunAndProfile(text: string, tokens: seq<Token>) returns (profile: SolverProfile)
    requires NoCharacterSet(tokens)
    ensures profile.result == MatchTokens(text, tokens)
    ensures TableBytes(|text|, |tokens|, SizeOfOptionalBool) <= profile.extraSpaceBytes
    ensures profile.extraSpaceBytes <=
              TableBytes(|text|, |tokens|, SizeOfOptionalBool) + (|text| + |tokens|) * FrameBytes
  {
    var solver := new MemoSolver(text, tokens);
    profile := solver.Run();
    assert solver.maxDepth * FrameBytes <= (|text| + |tokens|) * FrameBytes;
  }

  /** MemoSolver::runAndProfile on a raw pattern: tokenize, then match. */
  method RunAndProfilePattern(text: string, p: string) returns (profile: SolverProfile)
    ensures profile.result == MatchAtoms(text, Parser.Decode(p, 0))
  {
    var parsed := Parser.Parse(p);
    profile := RunAndProfile(text, parsed.tokens);
  }
}
