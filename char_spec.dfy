/**
 * Reference semantics of a raw character pattern, as the character-level
 * backtracking matcher defines it (include/solvers/recursive.hpp:83-100): `*`
 * matches any run, `?` any one character, every other pattern character itself;
 * `\` is an ordinary character here.
 *
 * Each pattern character is one token (CharTokens), so the character semantics is
 * the token semantics of that token list; the prefix recurrences of the table
 * matchers follow from the token ones.
 */
module CharSpec {
  import opened Tokens
  import opened TokenSpec

  /** Does s[i..] match p[j..]? */
  function MatchCharsAt(s: string, p: string, i: nat, j: nat): bool
    requires i <= |s| && j <= |p|
    decreases |p| - j, |s| - i
  {
    if j == |p| then i == |s|
    else if p[j] == '*' then
      MatchCharsAt(s, p, i, j + 1) || (i < |s| && MatchCharsAt(s, p, i + 1, j))
    else
      i < |s| && (p[j] == '?' || p[j] == s[i]) && MatchCharsAt(s, p, i + 1, j + 1)
  }

  /** Does the whole text match the whole pattern? */
  function MatchChars(s: string, p: string): bool
  {
    MatchCharsAt(s, p, 0, 0)
  }

  /** The token a single pattern character stands for. */
  function CharToken(c: char): Token
  {
    if c == '*' then AnySequence
    else if c == '?' then AnyChar
    else LiteralSequence([c])
  }

  /** The pattern read one token per character, index for index. */
  function CharTokens(p: string): (ts: seq<Token>)
    ensures |ts| == |p|
    ensures forall k :: 0 <= k < |p| ==> ts[k] == CharToken(p[k])
    ensures NoCharacterSet(ts) && NonEmptyLiterals(ts)
  {
    seq(|p|, k requires 0 <= k < |p| => CharToken(p[k]))
  }

  /** Reading a pattern prefix per character is the prefix of the per-character reading. */
  lemma CharTokensPrefix(p: string, j: nat)
    requires j <= |p|
    ensures CharTokens(p[..j]) == CharTokens(p)[..j]
  {
  }

  /** The character semantics is the token semantics of the per-character tokens. */
  lemma {:induction false} CharsAsTokens(s: string, p: string, i: nat, j: nat)
    requires i <= |s| && j <= |p|
    ensures MatchCharsAt(s, p, i, j) == MatchTokensAt(s, CharTokens(p), i, j)
    decreases |p| - j, |s| - i
  {
    var ts := CharTokens(p);
    if j < |p| {
      if p[j] == '*' {
        CharsAsTokens(s, p, i, j + 1);
        if i < |s| {
          CharsAsTokens(s, p, i + 1, j);
        }
        assert MatchTokensAt(s, ts, i, j) ==
               (MatchTokensAt(s, ts, i, j + 1) || (i < |s| && MatchTokensAt(s, ts, i + 1, j)));
      } else if i < |s| {
        CharsAsTokens(s, p, i + 1, j + 1);
        if p[j] != '?' {
          assert ts[j] == LiteralSequence([p[j]]);
          assert s[i..i + 1] == [s[i]];
          assert MatchTokensAt(s, ts, i, j) ==
                 (s[i..i + 1] == [p[j]] && MatchTokensAt(s, ts, i + 1, j + 1));
        }
      } else if p[j] != '?' {
        assert ts[j] == LiteralSequence([p[j]]);
      }
    }
  }

  /** Whole-pattern form of the bridge. */
  lemma CharsMatchTokens(s: string, p: string)
    ensures MatchChars(s, p) == MatchTokens(s, CharTokens(p))
  {
    CharsAsTokens(s, p, 0, 0);
  }

  /** Matching suffixes at (i, j) is matching the sliced suffixes from their start (string_view slicing). */
  lemma {:induction false} CharsShift(s: string, p: string, a: nat, b: nat, i: nat, j: nat)
    requires a <= i <= |s| && b <= j <= |p|
    ensures MatchCharsAt(s, p, i, j) == MatchCharsAt(s[a..], p[b..], i - a, j - b)
    decreases |p| - j, |s| - i
  {
    if j < |p| {
      assert p[b..][j - b] == p[j];
      if i < |s| {
        assert s[a..][i - a] == s[i];
        CharsShift(s, p, a, b, i + 1, j + 1);
      }
      if p[j] == '*' {
        CharsShift(s, p, a, b, i, j + 1);
        if i < |s| {
          CharsShift(s, p, a, b, i + 1, j);
        }
      }
    }
  }

  /** The suffix problem at (i, j) is the whole problem on the slices s[i..] and p[j..]. */
  lemma CharsSuffix(s: string, p: string, i: nat, j: nat)
    requires i <= |s| && j <= |p|
    ensures MatchCharsAt(s, p, i, j) == MatchChars(s[i..], p[j..])
  {
    CharsShift(s, p, i, j, i, j);
  }

  /**
   * The slice form of the recurrence: an empty pattern matches only the empty text;
   * a leading star is dropped or consumes one character; any other leading pattern
   * character must meet an equal character or face a `?`.
   */
  lemma SliceStep(s: string, p: string)
    ensures p == [] ==> (MatchChars(s, p) <==> s == [])
    ensures p != [] && p[0] == '*' ==>
              (MatchChars(s, p) <==> MatchChars(s, p[1..]) || (s != [] && MatchChars(s[1..], p)))
    ensures p != [] && p[0] != '*' ==>
              (MatchChars(s, p) <==>
                 s != [] && (p[0] == '?' || p[0] == s[0]) && MatchChars(s[1..], p[1..]))
  {
    if p != [] {
      CharsShift(s, p, 0, 1, 0, 1);
      if s != [] {
        CharsShift(s, p, 1, 0, 1, 0);
        CharsShift(s, p, 1, 1, 1, 1);
      }
    }
  }

  /** A leading `**` matches exactly what a leading `*` matches. */
  lemma {:induction false} LeadingStars(s: string, r: string)
    ensures MatchChars(s, "**" + r) == MatchChars(s, "*" + r)
    decreases |s|
  {
    var two := "**" + r;
    var one := "*" + r;
    assert two[1..] == one;
    SliceStep(s, two);
    SliceStep(s, one);
    if s != [] {
      LeadingStars(s[1..], r);
      SliceStep(s[1..], one);
    }
  }

  // ---------------------------------------------------------------------------
  // The prefix view of the character tables.

  /** Does s[..i] match p[..j]? */
  function MatchCharsPrefix(s: string, p: string, i: nat, j: nat): bool
    requires i <= |s| && j <= |p|
  {
    MatchChars(s[..i], p[..j])
  }

  /** The character prefix cell is the token prefix cell of the per-character tokens. */
  lemma CharsPrefixAsTokens(s: string, p: string, i: nat, j: nat)
    requires i <= |s| && j <= |p|
    ensures MatchCharsPrefix(s, p, i, j) == MatchTokensPrefix(s, CharTokens(p), i, j)
  {
    CharsMatchTokens(s[..i], p[..j]);
    CharTokensPrefix(p, j);
  }

  /** The full-length prefix is the whole problem. */
  lemma CharsPrefixWhole(s: string, p: string)
    ensures MatchCharsPrefix(s, p, |s|, |p|) == MatchChars(s, p)
  {
    assert s[..|s|] == s && p[..|p|] == p;
  }

  /** The prefix recurrence of the character tables (include/dp_solver.hpp:61-84). */
  lemma CharsPrefixStep(s: string, p: string, i: nat, j: nat)
    requires i <= |s| && j <= |p|
    ensures j == 0 ==> (MatchCharsPrefix(s, p, i, j) <==> i == 0)
    ensures 0 < j && p[j - 1] == '*' ==>
              (MatchCharsPrefix(s, p, i, j) <==>
                 MatchCharsPrefix(s, p, i, j - 1) || (i > 0 && MatchCharsPrefix(s, p, i - 1, j)))
    ensures 0 < j && p[j - 1] != '*' ==>
              (MatchCharsPrefix(s, p, i, j) <==>
                 i > 0 && (p[j - 1] == '?' || p[j - 1] == s[i - 1]) &&
                 MatchCharsPrefix(s, p, i - 1, j - 1))
  {
    var ts := CharTokens(p);
    CharsPrefixAsTokens(s, p, i, j);
    if j == 0 {
      PrefixColumnZero(s, ts, i);
    } else {
      CharsPrefixAsTokens(s, p, i, j - 1);
      if i > 0 {
        CharsPrefixAsTokens(s, p, i - 1, j);
        CharsPrefixAsTokens(s, p, i - 1, j - 1);
      }
      if p[j - 1] == '*' {
        PrefixStar(s, ts, i, j);
      } else if p[j - 1] == '?' {
        PrefixAnyChar(s, ts, i, j);
      } else {
        PrefixLiteral(s, ts, i, j);
        if i > 0 {
          assert s[i - 1..i] == [s[i - 1]];
        }
      }
    }
  }

  /** Every pattern character before j is a star. */
  predicate AllStarChars(p: string, j: nat)
    requires j <= |p|
  {
    forall k :: 0 <= k < j ==> p[k] == '*'
  }

  /** Row 0: the empty text matches p[..j] exactly when p[..j] is all stars. */
  lemma CharsRowZero(s: string, p: string, j: nat)
    requires j <= |p|
    ensures MatchCharsPrefix(s, p, 0, j) <==> AllStarChars(p, j)
  {
    var ts := CharTokens(p);
    CharsPrefixAsTokens(s, p, 0, j);
    PrefixRowZero(s, ts, j);
    assert AllStars(ts, j) <==> AllStarChars(p, j);
  }
}
