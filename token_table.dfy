/**
 * The table the bottom-up token matchers fill (include/solvers/dp.hpp and
 * src/solvers/dp.cpp), as a function of the cell: row 0 follows stars only,
 * column 0 below it is false, and every other cell follows the kind of its token.
 * With no empty literal, every cell is the prefix answer of the reference
 * semantics.
 */
module TokenTable {
  import opened Tokens
  import opened TokenSpec

  /** Cell (i, j) of the table. */
  function DpTable(text: string, tokens: seq<Token>, i: nat, j: nat): bool
    requires i <= |text| && j <= |tokens|
    decreases i, j
  {
    if i == 0 && j == 0 then true
    else if i == 0 then tokens[j - 1].AnySequence? && DpTable(text, tokens, 0, j - 1)
    else if j == 0 then false
    else match tokens[j - 1]
      case AnySequence => DpTable(text, tokens, i, j - 1) || DpTable(text, tokens, i - 1, j)
      case AnyChar => DpTable(text, tokens, i - 1, j - 1)
      case LiteralSequence(l) =>
        |l| <= i && text[i - |l|..i] == l && DpTable(text, tokens, i - |l|, j - 1)
      case CharacterSet(_) => false
  }

  /** Row 0 holds exactly behind an unbroken run of stars. */
  lemma {:induction false} TableRowZero(text: string, tokens: seq<Token>, j: nat)
    requires j <= |tokens|
    ensures DpTable(text, tokens, 0, j) <==> AllStars(tokens, j)
  {
    if j > 0 {
      TableRowZero(text, tokens, j - 1);
    }
  }

  /** With no CharacterSet and no empty literal, every cell is the reference prefix answer. */
  lemma {:induction false} TableCorrect(text: string, tokens: seq<Token>, i: nat, j: nat)
    requires i <= |text| && j <= |tokens|
    requires NoCharacterSet(tokens) && NonEmptyLiterals(tokens)
    ensures DpTable(text, tokens, i, j) == MatchTokensPrefix(text, tokens, i, j)
    decreases i, j
  {
    if i == 0 {
      TableRowZero(text, tokens, j);
      PrefixRowZero(text, tokens, j);
    } else if j == 0 {
      PrefixColumnZero(text, tokens, i);
    } else {
      match tokens[j - 1]
      case AnySequence =>
        TableCorrect(text, tokens, i, j - 1);
        TableCorrect(text, tokens, i - 1, j);
        PrefixStar(text, tokens, i, j);
      case AnyChar =>
        TableCorrect(text, tokens, i - 1, j - 1);
        PrefixAnyChar(text, tokens, i, j);
      case LiteralSequence(l) =>
        if |l| <= i {
          TableCorrect(text, tokens, i - |l|, j - 1);
        }
        PrefixLiteral(text, tokens, i, j);
    }
  }

  /** The last cell decides the whole problem. */
  lemma TableDecides(text: string, tokens: seq<Token>)
    requires NoCharacterSet(tokens) && NonEmptyLiterals(tokens)
    ensures DpTable(text, tokens, |text|, |tokens|) == MatchTokens(text, tokens)
  {
    TableCorrect(text, tokens, |text|, |tokens|);
    PrefixWhole(text, tokens);
  }

  /**
   * An empty literal is where the table and the reference part ways: row 0 skips
   * only stars, while an empty literal matches the empty text.
   */
  lemma EmptyLiteralRowZero()
    ensures NoCharacterSet([LiteralSequence([])])
    ensures !DpTable([], [LiteralSequence([])], 0, 1)
    ensures MatchTokens([], [LiteralSequence([])])
  {
    var ts: seq<Token> := [LiteralSequence([])];
    assert MatchTokensAt([], ts, 0, 1);
  }
}
