/**
 * Reference semantics of a token pattern: the recurrence of the memoized token
 * matcher (include/solvers/memo.hpp:121-148), stated as a pure function on the
 * indices (i, j) into the text and the token list.
 *
 * It is connected to the character-granular semantics of module Atoms, and from
 * there to the prefix recurrence that the bottom-up table matchers compute.
 */
module TokenSpec {
  import opened Tokens
  import opened Atoms

  /** Does text[i..] match tokens[j..]? */
  function MatchTokensAt(text: string, tokens: seq<Token>, i: nat, j: nat): bool
    requires i <= |text| && j <= |tokens|
    requires NoCharacterSet(tokens)
    decreases |tokens| - j, |text| - i
  {
    if j == |tokens| then i == |text|
    else match tokens[j]
      case AnySequence =>
        MatchTokensAt(text, tokens, i, j + 1) ||
        (i < |text| && MatchTokensAt(text, tokens, i + 1, j))
      case AnyChar =>
        i < |text| && MatchTokensAt(text, tokens, i + 1, j + 1)
      case LiteralSequence(l) =>
        i + |l| <= |text| && text[i..i + |l|] == l &&
        MatchTokensAt(text, tokens, i + |l|, j + 1)
      case CharacterSet(_) => false
  }

  /** Does the whole text match the whole token list? */
  function MatchTokens(text: string, tokens: seq<Token>): bool
    requires NoCharacterSet(tokens)
  {
    MatchTokensAt(text, tokens, 0, 0)
  }

  /** The atoms one token stands for. */
  function ExpandToken(t: Token): seq<Atom>
    requires !t.CharacterSet?
  {
    match t
    case AnySequence => [Star]
    case AnyChar => [One]
    case LiteralSequence(l) => Lits(l)
  }

  /** The atoms of a token list: the concatenation of the atoms of its tokens. */
  function Expand(ts: seq<Token>): seq<Atom>
    requires NoCharacterSet(ts)
  {
    if ts == [] then [] else ExpandToken(ts[0]) + Expand(ts[1..])
  }

  /** A concatenation of lists without character sets has none. */
  lemma NoCharacterSetAppend(a: seq<Token>, b: seq<Token>)
    requires NoCharacterSet(a) && NoCharacterSet(b)
    ensures NoCharacterSet(a + b)
  {
    forall k | 0 <= k < |a + b|
      ensures !(a + b)[k].CharacterSet?
    {
      if k >= |a| {
        assert (a + b)[k] == b[k - |a|];
      }
    }
  }

  /** Expansion distributes over concatenation. */
  lemma {:induction false} ExpandAppend(a: seq<Token>, b: seq<Token>)
    requires NoCharacterSet(a) && NoCharacterSet(b)
    ensures NoCharacterSet(a + b)
    ensures Expand(a + b) == Expand(a) + Expand(b)
    decreases |a|
  {
    NoCharacterSetAppend(a, b);
    if a == [] {
      assert a + b == b;
    } else {
      var t, ab, rest := a[0], a + b, a[1..] + b;
      assert ab[0] == t && ab[1..] == rest;
      ExpandAppend(a[1..], b);
      var x, y, z := ExpandToken(t), Expand(a[1..]), Expand(b);
      assert Expand(ab) == x + Expand(rest) == x + (y + z);
      assert x + (y + z) == (x + y) + z;
    }
  }

  /** One step of the atom semantics at the head of tokens[j..], read per kind of token. */
  lemma AtomsStep(text: string, ts: seq<Token>, i: nat, j: nat)
    requires i <= |text| && j < |ts|
    requires NoCharacterSet(ts)
    ensures ts[j].AnySequence? ==>
              MatchAtoms(text[i..], Expand(ts[j..])) ==
              (MatchAtoms(text[i..], Expand(ts[j + 1..])) ||
               (i < |text| && MatchAtoms(text[i + 1..], Expand(ts[j..]))))
    ensures ts[j].AnyChar? ==>
              MatchAtoms(text[i..], Expand(ts[j..])) ==
              (i < |text| && MatchAtoms(text[i + 1..], Expand(ts[j + 1..])))
    ensures ts[j].LiteralSequence? ==>
              var l := ts[j].value;
              MatchAtoms(text[i..], Expand(ts[j..])) ==
              (i + |l| <= |text| && text[i..i + |l|] == l &&
               MatchAtoms(text[i + |l|..], Expand(ts[j + 1..])))
  {
    var u := text[i..];
    var rest := Expand(ts[j + 1..]);
    assert ts[j..][0] == ts[j];
    assert ts[j..][1..] == ts[j + 1..];
    var whole := Expand(ts[j..]);
    assert whole == ExpandToken(ts[j]) + rest;
    match ts[j]
    case AnySequence =>
      assert whole[0] == Star && whole[1..] == rest;
      if i < |text| {
        assert u[1..] == text[i + 1..];
      }
    case AnyChar =>
      assert whole[0] == One && whole[1..] == rest;
      if i < |text| {
        assert u[1..] == text[i + 1..];
      }
    case LiteralSequence(l) =>
      LitsPrefix(u, l, rest);
      if i + |l| <= |text| {
        assert u[..|l|] == text[i..i + |l|];
        assert u[|l|..] == text[i + |l|..];
      }
  }

  /** The index recurrence and the atom semantics agree on every pair of suffixes. */
  lemma {:induction false} TokensAsAtoms(text: string, ts: seq<Token>, i: nat, j: nat)
    requires i <= |text| && j <= |ts|
    requires NoCharacterSet(ts)
    ensures MatchTokensAt(text, ts, i, j) == MatchAtoms(text[i..], Expand(ts[j..]))
    decreases |ts| - j, |text| - i
  {
    if j == |ts| {
      assert ts[j..] == [];
    } else {
      AtomsStep(text, ts, i, j);
      match ts[j]
      case AnySequence =>
        TokensAsAtoms(text, ts, i, j + 1);
        if i < |text| {
          TokensAsAtoms(text, ts, i + 1, j);
        }
        assert MatchTokensAt(text, ts, i, j) ==
               (MatchTokensAt(text, ts, i, j + 1) ||
                (i < |text| && MatchTokensAt(text, ts, i + 1, j)));
      case AnyChar =>
        if i < |text| {
          TokensAsAtoms(text, ts, i + 1, j + 1);
        }
        assert MatchTokensAt(text, ts, i, j) ==
               (i < |text| && MatchTokensAt(text, ts, i + 1, j + 1));
      case LiteralSequence(l) =>
        if i + |l| <= |text| {
          TokensAsAtoms(text, ts, i + |l|, j + 1);
        }
        assert MatchTokensAt(text, ts, i, j) ==
               (i + |l| <= |text| && text[i..i + |l|] == l &&
                MatchTokensAt(text, ts, i + |l|, j + 1));
    }
  }

  /** The whole-text form of the bridge. */
  lemma TokensMatchAtoms(text: string, ts: seq<Token>)
    requires NoCharacterSet(ts)
    ensures MatchTokens(text, ts) == MatchAtoms(text, Expand(ts))
  {
    TokensAsAtoms(text, ts, 0, 0);
    assert text[0..] == text && ts[0..] == ts;
  }

  // ---------------------------------------------------------------------------
  // The prefix view of the bottom-up tables: cell (i, j) says whether the first
  // i characters match the first j tokens.

  /** Does text[..i] match tokens[..j]? */
  function MatchTokensPrefix(text: string, tokens: seq<Token>, i: nat, j: nat): bool
    requires i <= |text| && j <= |tokens|
    requires NoCharacterSet(tokens)
  {
    MatchTokens(text[..i], tokens[..j])
  }

  /** The full-length prefix is the whole problem. */
  lemma PrefixWhole(text: string, tokens: seq<Token>)
    requires NoCharacterSet(tokens)
    ensures MatchTokensPrefix(text, tokens, |text|, |tokens|) == MatchTokens(text, tokens)
  {
    assert text[..|text|] == text && tokens[..|tokens|] == tokens;
  }

  /** Expanding a list with one more token appends that token's atoms. */
  lemma ExpandSnoc(ts: seq<Token>, t: Token)
    requires NoCharacterSet(ts) && !t.CharacterSet?
    ensures NoCharacterSet(ts + [t])
    ensures Expand(ts + [t]) == Expand(ts) + ExpandToken(t)
  {
    ExpandAppend(ts, [t]);
    assert [t][1..] == [];
    assert Expand([t]) == ExpandToken(t) + Expand([]);
  }

  /** Cell (i, j) read as atoms, with the last token split off. */
  lemma PrefixAsAtoms(text: string, tokens: seq<Token>, i: nat, j: nat)
    requires i <= |text| && 0 < j <= |tokens|
    requires NoCharacterSet(tokens)
    ensures MatchTokensPrefix(text, tokens, i, j) ==
              MatchAtoms(text[..i], Expand(tokens[..j - 1]) + ExpandToken(tokens[j - 1]))
    ensures MatchTokensPrefix(text, tokens, i, j - 1) == MatchAtoms(text[..i], Expand(tokens[..j - 1]))
  {
    var pre := tokens[..j - 1];
    var t := tokens[j - 1];
    assert NoCharacterSet(pre) && !t.CharacterSet?;
    assert tokens[..j] == pre + [t];
    ExpandSnoc(pre, t);
    TokensMatchAtoms(text[..i], pre + [t]);
    TokensMatchAtoms(text[..i], pre);
  }

  /** Column 0: no tokens match exactly the empty prefix of the text. */
  lemma PrefixColumnZero(text: string, tokens: seq<Token>, i: nat)
    requires i <= |text| && NoCharacterSet(tokens)
    ensures MatchTokensPrefix(text, tokens, i, 0) <==> i == 0
  {
    assert tokens[..0] == [];
  }

  /** A star cell: the star is empty (left cell) or takes text[i-1] (upper cell). */
  lemma PrefixStar(text: string, tokens: seq<Token>, i: nat, j: nat)
    requires i <= |text| && 0 < j <= |tokens|
    requires NoCharacterSet(tokens) && tokens[j - 1].AnySequence?
    ensures MatchTokensPrefix(text, tokens, i, j) <==>
              MatchTokensPrefix(text, tokens, i, j - 1) ||
              (i > 0 && MatchTokensPrefix(text, tokens, i - 1, j))
  {
    PrefixAsAtoms(text, tokens, i, j);
    var x := Expand(tokens[..j - 1]);
    EndStar(text[..i], x);
    if i > 0 {
      PrefixAsAtoms(text, tokens, i - 1, j);
      assert text[..i][..i - 1] == text[..i - 1];
    }
  }

  /** A single-character wildcard cell copies the diagonal. */
  lemma PrefixAnyChar(text: string, tokens: seq<Token>, i: nat, j: nat)
    requires i <= |text| && 0 < j <= |tokens|
    requires NoCharacterSet(tokens) && tokens[j - 1].AnyChar?
    ensures MatchTokensPrefix(text, tokens, i, j) <==>
              i > 0 && MatchTokensPrefix(text, tokens, i - 1, j - 1)
  {
    PrefixAsAtoms(text, tokens, i, j);
    var x := Expand(tokens[..j - 1]);
    EndOne(text[..i], x);
    if i > 0 {
      PrefixAsAtoms(text, tokens, i - 1, j);
      assert text[..i][..i - 1] == text[..i - 1];
    }
  }

  /** A literal cell: the prefix must end with the literal, and the cell copies the one before it. */
  lemma PrefixLiteral(text: string, tokens: seq<Token>, i: nat, j: nat)
    requires i <= |text| && 0 < j <= |tokens|
    requires NoCharacterSet(tokens) && tokens[j - 1].LiteralSequence?
    ensures var l := tokens[j - 1].value;
            MatchTokensPrefix(text, tokens, i, j) <==>
              |l| <= i && text[i - |l|..i] == l && MatchTokensPrefix(text, tokens, i - |l|, j - 1)
  {
    var l := tokens[j - 1].value;
    PrefixAsAtoms(text, tokens, i, j);
    var x := Expand(tokens[..j - 1]);
    EndLits(text[..i], x, l);
    if |l| <= i {
      PrefixAsAtoms(text, tokens, i - |l|, j);
      assert text[..i][i - |l|..] == text[i - |l|..i];
      assert text[..i][..i - |l|] == text[..i - |l|];
    }
  }

  /** Every token before index j is a star. */
  predicate AllStars(tokens: seq<Token>, j: nat)
    requires j <= |tokens|
  {
    forall k :: 0 <= k < j ==> tokens[k].AnySequence?
  }

  /**
   * Row 0: with non-empty literals, the empty text matches the first j tokens
   * exactly when they are all stars.
   */
  lemma {:induction false} PrefixRowZero(text: string, tokens: seq<Token>, j: nat)
    requires j <= |tokens|
    requires NoCharacterSet(tokens) && NonEmptyLiterals(tokens)
    ensures MatchTokensPrefix(text, tokens, 0, j) <==> AllStars(tokens, j)
  {
    if j == 0 {
      PrefixColumnZero(text, tokens, 0);
    } else {
      PrefixRowZero(text, tokens, j - 1);
      match tokens[j - 1]
      case AnySequence =>
        PrefixStar(text, tokens, 0, j);
      case AnyChar =>
        PrefixAnyChar(text, tokens, 0, j);
      case LiteralSequence(l) =>
        PrefixLiteral(text, tokens, 0, j);
    }
  }
}
