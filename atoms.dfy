/**
 * The character-granular meaning of a pattern: a sequence of atoms, each a star, a
 * single-character wildcard or one literal character, matched against a whole text.
 *
 * Both pattern forms of the system (raw character patterns and token sequences)
 * are given this meaning, and the lemmas here (splitting a match at a point of
 * the text, reading a match from its last atom, merging adjacent stars) are the
 * facts that the table-based matchers and the tokenizer's merging rely on.
 */
module Atoms {

  datatype Atom = Star | One | Ch(c: char)

  /** Does the whole text `t` match the atoms `a`? */
  function MatchAtoms(t: string, a: seq<Atom>): bool
    decreases |a|, |t|
  {
    if a == [] then t == []
    else match a[0]
      case Star => MatchAtoms(t, a[1..]) || (t != [] && MatchAtoms(t[1..], a))
      case One => t != [] && MatchAtoms(t[1..], a[1..])
      case Ch(c) => t != [] && t[0] == c && MatchAtoms(t[1..], a[1..])
  }

  /** The atoms of a literal run: one Ch per character. */
  function Lits(l: string): (a: seq<Atom>)
    ensures |a| == |l|
    ensures forall k :: 0 <= k < |l| ==> a[k] == Ch(l[k])
  {
    if l == [] then [] else [Ch(l[0])] + Lits(l[1..])
  }

  /** A lone star matches every text. */
  lemma {:induction false} StarMatchesAll(t: string)
    ensures MatchAtoms(t, [Star])
    decreases |t|
  {
    if t != [] {
      StarMatchesAll(t[1..]);
    }
  }

  /** A literal run followed by more atoms matches exactly when the text starts with the run. */
  lemma {:induction false} LitsPrefix(u: string, l: string, rest: seq<Atom>)
    ensures MatchAtoms(u, Lits(l) + rest) <==>
              |l| <= |u| && u[..|l|] == l && MatchAtoms(u[|l|..], rest)
    decreases |l|
  {
    if l == [] {
      assert Lits(l) + rest == rest;
      assert u[..0] == l && u[0..] == u;
    } else {
      var a := Lits(l) + rest;
      assert a[0] == Ch(l[0]);
      assert a[1..] == Lits(l[1..]) + rest;
      if u != [] {
        LitsPrefix(u[1..], l[1..], rest);
        if |l| <= |u| {
          assert u[1..][|l| - 1..] == u[|l|..];
          assert u[..|l|] == l <==> u[0] == l[0] && u[1..][..|l| - 1] == l[1..];
        }
      }
    }
  }

  /** A literal run alone matches exactly the text equal to it. */
  lemma LitsMatch(u: string, l: string)
    ensures MatchAtoms(u, Lits(l)) <==> u == l
  {
    LitsPrefix(u, l, []);
    assert Lits(l) + [] == Lits(l);
    if |l| <= |u| && u[..|l|] == l {
      assert MatchAtoms(u[|l|..], []) <==> u[|l|..] == [];
    }
  }

  /** Matches of two pattern parts against two consecutive text parts compose. */
  lemma {:induction false} SplitIntro(t: string, x: seq<Atom>, y: seq<Atom>, k: nat)
    requires k <= |t|
    requires MatchAtoms(t[..k], x) && MatchAtoms(t[k..], y)
    ensures MatchAtoms(t, x + y)
    decreases |x|, |t|
  {
    if x == [] {
      assert x + y == y;
      assert t[k..] == t;
    } else {
      assert (x + y)[0] == x[0];
      assert (x + y)[1..] == x[1..] + y;
      var u := t[..k];
      match x[0]
      case Star =>
        if MatchAtoms(u, x[1..]) {
          SplitIntro(t, x[1..], y, k);
        } else {
          assert u != [] && MatchAtoms(u[1..], x);
          assert u[1..] == t[1..][..k - 1];
          assert t[k..] == t[1..][k - 1..];
          SplitIntro(t[1..], x, y, k - 1);
        }
      case One =>
        assert u[1..] == t[1..][..k - 1];
        assert t[k..] == t[1..][k - 1..];
        SplitIntro(t[1..], x[1..], y, k - 1);
      case Ch(c) =>
        assert u[0] == t[0];
        assert u[1..] == t[1..][..k - 1];
        assert t[k..] == t[1..][k - 1..];
        SplitIntro(t[1..], x[1..], y, k - 1);
    }
  }

  /** A match of a concatenated pattern splits at some point of the text. */
  lemma {:induction false} SplitElim(t: string, x: seq<Atom>, y: seq<Atom>) returns (k: nat)
    requires MatchAtoms(t, x + y)
    ensures k <= |t| && MatchAtoms(t[..k], x) && MatchAtoms(t[k..], y)
    decreases |x|, |t|
  {
    if x == [] {
      assert x + y == y;
      k := 0;
      assert t[0..] == t;
    } else {
      assert (x + y)[0] == x[0];
      assert (x + y)[1..] == x[1..] + y;
      match x[0]
      case Star =>
        if MatchAtoms(t, x[1..] + y) {
          k := SplitElim(t, x[1..], y);
        } else {
          var k' := SplitElim(t[1..], x, y);
          k := k' + 1;
          assert t[..k][1..] == t[1..][..k'];
          assert t[k..] == t[1..][k'..];
        }
      case One =>
        var k' := SplitElim(t[1..], x[1..], y);
        k := k' + 1;
        assert t[..k][1..] == t[1..][..k'];
        assert t[k..] == t[1..][k'..];
      case Ch(c) =>
        var k' := SplitElim(t[1..], x[1..], y);
        k := k' + 1;
        assert t[..k][1..] == t[1..][..k'];
        assert t[k..] == t[1..][k'..];
    }
  }

  /** Reading a match from a final star: the star is empty, or it takes the last character. */
  lemma EndStar(t: string, x: seq<Atom>)
    ensures MatchAtoms(t, x + [Star]) <==>
              MatchAtoms(t, x) || (t != [] && MatchAtoms(t[..|t| - 1], x + [Star]))
  {
    if MatchAtoms(t, x + [Star]) {
      var k := SplitElim(t, x, [Star]);
      if k == |t| {
        assert t[..k] == t;
      } else {
        var t' := t[..|t| - 1];
        assert t'[..k] == t[..k];
        StarMatchesAll(t'[k..]);
        SplitIntro(t', x, [Star], k);
      }
    }
    if MatchAtoms(t, x) {
      assert t[..|t|] == t;
      StarMatchesAll(t[|t|..]);
      SplitIntro(t, x, [Star], |t|);
    }
    if t != [] && MatchAtoms(t[..|t| - 1], x + [Star]) {
      var t' := t[..|t| - 1];
      var k := SplitElim(t', x, [Star]);
      assert t'[..k] == t[..k];
      StarMatchesAll(t[k..]);
      SplitIntro(t, x, [Star], k);
    }
  }

  /** Reading a match from a final literal run: the text must end with the run. */
  lemma EndLits(t: string, x: seq<Atom>, l: string)
    ensures MatchAtoms(t, x + Lits(l)) <==>
              |l| <= |t| && t[|t| - |l|..] == l && MatchAtoms(t[..|t| - |l|], x)
  {
    var a := Lits(l);
    if MatchAtoms(t, x + a) {
      var k := SplitElim(t, x, a);
      var v := t[k..];
      LitsMatch(v, l);
      assert |v| == |t| - k;
    }
    if |l| <= |t| && t[|t| - |l|..] == l && MatchAtoms(t[..|t| - |l|], x) {
      var k := |t| - |l|;
      LitsMatch(t[k..], l);
      SplitIntro(t, x, a, k);
    }
  }

  /** Reading a match from a final single-character wildcard. */
  lemma EndOne(t: string, x: seq<Atom>)
    ensures MatchAtoms(t, x + [One]) <==> t != [] && MatchAtoms(t[..|t| - 1], x)
  {
    if MatchAtoms(t, x + [One]) {
      var k := SplitElim(t, x, [One]);
      var u := t[k..];
      assert u != [] && MatchAtoms(u[1..], []);
      assert k == |t| - 1;
    }
    if t != [] && MatchAtoms(t[..|t| - 1], x) {
      var u := t[|t| - 1..];
      assert u[1..] == [];
      assert MatchAtoms(u, [One]);
      SplitIntro(t, x, [One], |t| - 1);
    }
  }

  /** Two adjacent stars at the head of a pattern match what one star matches. */
  lemma {:induction false} DoubleStarHead(t: string, r: seq<Atom>)
    ensures MatchAtoms(t, [Star, Star] + r) == MatchAtoms(t, [Star] + r)
    decreases |t|
  {
    var two := [Star, Star] + r;
    var one := [Star] + r;
    assert two[1..] == one;
    assert one[1..] == r;
    if t != [] {
      DoubleStarHead(t[1..], r);
    }
  }

  /** Two adjacent stars anywhere in a pattern match what one star matches. */
  lemma DoubleStar(t: string, u: seq<Atom>, r: seq<Atom>)
    ensures MatchAtoms(t, u + [Star, Star] + r) == MatchAtoms(t, u + [Star] + r)
  {
    var two := [Star, Star] + r;
    var one := [Star] + r;
    assert u + [Star, Star] + r == u + two;
    assert u + [Star] + r == u + one;
    if MatchAtoms(t, u + two) {
      var k := SplitElim(t, u, two);
      DoubleStarHead(t[k..], r);
      SplitIntro(t, u, one, k);
    }
    if MatchAtoms(t, u + one) {
      var k := SplitElim(t, u, one);
      DoubleStarHead(t[k..], r);
      SplitIntro(t, u, two, k);
    }
  }
}
