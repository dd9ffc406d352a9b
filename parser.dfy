/**
 * The tokenizer (include/utils/parser.hpp): one left-to-right pass over a raw
 * pattern that collects literal runs, turns `?` and `*` into wildcard tokens,
 * merges runs of `*`, decodes `\` escapes and reports diagnostics as data.
 *
 * `Parse` is the imperative pass. `Tokenize` is the same pass as a function
 * (`Step` is one iteration of the loop body, `ScanFrom` the rest of the loop), and
 * the lemmas prove what the pass promises: well-formed tokens, sound and ordered
 * events, and a token list that means what the pattern means (`Decode`).
 */
module Parser {
  import opened Wrappers
  import opened Tokens
  import opened Issues
  import opened Atoms
  import opened TokenSpec
  import opened CharSpec

  /** A diagnostic found while scanning, at a 1-based position of the raw pattern. */
  datatype ParseEvent = ParseEvent(code: IssueCode, position: nat, detail: Option<string>)

  /** The outcome of a parse: the tokens and the events, each in the order produced. */
  datatype ParseResult = ParseResult(tokens: seq<Token>, events: seq<ParseEvent>)

  /** The variables of the scanning loop: tokens so far, the pending literal, events so far. */
  datatype ScanState = ScanState(tokens: seq<Token>, literal: string, events: seq<ParseEvent>)

  const Initial: ScanState := ScanState([], [], [])

  /** An escape of a character with special meaning: `*`, `?` or `\`. */
  predicate IsDefinedEscape(c: char)
  {
    c == '*' || c == '?' || c == '\\'
  }

  /** The flush_literal_builder lambda: a pending non-empty literal becomes a token. */
  function FlushLiteral(tokens: seq<Token>, literal: string): seq<Token>
  {
    if literal != [] then tokens + [LiteralSequence(literal)] else tokens
  }

  /** The loop state after a flush. */
  function Flush(st: ScanState): ScanState
  {
    ScanState(FlushLiteral(st.tokens, st.literal), [], st.events)
  }

  /** One iteration of the scanning loop at index i: the next index and the new state. */
  function Step(p: string, i: nat, st: ScanState): (r: (nat, ScanState))
    requires i < |p|
    ensures i < r.0 <= |p|
  {
    var c := p[i];
    if c == '?' then
      var f := Flush(st);
      (i + 1, f.(tokens := f.tokens + [AnyChar]))
    else if c == '*' then
      var f := Flush(st);
      if f.tokens != [] && f.tokens[|f.tokens| - 1].AnySequence? then
        (i + 1, f.(events := f.events + [ParseEvent(ConsecutiveAsterisksMerged, i + 1, None)]))
      else
        (i + 1, f.(tokens := f.tokens + [AnySequence]))
    else if c == '\\' then
      if i + 1 < |p| then
        var next := p[i + 1];
        var events :=
          if !IsDefinedEscape(next)
          then st.events + [ParseEvent(UndefinedEscapeSequence, i + 1, Some([next]))]
          else st.events;
        (i + 2, ScanState(st.tokens, st.literal + [next], events))
      else
        (i + 1, st.(events := st.events + [ParseEvent(TrailingBackslash, i + 1, None)]))
    else
      (i + 1, st.(literal := st.literal + [c]))
  }

  /** The state the loop ends in when started at index i in state st. */
  function ScanFrom(p: string, i: nat, st: ScanState): ScanState
    requires i <= |p|
    decreases |p| - i
  {
    if i == |p| then st
    else
      var (i', st') := Step(p, i, st);
      ScanFrom(p, i', st')
  }

  /** Parser::parse as a function: an empty pattern yields nothing, otherwise scan and flush. */
  function Tokenize(p: string): ParseResult
  {
    if p == [] then ParseResult([], [])
    else
      var f := Flush(ScanFrom(p, 0, Initial));
      ParseResult(f.tokens, f.events)
  }

  /** Parser::parse: the single pass with its in-place appends. */
  method Parse(p: string) returns (result: ParseResult)
    ensures result == Tokenize(p)
    ensures WellFormedTokens(result.tokens)
    ensures EventsOrdered(|p|, result.events)
    ensures forall k :: 0 <= k < |result.events| ==> EventSound(p, result.events[k])
    ensures forall t :: MatchTokens(t, result.tokens) == MatchAtoms(t, Decode(p, 0))
  {
    if |p| == 0 {
      TokenizeProperties(p);
      return ParseResult([], []);
    }
    var tokens: seq<Token> := [];
    var literal: string := [];
    var events: seq<ParseEvent> := [];
    var i := 0;
    while i < |p|
      invariant i <= |p|
      invariant ScanFrom(p, i, ScanState(tokens, literal, events)) == ScanFrom(p, 0, Initial)
      decreases |p| - i
    {
      ghost var before := ScanState(tokens, literal, events);
      ghost var start := i;
      var c := p[i];
      if c == '?' {
        if literal != [] {
          tokens := tokens + [LiteralSequence(literal)];
          literal := [];
        }
        tokens := tokens + [AnyChar];
      } else if c == '*' {
        if literal != [] {
          tokens := tokens + [LiteralSequence(literal)];
          literal := [];
        }
        if tokens != [] && tokens[|tokens| - 1].AnySequence? {
          events := events + [ParseEvent(ConsecutiveAsterisksMerged, i + 1, None)];
        } else {
          tokens := tokens + [AnySequence];
        }
      } else if c == '\\' {
        if i + 1 < |p| {
          var next := p[i + 1];
          if next != '*' && next != '?' && next != '\\' {
            events := events + [ParseEvent(UndefinedEscapeSequence, i + 1, Some([next]))];
          }
          literal := literal + [next];
          i := i + 1;
        } else {
          events := events + [ParseEvent(TrailingBackslash, i + 1, None)];
        }
      } else {
        literal := literal + [c];
      }
      i := i + 1;
      assert Step(p, start, before) == (i, ScanState(tokens, literal, events));
    }
    if literal != [] {
      tokens := tokens + [LiteralSequence(literal)];
      literal := [];
    }
    result := ParseResult(tokens, events);
    TokenizeProperties(p);
  }

  // ---------------------------------------------------------------------------
  // What the tokens and events are promised to be.

  /**
   * The token list the tokenizer promises: no CharacterSet, no empty literal, and
   * no two neighbours both literals or both stars.
   */
  predicate WellFormedTokens(ts: seq<Token>)
  {
    NoCharacterSet(ts) && NonEmptyLiterals(ts) &&
    forall k :: 0 <= k < |ts| - 1 ==>
      !(ts[k].LiteralSequence? && ts[k + 1].LiteralSequence?) &&
      !(ts[k].AnySequence? && ts[k + 1].AnySequence?)
  }

  /** Event positions are 1-based, within the pattern, and strictly increasing. */
  predicate EventsOrdered(bound: nat, events: seq<ParseEvent>)
  {
    (forall k :: 0 <= k < |events| ==> 1 <= events[k].position <= bound) &&
    (forall a, b :: 0 <= a < b < |events| ==> events[a].position < events[b].position)
  }

  /**
   * What each event says about the pattern: a merge points at a `*` right after a
   * `*`; an undefined escape points at a `\` followed by a character that is not
   * special, which is its detail; a trailing backslash is the last character. The
   * tokenizer never reports multibyte characters.
   */
  predicate EventSound(p: string, e: ParseEvent)
  {
    match e.code
    case ConsecutiveAsterisksMerged =>
      2 <= e.position <= |p| && p[e.position - 1] == '*' && p[e.position - 2] == '*' &&
      e.detail == None
    case UndefinedEscapeSequence =>
      1 <= e.position < |p| && p[e.position - 1] == '\\' && !IsDefinedEscape(p[e.position]) &&
      e.detail == Some([p[e.position]])
    case TrailingBackslash =>
      e.position == |p| && |p| >= 1 && p[e.position - 1] == '\\' && e.detail == None
    case MultibyteCharacterNotAllowed => false
  }

  /**
   * The meaning of a raw pattern, one atom per pattern unit: `*`, `?`, an escaped
   * character (the escape decoded), a trailing `\` (nothing) or a plain character.
   */
  function Decode(p: string, i: nat): seq<Atom>
    requires i <= |p|
    decreases |p| - i
  {
    if i == |p| then []
    else if p[i] == '*' then [Star] + Decode(p, i + 1)
    else if p[i] == '?' then [One] + Decode(p, i + 1)
    else if p[i] == '\\' then
      if i + 1 < |p| then [Ch(p[i + 1])] + Decode(p, i + 2) else []
    else [Ch(p[i])] + Decode(p, i + 1)
  }

  // ---------------------------------------------------------------------------
  // Proof of the loop's promises.

  /** Appending an atom, merging it into a star that ends the list. */
  function Push(acc: seq<Atom>, x: Atom): seq<Atom>
  {
    if x == Star && acc != [] && acc[|acc| - 1] == Star then acc else acc + [x]
  }

  /** Appending atoms one by one with Push. */
  function CollapseInto(acc: seq<Atom>, a: seq<Atom>): seq<Atom>
    decreases |a|
  {
    if a == [] then acc else CollapseInto(Push(acc, a[0]), a[1..])
  }

  /** Merging stars does not change what a pattern matches. */
  lemma {:induction false} CollapseSound(t: string, acc: seq<Atom>, a: seq<Atom>)
    ensures MatchAtoms(t, CollapseInto(acc, a)) == MatchAtoms(t, acc + a)
    decreases |a|
  {
    if a == [] {
      assert acc + a == acc;
    } else {
      CollapseSound(t, Push(acc, a[0]), a[1..]);
      if a[0] == Star && acc != [] && acc[|acc| - 1] == Star {
        var u := acc[..|acc| - 1];
        assert acc == u + [Star];
        assert acc + a[1..] == u + [Star] + a[1..];
        assert acc + a == u + [Star, Star] + a[1..];
        DoubleStar(t, u, a[1..]);
      } else {
        assert Push(acc, a[0]) + a[1..] == acc + a;
      }
    }
  }

  /** A literal run grows by one atom per character. */
  lemma LitsSnoc(l: string, c: char)
    ensures Lits(l + [c]) == Lits(l) + [Ch(c)]
  {
  }

  /** The last atom of a well-formed token list is a star exactly when its last token is. */
  lemma ExpandLast(ts: seq<Token>)
    requires ts != [] && NoCharacterSet(ts) && NonEmptyLiterals(ts)
    ensures Expand(ts) != []
    ensures Expand(ts)[|Expand(ts)| - 1] == Star <==> ts[|ts| - 1].AnySequence?
  {
    var n := |ts|;
    assert ts == ts[..n - 1] + [ts[n - 1]];
    ExpandAppend(ts[..n - 1], [ts[n - 1]]);
    assert Expand([ts[n - 1]]) == ExpandToken(ts[n - 1]) + Expand([]);
  }

  /** Flushing turns the pending literal into atoms at the end of the token list. */
  lemma ExpandFlush(tokens: seq<Token>, literal: string)
    requires NoCharacterSet(tokens)
    ensures NoCharacterSet(FlushLiteral(tokens, literal))
    ensures Expand(FlushLiteral(tokens, literal)) == Expand(tokens) + Lits(literal)
  {
    if literal != [] {
      ExpandAppend(tokens, [LiteralSequence(literal)]);
      assert Expand([LiteralSequence(literal)]) == Lits(literal) + Expand([]);
    } else {
      assert Expand(tokens) + Lits(literal) == Expand(tokens);
    }
  }

  /** The token list ends in anything but a literal. */
  predicate EndsOffLiteral(ts: seq<Token>)
  {
    ts == [] || !ts[|ts| - 1].LiteralSequence?
  }

  /** The invariant of the scanning loop at index i. */
  predicate ScanInv(p: string, i: nat, st: ScanState)
  {
    i <= |p| &&
    WellFormedTokens(st.tokens) && EndsOffLiteral(st.tokens) &&
    (st.literal == [] && st.tokens != [] && st.tokens[|st.tokens| - 1].AnySequence? ==>
       0 < i && (p[i - 1] == '*' || (i == |p| && p[i - 1] == '\\'))) &&
    EventsOrdered(i, st.events) &&
    (forall k :: 0 <= k < |st.events| ==> EventSound(p, st.events[k]))
  }

  /** The meaning invariant: what is scanned, with stars merged, plus what is left, is the pattern. */
  predicate MeaningInv(p: string, i: nat, st: ScanState)
    requires i <= |p|
  {
    NoCharacterSet(st.tokens) &&
    CollapseInto(Scanned(st), Decode(p, i)) == CollapseInto([], Decode(p, 0))
  }

  /** Appending an event at a position past all others keeps the events ordered. */
  lemma EventsAppend(bound: nat, events: seq<ParseEvent>, e: ParseEvent, bound': nat)
    requires EventsOrdered(bound, events)
    requires bound < e.position <= bound'
    ensures EventsOrdered(bound', events + [e])
  {
  }

  /** Flushing keeps a list that ends off a literal well formed. */
  lemma FlushWellFormed(tokens: seq<Token>, literal: string)
    requires WellFormedTokens(tokens) && EndsOffLiteral(tokens)
    ensures WellFormedTokens(FlushLiteral(tokens, literal))
  {
  }

  /** A `?` keeps the loop invariant. */
  lemma AnyCharKeepsScanInv(p: string, i: nat, st: ScanState)
    requires i < |p| && p[i] == '?' && ScanInv(p, i, st)
    ensures ScanInv(p, i + 1, Flush(st).(tokens := Flush(st).tokens + [AnyChar]))
  {
    FlushWellFormed(st.tokens, st.literal);
  }

  /** A `*` keeps the loop invariant, whether it is merged or appended. */
  lemma StarKeepsScanInv(p: string, i: nat, st: ScanState)
    requires i < |p| && p[i] == '*' && ScanInv(p, i, st)
    ensures var f := Flush(st);
            if f.tokens != [] && f.tokens[|f.tokens| - 1].AnySequence?
            then ScanInv(p, i + 1, f.(events := f.events + [ParseEvent(ConsecutiveAsterisksMerged, i + 1, None)]))
            else ScanInv(p, i + 1, f.(tokens := f.tokens + [AnySequence]))
  {
    FlushWellFormed(st.tokens, st.literal);
    var f := Flush(st);
    if f.tokens != [] && f.tokens[|f.tokens| - 1].AnySequence? {
      assert st.literal == [];
      var e := ParseEvent(ConsecutiveAsterisksMerged, i + 1, None);
      EventsAppend(i, st.events, e, i + 1);
      assert EventSound(p, e);
    }
  }

  /** An escape of a following character keeps the loop invariant. */
  lemma EscapeKeepsScanInv(p: string, i: nat, st: ScanState)
    requires i + 1 < |p| && p[i] == '\\' && ScanInv(p, i, st)
    ensures var next := p[i + 1];
            var events :=
              if !IsDefinedEscape(next)
              then st.events + [ParseEvent(UndefinedEscapeSequence, i + 1, Some([next]))]
              else st.events;
            ScanInv(p, i + 2, ScanState(st.tokens, st.literal + [next], events))
  {
    var next := p[i + 1];
    if !IsDefinedEscape(next) {
      var e := ParseEvent(UndefinedEscapeSequence, i + 1, Some([next]));
      EventsAppend(i, st.events, e, i + 2);
      assert EventSound(p, e);
    }
  }

  /** A final lone backslash keeps the loop invariant. */
  lemma TrailingKeepsScanInv(p: string, i: nat, st: ScanState)
    requires i + 1 == |p| && p[i] == '\\' && ScanInv(p, i, st)
    ensures ScanInv(p, i + 1, st.(events := st.events + [ParseEvent(TrailingBackslash, i + 1, None)]))
  {
    var e := ParseEvent(TrailingBackslash, i + 1, None);
    EventsAppend(i, st.events, e, i + 1);
    assert EventSound(p, e);
  }

  /** One iteration keeps the loop invariant. */
  lemma StepKeepsScanInv(p: string, i: nat, st: ScanState)
    requires i < |p| && ScanInv(p, i, st)
    ensures ScanInv(p, Step(p, i, st).0, Step(p, i, st).1)
  {
    var c := p[i];
    if c == '?' {
      AnyCharKeepsScanInv(p, i, st);
    } else if c == '*' {
      StarKeepsScanInv(p, i, st);
    } else if c == '\\' {
      if i + 1 < |p| {
        EscapeKeepsScanInv(p, i, st);
      } else {
        TrailingKeepsScanInv(p, i, st);
      }
    }
  }

  /** Reading the next atom of the pattern into the accumulator. */
  lemma CollapseStep(acc: seq<Atom>, x: Atom, rest: seq<Atom>)
    ensures CollapseInto(acc, [x] + rest) == CollapseInto(Push(acc, x), rest)
  {
    assert ([x] + rest)[0] == x;
    assert ([x] + rest)[1..] == rest;
  }

  /** Atoms scanned so far: the tokens, then the pending literal. */
  function Scanned(st: ScanState): seq<Atom>
    requires NoCharacterSet(st.tokens)
  {
    Expand(st.tokens) + Lits(st.literal)
  }

  /** Reading one atom x of the pattern, with the state growing by Push, keeps the meaning invariant. */
  lemma MeaningAdvance(p: string, i: nat, i': nat, st: ScanState, st': ScanState, x: Atom)
    requires i < i' <= |p| && MeaningInv(p, i, st)
    requires Decode(p, i) == [x] + Decode(p, i')
    requires NoCharacterSet(st'.tokens) && Scanned(st') == Push(Scanned(st), x)
    ensures MeaningInv(p, i', st')
  {
    CollapseStep(Scanned(st), x, Decode(p, i'));
  }

  /** The atoms scanned after a `?`. */
  lemma AnyCharScanned(st: ScanState)
    requires NoCharacterSet(st.tokens)
    ensures NoCharacterSet(Flush(st).tokens + [AnyChar])
    ensures Scanned(Flush(st).(tokens := Flush(st).tokens + [AnyChar])) == Push(Scanned(st), One)
  {
    ExpandFlush(st.tokens, st.literal);
    var f := Flush(st);
    ExpandAppend(f.tokens, [AnyChar]);
    assert Expand([AnyChar]) == [One] + Expand([]);
  }

  /** The atoms scanned after a `*`, merged or appended. */
  lemma StarScanned(st: ScanState)
    requires WellFormedTokens(st.tokens) && EndsOffLiteral(st.tokens)
    ensures var f := Flush(st);
            NoCharacterSet(f.tokens + [AnySequence]) &&
            if f.tokens != [] && f.tokens[|f.tokens| - 1].AnySequence?
            then Scanned(f) == Push(Scanned(st), Star)
            else Scanned(f.(tokens := f.tokens + [AnySequence])) == Push(Scanned(st), Star)
  {
    ExpandFlush(st.tokens, st.literal);
    FlushWellFormed(st.tokens, st.literal);
    var f := Flush(st);
    var e := Expand(f.tokens);
    assert Scanned(f) == e == Scanned(st);
    if f.tokens != [] {
      ExpandLast(f.tokens);
    }
    ExpandSnoc(f.tokens, AnySequence);
    assert Scanned(f.(tokens := f.tokens + [AnySequence])) == e + [Star];
  }

  /** The atoms scanned after a literal character joins the pending literal. */
  lemma CharScanned(st: ScanState, c: char)
    requires NoCharacterSet(st.tokens)
    ensures Scanned(st.(literal := st.literal + [c])) == Push(Scanned(st), Ch(c))
  {
    LitsSnoc(st.literal, c);
  }

  /** One iteration keeps the meaning invariant. */
  lemma StepKeepsMeaning(p: string, i: nat, st: ScanState)
    requires i < |p| && ScanInv(p, i, st) && MeaningInv(p, i, st)
    ensures MeaningInv(p, Step(p, i, st).0, Step(p, i, st).1)
  {
    var (i', st') := Step(p, i, st);
    var c := p[i];
    if c == '?' {
      AnyCharScanned(st);
      MeaningAdvance(p, i, i', st, st', One);
    } else if c == '*' {
      StarScanned(st);
      MeaningAdvance(p, i, i', st, st', Star);
    } else if c == '\\' {
      if i + 1 < |p| {
        CharScanned(st, p[i + 1]);
        assert st'.tokens == st.tokens;
        MeaningAdvance(p, i, i', st, st', Ch(p[i + 1]));
      } else {
        assert Decode(p, i) == [] == Decode(p, i');
      }
    } else {
      CharScanned(st, c);
      MeaningAdvance(p, i, i', st, st', Ch(c));
    }
  }

  /** Running the rest of the loop keeps both invariants to the end of the pattern. */
  lemma {:induction false} ScanFromKeeps(p: string, i: nat, st: ScanState)
    requires i <= |p| && ScanInv(p, i, st) && MeaningInv(p, i, st)
    ensures ScanInv(p, |p|, ScanFrom(p, i, st)) && MeaningInv(p, |p|, ScanFrom(p, i, st))
    decreases |p| - i
  {
    if i < |p| {
      StepKeepsScanInv(p, i, st);
      StepKeepsMeaning(p, i, st);
      var (i', st') := Step(p, i, st);
      ScanFromKeeps(p, i', st');
    }
  }

  /** The tokenizer's structural promises: well-formed tokens, ordered and sound events, the atoms kept. */
  lemma TokenizeShape(p: string)
    ensures WellFormedTokens(Tokenize(p).tokens)
    ensures EventsOrdered(|p|, Tokenize(p).events)
    ensures forall k :: 0 <= k < |Tokenize(p).events| ==> EventSound(p, Tokenize(p).events[k])
    ensures Expand(Tokenize(p).tokens) == CollapseInto([], Decode(p, 0))
  {
    if p != [] {
      assert Scanned(Initial) == [];
      ScanFromKeeps(p, 0, Initial);
      var st := ScanFrom(p, 0, Initial);
      FlushWellFormed(st.tokens, st.literal);
      ExpandFlush(st.tokens, st.literal);
      assert Decode(p, |p|) == [];
    }
  }

  /** The tokenizer's promises, proved about Tokenize: its shape, and the meaning of the pattern kept. */
  lemma TokenizeProperties(p: string)
    ensures WellFormedTokens(Tokenize(p).tokens)
    ensures EventsOrdered(|p|, Tokenize(p).events)
    ensures forall k :: 0 <= k < |Tokenize(p).events| ==> EventSound(p, Tokenize(p).events[k])
    ensures Expand(Tokenize(p).tokens) == CollapseInto([], Decode(p, 0))
    ensures forall t :: MatchTokens(t, Tokenize(p).tokens) == MatchAtoms(t, Decode(p, 0))
  {
    TokenizeShape(p);
    var ts := Tokenize(p).tokens;
    forall t
      ensures MatchTokens(t, ts) == MatchAtoms(t, Decode(p, 0))
    {
      TokensMatchAtoms(t, ts);
      CollapseSound(t, [], Decode(p, 0));
      assert [] + Decode(p, 0) == Decode(p, 0);
    }
  }

  // ---------------------------------------------------------------------------
  // Consequences.

  /** Without backslashes, the meaning of a pattern is one atom per character. */
  lemma {:induction false} DecodePlain(p: string, i: nat)
    requires i <= |p| && '\\' !in p
    ensures Decode(p, i) == Expand(CharTokens(p)[i..])
    decreases |p| - i
  {
    var ts := CharTokens(p);
    if i == |p| {
      assert ts[i..] == [];
    } else {
      DecodePlain(p, i + 1);
      var rest := ts[i..];
      assert rest[0] == CharToken(p[i]) && rest[1..] == ts[i + 1..];
      assert Expand(rest) == ExpandToken(CharToken(p[i])) + Expand(ts[i + 1..]);
      assert p[i] != '\\';
      assert p[i] != '*' && p[i] != '?' ==> ExpandToken(CharToken(p[i])) == [Ch(p[i])];
    }
  }

  /**
   * For a pattern without `\`, matching the tokenizer's output is the character-level
   * semantics of the raw pattern: the token solvers and the character solvers agree.
   */
  lemma PlainPatternMatches(s: string, p: string)
    requires '\\' !in p
    ensures WellFormedTokens(Tokenize(p).tokens)
    ensures MatchTokens(s, Tokenize(p).tokens) == MatchChars(s, p)
  {
    TokenizeProperties(p);
    DecodePlain(p, 0);
    assert CharTokens(p)[0..] == CharTokens(p);
    TokensMatchAtoms(s, CharTokens(p));
    CharsMatchTokens(s, p);
  }

  /** A pattern of k stars. */
  function Stars(k: nat): (p: string)
    ensures |p| == k && forall n :: 0 <= n < k ==> p[n] == '*'
  {
    seq(k, _ => '*')
  }

  /** The merge events of a run of k stars: one for each star after the first, at positions 2..k. */
  function MergeEvents(k: nat): (events: seq<ParseEvent>)
    requires k >= 1
    ensures |events| == k - 1
  {
    seq(k - 1, n requires 0 <= n => ParseEvent(ConsecutiveAsterisksMerged, n + 2, None))
  }

  /** The state after the first i stars of a run. */
  function StarRunState(i: nat): ScanState
    requires i >= 1
  {
    ScanState([AnySequence], [], MergeEvents(i))
  }

  /** Scanning the rest of a run of stars from its i-th star. */
  lemma {:induction false} StarRunFrom(k: nat, i: nat)
    requires 1 <= i <= k
    ensures ScanFrom(Stars(k), i, StarRunState(i)) == StarRunState(k)
    decreases k - i
  {
    if i < k {
      var p := Stars(k);
      assert MergeEvents(i) + [ParseEvent(ConsecutiveAsterisksMerged, i + 1, None)] == MergeEvents(i + 1);
      assert Step(p, i, StarRunState(i)) == (i + 1, StarRunState(i + 1));
      StarRunFrom(k, i + 1);
    }
  }

  /** A run of k stars yields one star token and k - 1 merge events at positions 2..k. */
  lemma StarRun(k: nat)
    requires k >= 1
    ensures Tokenize(Stars(k)) == ParseResult([AnySequence], MergeEvents(k))
  {
    var p := Stars(k);
    assert MergeEvents(1) == [] && p[0] == '*';
    assert Flush(Initial) == Initial;
    assert Initial.tokens + [AnySequence] == [AnySequence];
    assert Step(p, 0, Initial) == (1, StarRunState(1));
    StarRunFrom(k, 1);
  }
}
