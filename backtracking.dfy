/**
 * The two-pointer greedy scan with one backtrack point, shared by both revisions
 * of the token greedy matcher (include/solvers/greedy.hpp, src/solvers/greedy.cpp)
 * and, through the per-character tokens, by the character greedy matcher.
 *
 * `GreedyStep` is one iteration of the main loop of include/solvers/greedy.hpp and
 * `GreedyFrom` the rest of the run from a given scan state. The lemmas prove that,
 * for token lists without CharacterSet and without empty literals, the run decides
 * exactly the reference semantics `MatchTokens`: a star is only ever re-tried from
 * the leftmost place the fixed tokens after it can match, and a later star
 * subsumes every earlier choice.
 */
module Backtracking {
  import opened Wrappers
  import opened Tokens
  import opened TokenSpec

  /** The last star seen: its token index, and where in the text its match begins. */
  datatype BacktrackPoint = BacktrackPoint(starIdx: nat, sMatchIdx: nat)

  /** The loop variables of the scan. */
  datatype Scan = Scan(sIdx: nat, pIdx: nat, backtrack: Option<BacktrackPoint>)

  /** The outcome of one iteration: the next scan state, or a definitive mismatch. */
  datatype Move = Advance(next: Scan) | Reject

  const Start: Scan := Scan(0, 0, None)

  /** The bounds the loop keeps: indices in range, the backtrack point on a star behind p. */
  predicate ScanValid(text: string, tokens: seq<Token>, st: Scan)
  {
    st.sIdx <= |text| && st.pIdx <= |tokens| &&
    (st.backtrack.Some? ==>
       st.backtrack.value.starIdx < st.pIdx &&
       tokens[st.backtrack.value.starIdx].AnySequence? &&
       st.backtrack.value.sMatchIdx <= st.sIdx)
  }

  /**
   * The termination order of the loop: the backtrack start moves right (the
   * absence of a backtrack point ranks above every start), else the text index
   * moves right, else the token index moves right.
   */
  predicate Below(text: string, tokens: seq<Token>, st': Scan, st: Scan)
  {
    var a' := if st'.backtrack.None? then |text| + 1 else |text| - st'.backtrack.value.sMatchIdx;
    var a := if st.backtrack.None? then |text| + 1 else |text| - st.backtrack.value.sMatchIdx;
    a' < a || (a' == a && (st'.sIdx > st.sIdx || (st'.sIdx == st.sIdx && st'.pIdx > st.pIdx)))
  }

  /** One iteration of the main loop, entered with text left to match. */
  function GreedyStep(text: string, tokens: seq<Token>, st: Scan): (r: Move)
    requires ScanValid(text, tokens, st) && st.sIdx < |text|
    ensures r.Advance? ==> ScanValid(text, tokens, r.next) && Below(text, tokens, r.next, st)
  {
    var s := st.sIdx;
    var p := st.pIdx;
    if p < |tokens| && tokens[p].AnyChar? then
      Advance(Scan(s + 1, p + 1, st.backtrack))
    else if p < |tokens| && tokens[p].LiteralSequence? &&
            |text| - s >= |tokens[p].value| && text[s..s + |tokens[p].value|] == tokens[p].value then
      Advance(Scan(s + |tokens[p].value|, p + 1, st.backtrack))
    else if p < |tokens| && tokens[p].AnySequence? then
      Advance(Scan(s, p + 1, Some(BacktrackPoint(p, s))))
    else if st.backtrack.Some? then
      var b := st.backtrack.value;
      Advance(Scan(b.sMatchIdx + 1, b.starIdx + 1, Some(BacktrackPoint(b.starIdx, b.sMatchIdx + 1))))
    else
      Reject
  }

  /** The index of the first non-star token at or after p (the trailing-star loop). */
  function SkipStars(tokens: seq<Token>, p: nat): (q: nat)
    requires p <= |tokens|
    ensures p <= q <= |tokens|
    ensures forall k :: p <= k < q ==> tokens[k].AnySequence?
    ensures q < |tokens| ==> !tokens[q].AnySequence?
    decreases |tokens| - p
  {
    if p < |tokens| && tokens[p].AnySequence? then SkipStars(tokens, p + 1) else p
  }

  /** The result of the scan from state st: the main loop, then the trailing stars. */
  function GreedyFrom(text: string, tokens: seq<Token>, st: Scan): bool
    requires ScanValid(text, tokens, st)
    decreases (if st.backtrack.None? then |text| + 1 else |text| - st.backtrack.value.sMatchIdx),
              |text| - st.sIdx, |tokens| - st.pIdx
  {
    if st.sIdx >= |text| then SkipStars(tokens, st.pIdx) == |tokens|
    else match GreedyStep(text, tokens, st)
      case Reject => false
      case Advance(next) => GreedyFrom(text, tokens, next)
  }

  /** The result of the whole scan. */
  function GreedyRun(text: string, tokens: seq<Token>): bool
  {
    GreedyFrom(text, tokens, Start)
  }

  /** The token lists the scan is correct for: those the tokenizer can produce. */
  predicate Good(tokens: seq<Token>)
  {
    NoCharacterSet(tokens) && NonEmptyLiterals(tokens)
  }

  // ---------------------------------------------------------------------------
  // Fixed-width runs: the tokens between a star and the next star.

  /** A token that consumes a fixed number of characters. */
  predicate IsFixed(t: Token)
  {
    t.AnyChar? || t.LiteralSequence?
  }

  /** The number of characters a fixed token consumes. */
  function Width(t: Token): nat
    requires IsFixed(t)
  {
    if t.AnyChar? then 1 else |t.value|
  }

  /** The fixed token matches the text at position q. */
  predicate FitsAt(text: string, t: Token, q: nat)
    requires IsFixed(t)
  {
    if t.AnyChar? then q < |text|
    else q + |t.value| <= |text| && text[q..q + |t.value|] == t.value
  }

  /** Every token in tokens[a..b] is fixed. */
  predicate FixedRun(tokens: seq<Token>, a: nat, b: nat)
    requires a <= b <= |tokens|
  {
    forall q :: a <= q < b ==> IsFixed(tokens[q])
  }

  /** The total width of a fixed run. */
  function SegmentWidth(tokens: seq<Token>, a: nat, b: nat): nat
    requires a <= b <= |tokens| && FixedRun(tokens, a, b)
    decreases b - a
  {
    if a == b then 0 else SegmentWidth(tokens, a, b - 1) + Width(tokens[b - 1])
  }

  /** The fixed run tokens[a..b] matches the text consecutively from position k. */
  predicate SegmentMatches(text: string, tokens: seq<Token>, k: nat, a: nat, b: nat)
    requires a <= b <= |tokens| && FixedRun(tokens, a, b)
    decreases b - a
  {
    a == b ||
    (SegmentMatches(text, tokens, k, a, b - 1) &&
     FitsAt(text, tokens[b - 1], k + SegmentWidth(tokens, a, b - 1)))
  }

  /**
   * A fixed run placed at k consumes exactly its width: matching from token a at k
   * is matching from token b right after the run.
   */
  lemma {:induction false} SegmentExact(text: string, tokens: seq<Token>, k: nat, a: nat, b: nat)
    requires NoCharacterSet(tokens) && a <= b <= |tokens| && FixedRun(tokens, a, b)
    requires k <= |text| && SegmentMatches(text, tokens, k, a, b)
    ensures k + SegmentWidth(tokens, a, b) <= |text|
    ensures MatchTokensAt(text, tokens, k, a) ==
            MatchTokensAt(text, tokens, k + SegmentWidth(tokens, a, b), b)
    decreases b - a
  {
    if a < b {
      SegmentExact(text, tokens, k, a, b - 1);
      assert tokens[b - 1].AnyChar? || tokens[b - 1].LiteralSequence?;
    }
  }

  /** A match from token a at k passes a fixed run, which then matches consecutively from k. */
  lemma {:induction false} FixedForward(text: string, tokens: seq<Token>, k: nat, a: nat, b: nat)
    requires NoCharacterSet(tokens) && a <= b <= |tokens| && FixedRun(tokens, a, b)
    requires k <= |text| && MatchTokensAt(text, tokens, k, a)
    ensures SegmentMatches(text, tokens, k, a, b)
    ensures k + SegmentWidth(tokens, a, b) <= |text|
    ensures MatchTokensAt(text, tokens, k + SegmentWidth(tokens, a, b), b)
    decreases b - a
  {
    if a < b {
      FixedForward(text, tokens, k, a, b - 1);
      assert tokens[b - 1].AnyChar? || tokens[b - 1].LiteralSequence?;
    }
  }

  /** A star that matches from k also matches from any earlier s (it absorbs text[s..k]). */
  lemma {:induction false} StarAbsorb(text: string, tokens: seq<Token>, p: nat, s: nat, k: nat)
    requires NoCharacterSet(tokens) && p < |tokens| && tokens[p].AnySequence?
    requires s <= k <= |text| && MatchTokensAt(text, tokens, k, p)
    ensures MatchTokensAt(text, tokens, s, p)
    decreases k - s
  {
    if s < k {
      StarAbsorb(text, tokens, p, s + 1, k);
    }
  }

  /** A star matching from sm ends at some k at or after sm, where the tokens after it take over. */
  lemma {:induction false} StarSplit(text: string, tokens: seq<Token>, sm: nat, star: nat) returns (k: nat)
    requires NoCharacterSet(tokens) && star < |tokens| && tokens[star].AnySequence?
    requires sm <= |text| && MatchTokensAt(text, tokens, sm, star)
    ensures sm <= k <= |text| && MatchTokensAt(text, tokens, k, star + 1)
    decreases |text| - sm
  {
    if MatchTokensAt(text, tokens, sm, star + 1) {
      k := sm;
    } else {
      k := StarSplit(text, tokens, sm + 1, star);
    }
  }

  /**
   * Reaching a new star: with the fixed run between two stars placed at its leftmost
   * fit sm, the first star matches from sm exactly when the second matches right
   * after the run. So the earlier backtrack point can be forgotten.
   */
  lemma StarHit(text: string, tokens: seq<Token>, star: nat, p: nat, sm: nat)
    requires NoCharacterSet(tokens) && star < p < |tokens|
    requires tokens[star].AnySequence? && tokens[p].AnySequence?
    requires FixedRun(tokens, star + 1, p) && sm <= |text|
    requires SegmentMatches(text, tokens, sm, star + 1, p)
    ensures sm + SegmentWidth(tokens, star + 1, p) <= |text|
    ensures MatchTokensAt(text, tokens, sm, star) ==
            MatchTokensAt(text, tokens, sm + SegmentWidth(tokens, star + 1, p), p)
  {
    var w := SegmentWidth(tokens, star + 1, p);
    SegmentExact(text, tokens, sm, star + 1, p);
    if MatchTokensAt(text, tokens, sm, star) {
      var k := StarSplit(text, tokens, sm, star);
      FixedForward(text, tokens, k, star + 1, p);
      StarAbsorb(text, tokens, p, sm + w, k + w);
    }
  }

  /**
   * A mismatch after the fixed run placed at sm: the star cannot stop at sm, so
   * matching from sm is matching with the star taking one more character.
   */
  lemma StarMiss(text: string, tokens: seq<Token>, star: nat, p: nat, sm: nat)
    requires NoCharacterSet(tokens) && star < p <= |tokens| && tokens[star].AnySequence?
    requires FixedRun(tokens, star + 1, p) && sm < |text|
    requires SegmentMatches(text, tokens, sm, star + 1, p)
    requires sm + SegmentWidth(tokens, star + 1, p) <= |text|
    requires !MatchTokensAt(text, tokens, sm + SegmentWidth(tokens, star + 1, p), p)
    ensures MatchTokensAt(text, tokens, sm, star) == MatchTokensAt(text, tokens, sm + 1, star)
  {
    SegmentExact(text, tokens, sm, star + 1, p);
  }

  /**
   * The text is used up right after the fixed run placed at sm: no later start of
   * the run can fit, so the star matches from sm exactly when the rest matches at the end.
   */
  lemma StarAtEnd(text: string, tokens: seq<Token>, star: nat, p: nat, sm: nat)
    requires NoCharacterSet(tokens) && star < p <= |tokens| && tokens[star].AnySequence?
    requires FixedRun(tokens, star + 1, p)
    requires SegmentMatches(text, tokens, sm, star + 1, p)
    requires sm + SegmentWidth(tokens, star + 1, p) == |text|
    ensures MatchTokensAt(text, tokens, sm, star) == MatchTokensAt(text, tokens, |text|, p)
  {
    SegmentExact(text, tokens, sm, star + 1, p);
    if MatchTokensAt(text, tokens, sm, star) {
      var k := StarSplit(text, tokens, sm, star);
      FixedForward(text, tokens, k, star + 1, p);
      assert k == sm;
    }
  }

  /** At the end of the text, the remaining tokens match exactly when they are all stars. */
  lemma {:induction false} EndOfText(text: string, tokens: seq<Token>, p: nat)
    requires Good(tokens) && p <= |tokens|
    ensures MatchTokensAt(text, tokens, |text|, p) == (SkipStars(tokens, p) == |tokens|)
    decreases |tokens| - p
  {
    if p < |tokens| {
      if tokens[p].AnySequence? {
        EndOfText(text, tokens, p + 1);
      } else if tokens[p].LiteralSequence? {
        assert tokens[p].value != [];
      }
    }
  }

  // ---------------------------------------------------------------------------
  // Correctness of the scan.

  /**
   * What the scan state knows about the answer. Without a backtrack point the
   * answer is the suffix problem at (s, p). With one, the fixed run after the star
   * is matched from sm up to s, and the answer is the suffix problem at the star.
   */
  predicate OnTrack(text: string, tokens: seq<Token>, st: Scan)
    requires ScanValid(text, tokens, st) && NoCharacterSet(tokens)
  {
    match st.backtrack
    case None =>
      MatchTokens(text, tokens) == MatchTokensAt(text, tokens, st.sIdx, st.pIdx)
    case Some(b) =>
      FixedRun(tokens, b.starIdx + 1, st.pIdx) &&
      SegmentMatches(text, tokens, b.sMatchIdx, b.starIdx + 1, st.pIdx) &&
      st.sIdx == b.sMatchIdx + SegmentWidth(tokens, b.starIdx + 1, st.pIdx) &&
      MatchTokens(text, tokens) == MatchTokensAt(text, tokens, b.sMatchIdx, b.starIdx)
  }

  /** Neither a fixed token that fits nor a star at p: the suffix problem at (s, p) fails. */
  lemma NoMoveFails(text: string, tokens: seq<Token>, s: nat, p: nat)
    requires NoCharacterSet(tokens) && s < |text| && p <= |tokens|
    requires p < |tokens| ==> tokens[p].LiteralSequence? && !FitsAt(text, tokens[p], s)
    ensures !MatchTokensAt(text, tokens, s, p)
  {
  }

  /** An iteration without a backtrack point keeps the scan on track, or rejects a non-match. */
  lemma StepOnTrackFree(text: string, tokens: seq<Token>, st: Scan)
    requires Good(tokens) && ScanValid(text, tokens, st) && st.sIdx < |text|
    requires st.backtrack.None? && OnTrack(text, tokens, st)
    ensures match GreedyStep(text, tokens, st)
            case Reject => !MatchTokens(text, tokens)
            case Advance(next) => OnTrack(text, tokens, next)
  {
    var s, p := st.sIdx, st.pIdx;
    if p < |tokens| && tokens[p].AnySequence? {
      assert FixedRun(tokens, p + 1, p + 1);
    } else if !(p < |tokens| && IsFixed(tokens[p]) && FitsAt(text, tokens[p], s)) {
      NoMoveFails(text, tokens, s, p);
    }
  }

  /** With a backtrack point, a fixed token that fits extends the run after the star. */
  lemma StarTrackFits(text: string, tokens: seq<Token>, st: Scan)
    requires Good(tokens) && ScanValid(text, tokens, st) && st.sIdx < |text|
    requires st.backtrack.Some? && OnTrack(text, tokens, st)
    requires st.pIdx < |tokens| && IsFixed(tokens[st.pIdx]) && FitsAt(text, tokens[st.pIdx], st.sIdx)
    ensures GreedyStep(text, tokens, st) == Advance(Scan(st.sIdx + Width(tokens[st.pIdx]), st.pIdx + 1, st.backtrack))
    ensures OnTrack(text, tokens, Scan(st.sIdx + Width(tokens[st.pIdx]), st.pIdx + 1, st.backtrack))
  {
    var p, a := st.pIdx, st.backtrack.value.starIdx + 1;
    assert FixedRun(tokens, a, p + 1);
    assert SegmentWidth(tokens, a, p + 1) == SegmentWidth(tokens, a, p) + Width(tokens[p]);
  }

  /** With a backtrack point, a new star replaces it. */
  lemma StarTrackStar(text: string, tokens: seq<Token>, st: Scan)
    requires Good(tokens) && ScanValid(text, tokens, st) && st.sIdx < |text|
    requires st.backtrack.Some? && OnTrack(text, tokens, st)
    requires st.pIdx < |tokens| && tokens[st.pIdx].AnySequence?
    ensures GreedyStep(text, tokens, st) == Advance(Scan(st.sIdx, st.pIdx + 1, Some(BacktrackPoint(st.pIdx, st.sIdx))))
    ensures OnTrack(text, tokens, Scan(st.sIdx, st.pIdx + 1, Some(BacktrackPoint(st.pIdx, st.sIdx))))
  {
    var b := st.backtrack.value;
    StarHit(text, tokens, b.starIdx, st.pIdx, b.sMatchIdx);
    assert FixedRun(tokens, st.pIdx + 1, st.pIdx + 1);
  }

  /** With a backtrack point, a mismatch retries after the star one character later. */
  lemma StarTrackMiss(text: string, tokens: seq<Token>, st: Scan)
    requires Good(tokens) && ScanValid(text, tokens, st) && st.sIdx < |text|
    requires st.backtrack.Some? && OnTrack(text, tokens, st)
    requires !(st.pIdx < |tokens| && IsFixed(tokens[st.pIdx]) && FitsAt(text, tokens[st.pIdx], st.sIdx))
    requires !(st.pIdx < |tokens| && tokens[st.pIdx].AnySequence?)
    ensures GreedyStep(text, tokens, st).Advance?
    ensures OnTrack(text, tokens, GreedyStep(text, tokens, st).next)
  {
    var s, p, b := st.sIdx, st.pIdx, st.backtrack.value;
    var a := b.starIdx + 1;
    NoMoveFails(text, tokens, s, p);
    SegmentExact(text, tokens, b.sMatchIdx, a, p);
    StarMiss(text, tokens, b.starIdx, p, b.sMatchIdx);
    assert FixedRun(tokens, a, a);
  }

  /** An iteration with a backtrack point keeps the scan on track. */
  lemma StepOnTrackStar(text: string, tokens: seq<Token>, st: Scan)
    requires Good(tokens) && ScanValid(text, tokens, st) && st.sIdx < |text|
    requires st.backtrack.Some? && OnTrack(text, tokens, st)
    ensures GreedyStep(text, tokens, st).Advance?
    ensures OnTrack(text, tokens, GreedyStep(text, tokens, st).next)
  {
    var s, p := st.sIdx, st.pIdx;
    if p < |tokens| && IsFixed(tokens[p]) && FitsAt(text, tokens[p], s) {
      StarTrackFits(text, tokens, st);
    } else if p < |tokens| && tokens[p].AnySequence? {
      StarTrackStar(text, tokens, st);
    } else {
      StarTrackMiss(text, tokens, st);
    }
  }

  /** With the text used up, the trailing-star test decides the answer. */
  lemma EndOnTrack(text: string, tokens: seq<Token>, st: Scan)
    requires Good(tokens) && ScanValid(text, tokens, st) && st.sIdx >= |text|
    requires OnTrack(text, tokens, st)
    ensures (SkipStars(tokens, st.pIdx) == |tokens|) == MatchTokens(text, tokens)
  {
    EndOfText(text, tokens, st.pIdx);
    if st.backtrack.Some? {
      var b := st.backtrack.value;
      StarAtEnd(text, tokens, b.starIdx, st.pIdx, b.sMatchIdx);
    }
  }

  /** From any on-track state, the rest of the scan decides the reference semantics. */
  lemma {:induction false} GreedyFromCorrect(text: string, tokens: seq<Token>, st: Scan)
    requires Good(tokens) && ScanValid(text, tokens, st) && OnTrack(text, tokens, st)
    ensures GreedyFrom(text, tokens, st) == MatchTokens(text, tokens)
    decreases (if st.backtrack.None? then |text| + 1 else |text| - st.backtrack.value.sMatchIdx),
              |text| - st.sIdx, |tokens| - st.pIdx
  {
    if st.sIdx >= |text| {
      EndOnTrack(text, tokens, st);
    } else {
      if st.backtrack.None? {
        StepOnTrackFree(text, tokens, st);
      } else {
        StepOnTrackStar(text, tokens, st);
      }
      match GreedyStep(text, tokens, st)
      case Reject =>
      case Advance(next) =>
        GreedyFromCorrect(text, tokens, next);
    }
  }

  /** The greedy scan decides exactly the reference semantics on well-formed token lists. */
  lemma GreedyRunCorrect(text: string, tokens: seq<Token>)
    requires Good(tokens)
    ensures GreedyRun(text, tokens) == MatchTokens(text, tokens)
  {
    GreedyFromCorrect(text, tokens, Start);
  }
}
