/** Optional values (std::optional, and std::string::npos as "no index"). */
module Wrappers {
  datatype Option<T> = None | Some(value: T)
}

/**
 * The closed set of pattern units produced by the tokenizer (include/utils/token.hpp).
 *
 * The alternatives are declared in the order of the source's X-macro list, which is
 * also the order of the std::variant and of the TokenTypeIndex enumerators.
 */
module Tokens {

  /** A 256-entry membership set, one flag per byte value (std::bitset<256>). */
  type CharacterBits = b: seq<bool> | |b| == 256 witness seq(256, _ => false)

  datatype Token =
    | AnySequence                               // '*': zero or more characters
    | LiteralSequence(value: string)            // an exact run of characters
    | AnyChar                                   // '?': exactly one character
    | CharacterSet(characters: CharacterBits)   // never produced by the tokenizer

  /** The enumeration whose values name the variant alternatives. */
  datatype TokenTypeIndex =
    | AnySequenceIndex
    | LiteralSequenceIndex
    | AnyCharIndex
    | CharacterSetIndex

  /** The underlying (uint8_t) value of an enumerator. */
  function Ordinal(k: TokenTypeIndex): (v: nat)
    ensures v < 4
  {
    match k
    case AnySequenceIndex => 0
    case LiteralSequenceIndex => 1
    case AnyCharIndex => 2
    case CharacterSetIndex => 3
  }

  /** `static_cast<TokenTypeIndex>(v)` for a value in range. */
  function FromOrdinal(v: nat): (k: TokenTypeIndex)
    requires v < 4
    ensures Ordinal(k) == v
  {
    if v == 0 then AnySequenceIndex
    else if v == 1 then LiteralSequenceIndex
    else if v == 2 then AnyCharIndex
    else CharacterSetIndex
  }

  /** `Token::index()`: the position of the held alternative in the variant's list. */
  function VariantIndex(t: Token): (v: nat)
    ensures v < 4
  {
    match t
    case AnySequence => 0
    case LiteralSequence(_) => 1
    case AnyChar => 2
    case CharacterSet(_) => 3
  }

  /**
   * `static_cast<TokenTypeIndex>(t.index())`, the switch key of the token solvers:
   * the enumerator it yields names exactly the alternative the token holds.
   */
  function KindOf(t: Token): (k: TokenTypeIndex)
    ensures k == AnySequenceIndex <==> t.AnySequence?
    ensures k == LiteralSequenceIndex <==> t.LiteralSequence?
    ensures k == AnyCharIndex <==> t.AnyChar?
    ensures k == CharacterSetIndex <==> t.CharacterSet?
  {
    FromOrdinal(VariantIndex(t))
  }

  /** Every token value is one of exactly four alternatives, and the enumeration is a bijection onto 0..3. */
  lemma ClosedSum(t: Token, k: TokenTypeIndex)
    ensures t.AnySequence? || t.LiteralSequence? || t.AnyChar? || t.CharacterSet?
    ensures FromOrdinal(Ordinal(k)) == k
  {
  }

  /**
   * Defaulted equality of the variant: literals compare by their strings, sets
   * compare bit by bit, and tokens holding different alternatives always differ.
   */
  lemma StructuralEquality(a: string, b: string, x: CharacterBits, y: CharacterBits)
    ensures LiteralSequence(a) == LiteralSequence(b) <==> a == b
    ensures CharacterSet(x) == CharacterSet(y) <==> forall c :: 0 <= c < 256 ==> x[c] == y[c]
    ensures AnySequence != AnyChar
    ensures LiteralSequence(a) != AnySequence && LiteralSequence(a) != AnyChar && LiteralSequence(a) != CharacterSet(x)
    ensures CharacterSet(x) != AnySequence && CharacterSet(x) != AnyChar
  {
    if forall c :: 0 <= c < 256 ==> x[c] == y[c] {
      assert x == y;
    }
  }

  // Predicates over token sequences shared by the tokenizer and the matchers.

  /** No token is a CharacterSet: the matchers reach APP_UNREACHABLE on one. */
  predicate NoCharacterSet(ts: seq<Token>)
  {
    forall k :: 0 <= k < |ts| ==> !ts[k].CharacterSet?
  }

  /** Every LiteralSequence holds at least one character. */
  predicate NonEmptyLiterals(ts: seq<Token>)
  {
    forall k :: 0 <= k < |ts| ==> (ts[k].LiteralSequence? ==> ts[k].value != [])
  }
}
