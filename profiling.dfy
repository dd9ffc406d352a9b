/**
 * The profile every solver returns (include/wildcard_matcher.hpp is not part of
 * this model; its SolverProfile is a result, a duration and a byte count) and the
 * `sizeof` values the extra-space formulas use.
 *
 * The byte counts are those of an LP64 target (64-bit pointers and size_t, 32-bit
 * int). The duration is left out: it comes from a wall clock.
 */
module Profiling {

  /** The match result and the estimated extra space in bytes. */
  datatype SolverProfile = SolverProfile(result: bool, extraSpaceBytes: nat)

  const SizeOfBool: nat := 1
  const SizeOfInt: nat := 4
  const SizeOfSizeT: nat := 8
  const SizeOfPointer: nat := 8
  /** std::optional<bool>: the value and the engaged flag. */
  const SizeOfOptionalBool: nat := 2
  /** std::string_view: a pointer and a length. */
  const SizeOfStringView: nat := 16
  /** std::optional<BacktrackPoint>: two size_t fields and the flag, padded to 8. */
  const SizeOfOptionalBacktrackPoint: nat := 24
  /** The DpState enumeration, taken to have a one-byte underlying type. */
  const SizeOfDpState: nat := 1
  /** The slice solver's MatchingState: the text and pattern views. */
  const SizeOfSliceMatchingState: nat := SizeOfStringView * 2
  /** The memoized character solver's MatchingState: two views, four ints and the table reference. */
  const SizeOfMemoMatchingState: nat := SizeOfStringView * 2 + SizeOfInt * 4 + SizeOfPointer
  /** ProfilingState: the depth and a reference to the shared maximum. */
  const SizeOfProfilingState: nat := SizeOfSizeT + SizeOfPointer

  /** std::max on the depth counters. */
  function Max(a: nat, b: nat): (r: nat)
    ensures r >= a && r >= b && (r == a || r == b)
  {
    if a >= b then a else b
  }

  /** A (m+1) x (n+1) table of cells of the given size. */
  function TableBytes(m: nat, n: nat, cell: nat): nat
  {
    (m + 1) * (n + 1) * cell
  }
}
