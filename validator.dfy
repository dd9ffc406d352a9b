/**
 * The input scanners of include/validator.hpp: each returns the least index of an
 * offending byte, or no index (std::string::npos) when there is none. Characters
 * stand for the bytes of the string, so a byte above 127 is a character whose
 * code is above 127.
 */
module Validator {
  import opened Wrappers

  /** The first byte of a multi-byte UTF-8 sequence is above 127. */
  predicate IsMultiByte(c: char)
  {
    c as int > 127
  }

  /** The two wildcard characters. */
  predicate IsWildcard(c: char)
  {
    c == '?' || c == '*'
  }

  /** InputValidator::findMultiByteChar. */
  method FindMultiByteChar(str: string) returns (r: Option<nat>)
    ensures r.Some? ==> r.value < |str| && IsMultiByte(str[r.value])
    ensures r.Some? ==> forall k :: 0 <= k < r.value ==> !IsMultiByte(str[k])
    ensures r.None? <==> forall k :: 0 <= k < |str| ==> !IsMultiByte(str[k])
  {
    var i := 0;
    while i < |str|
      invariant 0 <= i <= |str|
      invariant forall k :: 0 <= k < i ==> !IsMultiByte(str[k])
    {
      if str[i] as int > 127 {
        return Some(i);
      }
      i := i + 1;
    }
    return None;
  }

  /** InputValidator::findWildcard. */
  method FindWildcard(str: string) returns (r: Option<nat>)
    ensures r.Some? ==> r.value < |str| && IsWildcard(str[r.value])
    ensures r.Some? ==> forall k :: 0 <= k < r.value ==> !IsWildcard(str[k])
    ensures r.None? <==> forall k :: 0 <= k < |str| ==> !IsWildcard(str[k])
  {
    var i := 0;
    while i < |str|
      invariant 0 <= i <= |str|
      invariant forall k :: 0 <= k < i ==> !IsWildcard(str[k])
    {
      if str[i] == '?' || str[i] == '*' {
        return Some(i);
      }
      i := i + 1;
    }
    return None;
  }
}
