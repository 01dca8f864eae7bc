/** The byte scans the parser is built from. Each scan starts at an index
    `from` and returns where it stops; the contracts say what the bytes before
    and at that index are, which determines the index uniquely. */
module Scan {
  import opened HttpSyntax

  datatype Option<T> = None | Some(value: T)

  /** The end of the run of SPACE bytes that starts at `from`. */
  function SpaceEnd(s: seq<Byte>, from: nat): (end: nat)
    requires from <= |s|
    ensures from <= end <= |s|
    ensures forall i :: from <= i < end ==> s[i] == SPACE
    ensures end == |s| || s[end] != SPACE
    decreases |s| - from
  {
    if from < |s| && s[from] == SPACE then SpaceEnd(s, from + 1) else from
  }

  /** The first index at or after `from` that holds `c`, or |s| if none does. */
  function IndexOf(s: seq<Byte>, c: Byte, from: nat): (end: nat)
    requires from <= |s|
    ensures from <= end <= |s|
    ensures forall i :: from <= i < end ==> s[i] != c
    ensures end == |s| || s[end] == c
    decreases |s| - from
  {
    if from < |s| && s[from] != c then IndexOf(s, c, from + 1) else from
  }

  /** The first separator byte at or after `from` (where a header key ends),
      or |s| if there is none. */
  function KeyEnd(s: seq<Byte>, from: nat): (end: nat)
    requires from <= |s|
    ensures from <= end <= |s|
    ensures forall i :: from <= i < end ==> !IsSeparator(s[i])
    ensures end == |s| || IsSeparator(s[end])
    decreases |s| - from
  {
    if from < |s| && !IsSeparator(s[from]) then KeyEnd(s, from + 1) else from
  }

  /** The end of the run of separator bytes that starts at `from`. */
  function SeparatorEnd(s: seq<Byte>, from: nat): (end: nat)
    requires from <= |s|
    ensures from <= end <= |s|
    ensures forall i :: from <= i < end ==> IsSeparator(s[i])
    ensures end == |s| || !IsSeparator(s[end])
    decreases |s| - from
  {
    if from < |s| && IsSeparator(s[from]) then SeparatorEnd(s, from + 1) else from
  }

  /** A CR LF pair starts at index i of s. */
  predicate CrlfAt(s: seq<Byte>, i: int) {
    0 <= i && i + 1 < |s| && IsCrlf(s[i], s[i + 1])
  }

  /** The first index at or after `from` where a CR LF pair starts; None when
      no pair starts there or later (in particular when `from` is already past
      the last two bytes). */
  function FindCrlf(s: seq<Byte>, from: nat): (found: Option<nat>)
    ensures found.Some? ==> from <= found.value && CrlfAt(s, found.value)
    ensures found.Some? ==> forall i :: from <= i < found.value ==> !CrlfAt(s, i)
    ensures found.None? ==> forall i :: from <= i ==> !CrlfAt(s, i)
    decreases |s| - from
  {
    if from + 1 >= |s| then None
    else if IsCrlf(s[from], s[from + 1]) then Some(from)
    else FindCrlf(s, from + 1)
  }

  /** The first SPACE at or after `from` is at `end`. */
  predicate FirstSpaceAt(s: seq<Byte>, from: int, end: int) {
    && 0 <= from <= end < |s| && s[end] == SPACE
    && forall i :: from <= i < end ==> s[i] != SPACE
  }

  /** The run of SPACE bytes that starts at `from` ends at `to`. */
  predicate SpacesUntil(s: seq<Byte>, from: int, to: int) {
    && 0 <= from <= to <= |s|
    && (forall i :: from <= i < to ==> s[i] == SPACE)
    && (to == |s| || s[to] != SPACE)
  }

  /** The first CR LF at or after `from` starts at `end`. */
  predicate FirstCrlfAt(s: seq<Byte>, from: int, end: int) {
    && 0 <= from <= end && CrlfAt(s, end)
    && forall i :: from <= i < end ==> !CrlfAt(s, i)
  }
}
