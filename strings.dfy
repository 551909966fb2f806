/** `string.Join`, which the service uses to build its validation reports, and an ordinal split that undoes it. */
module Strings {

  /** `string.Join(separator, parts)`: the parts in order, with separator between neighbours. */
  function Join(separator: string, parts: seq<string>): string
  {
    if |parts| == 0 then ""
    else if |parts| == 1 then parts[0]
    else parts[0] + separator + Join(separator, parts[1..])
  }

  /** `value` occurs in `s` starting at index `i`. */
  predicate OccursAt(s: string, value: string, i: nat)
  {
    i + |value| <= |s| && s[i..i + |value|] == value
  }

  /** An ordinal `IndexOf`: the first index at or after `from` where `value` occurs, or -1. */
  function IndexOf(s: string, value: string, from: nat): (r: int)
    requires from <= |s|
    ensures r == -1 || (from <= r && OccursAt(s, value, r))
    ensures forall j :: from <= j <= |s| && (r == -1 || j < r) ==> !OccursAt(s, value, j)
    decreases |s| - from
  {
    if OccursAt(s, value, from) then from
    else if from == |s| then -1
    else IndexOf(s, value, from + 1)
  }

  /** `s.Split(separator)`: the pieces between occurrences of a non-empty separator. */
  function Split(s: string, separator: string): seq<string>
    requires |separator| > 0
    decreases |s|
  {
    var i := IndexOf(s, separator, 0);
    if i < 0 then [s] else [s[..i]] + Split(s[i + |separator|..], separator)
  }

  /** A string lacking the separator's first character holds no occurrence of it. */
  lemma NoSeparatorInside(x: string, separator: string)
    requires |separator| > 0 && separator[0] !in x
    ensures IndexOf(x, separator, 0) == -1
  {
  }

  /** In `x + separator + rest`, the first occurrence of the separator is the one right after `x`. */
  lemma SeparatorAfter(x: string, separator: string, rest: string)
    requires |separator| > 0 && separator[0] !in x
    ensures IndexOf(x + separator + rest, separator, 0) == |x|
  {
    var s := x + separator + rest;
    assert s[|x|..|x| + |separator|] == separator;
    assert OccursAt(s, separator, |x|);
    forall j | 0 <= j < |x| ensures !OccursAt(s, separator, j) {
      assert s[j] == x[j];
      NotAtMismatch(s, separator, j);
    }
    var r := IndexOf(s, separator, 0);
    assert r != -1 && r <= |x|;
    assert r >= |x|;
  }

  /** An occurrence starts with the separator's first character. */
  lemma NotAtMismatch(s: string, separator: string, j: nat)
    requires |separator| > 0
    requires j < |s| ==> s[j] != separator[0]
    ensures !OccursAt(s, separator, j)
  {
  }

  /**
   * Joining is lossless when no part contains the separator's first character:
   * splitting the joined string gives back every part, in order.
   */
  lemma {:induction false} SplitJoin(parts: seq<string>, separator: string)
    requires |separator| > 0 && |parts| > 0
    requires forall p :: p in parts ==> separator[0] !in p
    ensures Split(Join(separator, parts), separator) == parts
    decreases |parts|
  {
    if |parts| == 1 {
      NoSeparatorInside(parts[0], separator);
    } else {
      var rest := Join(separator, parts[1..]);
      var s := parts[0] + separator + rest;
      SeparatorAfter(parts[0], separator, rest);
      assert s[..|parts[0]|] == parts[0];
      assert s[|parts[0]| + |separator|..] == rest;
      SplitJoin(parts[1..], separator);
      assert parts == [parts[0]] + parts[1..];
    }
  }
}
