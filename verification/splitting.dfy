/** `str.split(sep)` with an explicit separator, and `str.strip()`. */
module Splitting {
  import opened Wrappers
  import opened Chars

  /** `sep` occurs in `s` starting at position `j`. */
  predicate OccursAt(s: string, sep: string, j: int) {
    0 <= j && j + |sep| <= |s| && s[j..j + |sep|] == sep
  }

  /** `sep` occurs nowhere in `s`. */
  predicate Free(s: string, sep: string) {
    forall j :: 0 <= j <= |s| ==> !OccursAt(s, sep, j)
  }

  /** The first position at or after `i` where `sep` occurs in `s`, if any. */
  function FindFrom(s: string, sep: string, i: nat): (r: Option<nat>)
    requires sep != [] && i <= |s|
    ensures r.Some? ==> i <= r.value && OccursAt(s, sep, r.value)
    ensures forall j :: i <= j && (r.None? || j < r.value) ==> !OccursAt(s, sep, j)
    decreases |s| - i
  {
    if i + |sep| > |s| then None
    else if s[i..i + |sep|] == sep then Some(i)
    else FindFrom(s, sep, i + 1)
  }

  /** Python's `s.split(sep)`: cut `s` at every occurrence of `sep`, scanning
      left to right so that occurrences never overlap. */
  function SplitOn(s: string, sep: string): (parts: seq<string>)
    requires sep != []
    ensures |parts| >= 1
    decreases |s|
  {
    match FindFrom(s, sep, 0)
    case None => [s]
    case Some(i) => [s[..i]] + SplitOn(s[i + |sep|..], sep)
  }

  /** Python's `sep.join(parts)`. */
  function Join(parts: seq<string>, sep: string): string
    requires |parts| >= 1
  {
    if |parts| == 1 then parts[0] else parts[0] + sep + Join(parts[1..], sep)
  }

  /** Joining the parts with the separator gives back the text. */
  lemma {:induction false} SplitJoin(s: string, sep: string)
    requires sep != []
    ensures Join(SplitOn(s, sep), sep) == s
    decreases |s|
  {
    match FindFrom(s, sep, 0)
    case None =>
    case Some(i) =>
      var rest := s[i + |sep|..];
      var tail := SplitOn(rest, sep);
      SplitJoin(rest, sep);
      var parts := SplitOn(s, sep);
      assert parts == [s[..i]] + tail;
      assert parts[1..] == tail;
      assert Join(parts, sep) == s[..i] + sep + Join(tail, sep);
      assert s[i..i + |sep|] == sep;
      assert s == s[..i] + s[i..i + |sep|] + rest;
  }

  /** `part`, followed by the separator, holds no earlier occurrence of the
      separator: cutting after `part` cuts at the leftmost occurrence, not one
      that overlaps it from the left. */
  predicate CutLeftmost(part: string, sep: string) {
    forall j :: 0 <= j < |part| ==> !OccursAt(part + sep, sep, j)
  }

  /** No part contains the separator, and every cut is at the leftmost
      occurrence: the first part is followed by the separator in `s`, the
      separator occurs nowhere in `s` before that point, and every part but
      the last, followed by the separator, holds no earlier occurrence, not
      even one overlapping the cut. */
  lemma {:induction false} SplitParts(s: string, sep: string)
    requires sep != []
    ensures forall k :: 0 <= k < |SplitOn(s, sep)| ==> Free(SplitOn(s, sep)[k], sep)
    ensures |SplitOn(s, sep)| == 1 <==> Free(s, sep)
    ensures |SplitOn(s, sep)| > 1 ==> OccursAt(s, sep, |SplitOn(s, sep)[0]|)
    ensures |SplitOn(s, sep)| > 1 ==> forall j :: 0 <= j < |SplitOn(s, sep)[0]| ==> !OccursAt(s, sep, j)
    ensures forall k :: 0 <= k < |SplitOn(s, sep)| - 1 ==> CutLeftmost(SplitOn(s, sep)[k], sep)
    decreases |s|
  {
    var parts := SplitOn(s, sep);
    match FindFrom(s, sep, 0)
    case None =>
    case Some(i) =>
      var rest := s[i + |sep|..];
      SplitParts(rest, sep);
      var tail := SplitOn(rest, sep);
      assert parts == [s[..i]] + tail;
      assert parts[1..] == tail;
      forall j | 0 <= j <= i ensures !OccursAt(s[..i], sep, j) {
        if j + |sep| <= i {
          assert !OccursAt(s, sep, j);
          assert s[..i][j..j + |sep|] == s[j..j + |sep|];
        }
      }
      assert !Free(s, sep) by { assert OccursAt(s, sep, i); }
      FirstCutLeftmost(s, sep, i);
      forall k | 0 <= k < |parts| - 1 ensures CutLeftmost(parts[k], sep) {
        if k > 0 {
          assert parts[k] == tail[k - 1];
        }
      }
  }

  /** The first occurrence, at `i`, leaves a first part that is cut leftmost. */
  lemma FirstCutLeftmost(s: string, sep: string, i: nat)
    requires sep != [] && i <= |s|
    requires FindFrom(s, sep, 0) == Some(i)
    ensures CutLeftmost(s[..i], sep)
  {
    var cut := s[..i] + sep;
    assert cut == s[..i + |sep|];
    forall j | 0 <= j < i ensures !OccursAt(cut, sep, j) {
      assert !OccursAt(s, sep, j);
      if j + |sep| <= |cut| {
        assert cut[j..j + |sep|] == s[j..j + |sep|];
      }
    }
  }

  /** `s` without its leading `space` characters. */
  function TrimStart(s: string, space: char -> bool): (r: string)
    ensures |r| <= |s| && r == s[|s| - |r|..]
    ensures forall i :: 0 <= i < |s| - |r| ==> space(s[i])
    ensures r != [] ==> !space(r[0])
  {
    if s != [] && space(s[0]) then TrimStart(s[1..], space) else s
  }

  /** `s` without its trailing `space` characters. */
  function TrimEnd(s: string, space: char -> bool): (r: string)
    ensures |r| <= |s| && r == s[..|r|]
    ensures forall i :: |r| <= i < |s| ==> space(s[i])
    ensures r != [] ==> !space(r[|r| - 1])
  {
    if s != [] && space(s[|s| - 1]) then TrimEnd(s[..|s| - 1], space) else s
  }

  /** `s` without its leading and trailing `space` characters. */
  function StripBy(s: string, space: char -> bool): string {
    TrimEnd(TrimStart(s, space), space)
  }

  /** Python's `s.strip()`. */
  function Strip(s: string): string {
    StripBy(s, IsWhitespace)
  }

  /** A string strips to nothing exactly when all of it is whitespace. */
  lemma StripEmptyIff(s: string)
    ensures Strip(s) == [] <==> forall i :: 0 <= i < |s| ==> IsWhitespace(s[i])
  {
    var t := TrimStart(s, IsWhitespace);
    if Strip(s) == [] {
      forall i | 0 <= i < |s| ensures IsWhitespace(s[i]) {
        if i >= |s| - |t| {
          assert s[i] == t[i - (|s| - |t|)];
        }
      }
    } else {
      var r := Strip(s);
      assert !IsWhitespace(r[0]);
      assert r[0] == t[0] == s[|s| - |t|];
    }
  }

  /** Stripping leaves alone a string that neither begins nor ends with a
      `space` character. */
  lemma StripNoOp(s: string, space: char -> bool)
    requires s != [] ==> !space(s[0]) && !space(s[|s| - 1])
    ensures StripBy(s, space) == s
  {
  }

  /** A text in which the separator's first character never occurs is not cut. */
  lemma SplitOnWithoutSeparator(s: string, sep: string)
    requires sep != []
    requires forall i :: 0 <= i < |s| ==> s[i] != sep[0]
    ensures SplitOn(s, sep) == [s]
  {
    forall j | 0 <= j && j + |sep| <= |s| ensures !OccursAt(s, sep, j) {
      assert s[j..j + |sep|][0] == s[j];
    }
  }
}
