/** Maximal runs of characters of one class.

    `str.split()` without arguments returns the maximal runs of non-whitespace
    characters, and `re.findall("[.!?]+", text)` returns the maximal runs of
    sentence punctuation (the pattern is greedy and matches never overlap), so
    both are `Runs(s, p)` for the appropriate class `p`. */
module CharRuns {

  /** The characters of `s` that satisfy `p`, in their order. */
  function Filter(s: string, p: char -> bool): (r: string)
    ensures |r| <= |s|
    ensures forall i :: 0 <= i < |r| ==> p(r[i])
  {
    if s == [] then []
    else (if p(s[0]) then [s[0]] else []) + Filter(s[1..], p)
  }

  /** The strings of `rs` written one after the other. */
  function Concat(rs: seq<string>): string {
    if rs == [] then [] else rs[0] + Concat(rs[1..])
  }

  /** The length of the longest prefix of `s` whose characters all satisfy `p`. */
  function PrefixLen(s: string, p: char -> bool): (n: nat)
    ensures n <= |s|
    ensures forall i :: 0 <= i < n ==> p(s[i])
    ensures n < |s| ==> !p(s[n])
  {
    if s == [] || !p(s[0]) then 0 else 1 + PrefixLen(s[1..], p)
  }

  /** The maximal runs of `p`-characters of `s`, left to right. */
  function Runs(s: string, p: char -> bool): (rs: seq<string>)
    ensures forall k :: 0 <= k < |rs| ==> rs[k] != []
    ensures forall k :: 0 <= k < |rs| ==> forall j :: 0 <= j < |rs[k]| ==> p(rs[k][j])
    decreases |s|
  {
    if s == [] then []
    else if !p(s[0]) then Runs(s[1..], p)
    else
      var n := PrefixLen(s, p);
      [s[..n]] + Runs(s[n..], p)
  }

  /** The number of positions `i >= 1` where a run of `p`-characters begins
      (`s[i - 1]` is not in the class and `s[i]` is). */
  function Rises(s: string, p: char -> bool): nat {
    if |s| < 2 then 0
    else (if !p(s[0]) && p(s[1]) then 1 else 0) + Rises(s[1..], p)
  }

  /** The number of positions of `s` that begin a run of `p`-characters: a
      reference count of the runs that does not build them. */
  function RunStarts(s: string, p: char -> bool): nat {
    if s == [] then 0
    else (if p(s[0]) then 1 else 0) + Rises(s, p)
  }

  lemma {:induction false} FilterAppend(a: string, b: string, p: char -> bool)
    ensures Filter(a + b, p) == Filter(a, p) + Filter(b, p)
  {
    if a == [] {
      assert a + b == b;
    } else {
      assert (a + b)[1..] == a[1..] + b;
      FilterAppend(a[1..], b, p);
    }
  }

  lemma {:induction false} FilterKeepsAll(s: string, p: char -> bool)
    requires forall i :: 0 <= i < |s| ==> p(s[i])
    ensures Filter(s, p) == s
  {
    if s != [] {
      FilterKeepsAll(s[1..], p);
    }
  }

  /** After a run that starts at position 0, the remaining run starts are those
      of the text that follows the run. */
  lemma {:induction false} RunStartsAfterRun(s: string, p: char -> bool)
    requires s != [] && p(s[0])
    ensures RunStarts(s, p) == 1 + RunStarts(s[PrefixLen(s, p)..], p)
  {
    if |s| > 1 && p(s[1]) {
      RunStartsAfterRun(s[1..], p);
      assert s[PrefixLen(s, p)..] == s[1..][PrefixLen(s[1..], p)..];
    }
  }

  /** There are exactly as many runs as positions where a run starts. */
  lemma {:induction false} RunsCount(s: string, p: char -> bool)
    ensures |Runs(s, p)| == RunStarts(s, p)
    decreases |s|
  {
    if s == [] {
    } else if !p(s[0]) {
      RunsCount(s[1..], p);
    } else {
      RunStartsAfterRun(s, p);
      RunsCount(s[PrefixLen(s, p)..], p);
    }
  }

  /** The runs, written one after the other, are exactly the `p`-characters of
      `s`: nothing is lost, duplicated or reordered. */
  lemma {:induction false} RunsConcat(s: string, p: char -> bool)
    ensures Concat(Runs(s, p)) == Filter(s, p)
    decreases |s|
  {
    if s == [] {
    } else if !p(s[0]) {
      RunsConcat(s[1..], p);
    } else {
      var n := PrefixLen(s, p);
      RunsConcat(s[n..], p);
      assert s == s[..n] + s[n..];
      FilterAppend(s[..n], s[n..], p);
      FilterKeepsAll(s[..n], p);
      assert ([s[..n]] + Runs(s[n..], p))[1..] == Runs(s[n..], p);
    }
  }

  /** There is no run exactly when no character of `s` is in the class. */
  lemma {:induction false} RunsEmptyIff(s: string, p: char -> bool)
    ensures Runs(s, p) == [] <==> forall i :: 0 <= i < |s| ==> !p(s[i])
    decreases |s|
  {
    if s != [] && !p(s[0]) {
      RunsEmptyIff(s[1..], p);
      assert forall i :: 1 <= i < |s| ==> s[i] == s[1..][i - 1];
    }
  }

  /** Written out, non-empty strings are at least as long as there are strings. */
  lemma {:induction false} ConcatLength(rs: seq<string>)
    requires forall k :: 0 <= k < |rs| ==> rs[k] != []
    ensures |Concat(rs)| >= |rs|
  {
    if rs != [] {
      ConcatLength(rs[1..]);
    }
  }

  /** A run at the front of `w + rest` is the first of the runs. */
  lemma RunsFront(w: string, rest: string, p: char -> bool)
    requires w != [] && forall i :: 0 <= i < |w| ==> p(w[i])
    requires rest != [] ==> !p(rest[0])
    ensures Runs(w + rest, p) == [w] + Runs(rest, p)
  {
    var s := w + rest;
    PrefixLenOfRun(w, rest, p);
    assert s[..|w|] == w && s[|w|..] == rest;
  }

  /** The prefix of `p`-characters of `w + rest` is `w` when `rest` does not
      begin with one. */
  lemma {:induction false} PrefixLenOfRun(w: string, rest: string, p: char -> bool)
    requires forall i :: 0 <= i < |w| ==> p(w[i])
    requires rest != [] ==> !p(rest[0])
    ensures PrefixLen(w + rest, p) == |w|
  {
    if w == [] {
      assert w + rest == rest;
    } else {
      assert (w + rest)[1..] == w[1..] + rest;
      PrefixLenOfRun(w[1..], rest, p);
    }
  }

  /** Characters outside the class in front of `rest` contribute no run. */
  lemma {:induction false} RunsSkip(g: string, rest: string, p: char -> bool)
    requires forall i :: 0 <= i < |g| ==> !p(g[i])
    ensures Runs(g + rest, p) == Runs(rest, p)
  {
    if g != [] {
      assert (g + rest)[1..] == g[1..] + rest;
      RunsSkip(g[1..], rest, p);
    } else {
      assert g + rest == rest;
    }
  }

  /** The text `gaps[0] + rs[0] + gaps[1] + ... + rs[m - 1] + gaps[m]`: runs
      laid out with a gap before, between and after them. */
  function Layout(rs: seq<string>, gaps: seq<string>): string
    requires |gaps| == |rs| + 1
  {
    if rs == [] then gaps[0] else gaps[0] + rs[0] + Layout(rs[1..], gaps[1..])
  }

  /** A layout whose runs are non-empty and made of `p`-characters, whose gaps
      hold no `p`-character, and whose inner gaps are non-empty: each run in it
      is then a maximal run of the text. */
  predicate ValidLayout(rs: seq<string>, gaps: seq<string>, p: char -> bool) {
    && |gaps| == |rs| + 1
    && (forall k :: 0 <= k < |rs| ==> rs[k] != [])
    && (forall k :: 0 <= k < |rs| ==> forall j :: 0 <= j < |rs[k]| ==> p(rs[k][j]))
    && (forall k :: 0 <= k < |gaps| ==> forall j :: 0 <= j < |gaps[k]| ==> !p(gaps[k][j]))
    && (forall k :: 0 < k < |rs| ==> gaps[k] != [])
  }

  /** The stretches of `s` around its runs: the text before the first run,
      between consecutive runs, and after the last one. */
  function Gaps(s: string, p: char -> bool): (g: seq<string>)
    ensures |g| == |Runs(s, p)| + 1
    ensures s != [] && !p(s[0]) ==> g[0] != []
    decreases |s|
  {
    if s == [] then [[]]
    else if !p(s[0]) then
      var g := Gaps(s[1..], p);
      [[s[0]] + g[0]] + g[1..]
    else
      [[]] + Gaps(s[PrefixLen(s, p)..], p)
  }

  /** Runs laid out with valid gaps are read back as exactly those runs. */
  lemma {:induction false} RunsOfLayout(rs: seq<string>, gaps: seq<string>, p: char -> bool)
    requires ValidLayout(rs, gaps, p)
    ensures Runs(Layout(rs, gaps), p) == rs
  {
    if rs == [] {
      RunsSkip(gaps[0], [], p);
      assert gaps[0] + [] == gaps[0];
    } else {
      var tail := Layout(rs[1..], gaps[1..]);
      ValidLayoutTail(rs, gaps, p);
      RunsOfLayout(rs[1..], gaps[1..], p);
      RunsFront(rs[0], tail, p);
      RunsSkip(gaps[0], rs[0] + tail, p);
      assert Layout(rs, gaps) == gaps[0] + (rs[0] + tail);
      assert [rs[0]] + rs[1..] == rs;
    }
  }

  /** Without its first gap and run, a valid layout is still valid, and what
      is left of the text does not begin with a `p`-character. */
  lemma ValidLayoutTail(rs: seq<string>, gaps: seq<string>, p: char -> bool)
    requires ValidLayout(rs, gaps, p) && rs != []
    ensures ValidLayout(rs[1..], gaps[1..], p)
    ensures var tail := Layout(rs[1..], gaps[1..]); tail != [] ==> !p(tail[0])
  {
    assert forall k :: 0 <= k < |rs| - 1 ==> rs[1..][k] == rs[k + 1];
    assert forall k :: 0 <= k < |gaps| - 1 ==> gaps[1..][k] == gaps[k + 1];
    var tail := Layout(rs[1..], gaps[1..]);
    if rs[1..] != [] {
      assert gaps[1] != [] && tail[0] == gaps[1][0];
    } else {
      assert tail == gaps[1];
    }
  }

  /** Putting `x` in front of the first gap puts it in front of the text. */
  lemma LayoutFrontGap(x: string, rs: seq<string>, gaps: seq<string>)
    requires |gaps| == |rs| + 1
    ensures Layout(rs, [x + gaps[0]] + gaps[1..]) == x + Layout(rs, gaps)
  {
    var front := [x + gaps[0]] + gaps[1..];
    assert front[1..] == gaps[1..];
  }

  /** Every text is its runs laid out with its gaps, and that layout is valid. */
  lemma {:induction false} LayoutOfRuns(s: string, p: char -> bool)
    ensures ValidLayout(Runs(s, p), Gaps(s, p), p)
    ensures Layout(Runs(s, p), Gaps(s, p)) == s
    decreases |s|
  {
    if s == [] {
    } else if !p(s[0]) {
      LayoutOfRuns(s[1..], p);
      LayoutSkip(s, p);
      GapsSkipValid(s, p);
    } else {
      LayoutOfRuns(s[PrefixLen(s, p)..], p);
      LayoutRun(s, p);
      GapsRunValid(s, p);
    }
  }

  /** The step of `LayoutOfRuns` for a text that begins outside the class:
      the layout. */
  lemma {:induction false} LayoutSkip(s: string, p: char -> bool)
    requires s != [] && !p(s[0])
    requires Layout(Runs(s[1..], p), Gaps(s[1..], p)) == s[1..]
    ensures Layout(Runs(s, p), Gaps(s, p)) == s
  {
    var rs, g := Runs(s[1..], p), Gaps(s[1..], p);
    assert Runs(s, p) == rs;
    assert Gaps(s, p) == [[s[0]] + g[0]] + g[1..];
    LayoutFrontGap([s[0]], rs, g);
    assert [s[0]] + s[1..] == s;
  }

  /** The step of `LayoutOfRuns` for a text that begins outside the class:
      the validity of the gaps. */
  lemma {:induction false} GapsSkipValid(s: string, p: char -> bool)
    requires s != [] && !p(s[0])
    requires ValidLayout(Runs(s[1..], p), Gaps(s[1..], p), p)
    ensures ValidLayout(Runs(s, p), Gaps(s, p), p)
  {
    var rs, g := Runs(s[1..], p), Gaps(s[1..], p);
    var G := Gaps(s, p);
    assert Runs(s, p) == rs;
    assert G == [[s[0]] + g[0]] + g[1..];
    assert forall k :: 0 < k < |g| ==> G[k] == g[k];
    assert forall j :: 0 < j < |G[0]| ==> G[0][j] == g[0][j - 1];
  }

  /** The step of `LayoutOfRuns` for a text that begins with a run: the
      layout. */
  lemma {:induction false} LayoutRun(s: string, p: char -> bool)
    requires s != [] && p(s[0])
    requires Layout(Runs(s[PrefixLen(s, p)..], p), Gaps(s[PrefixLen(s, p)..], p)) == s[PrefixLen(s, p)..]
    ensures Layout(Runs(s, p), Gaps(s, p)) == s
  {
    var n := PrefixLen(s, p);
    var rs, g := Runs(s[n..], p), Gaps(s[n..], p);
    RunStep(s, p);
    LayoutCons([], s[..n], rs, g);
    assert [] + s[..n] == s[..n];
    assert s[..n] + s[n..] == s;
  }

  /** A text that begins with a run: its first run is that prefix, with an
      empty gap before it. */
  lemma RunStep(s: string, p: char -> bool)
    requires s != [] && p(s[0])
    ensures Runs(s, p) == [s[..PrefixLen(s, p)]] + Runs(s[PrefixLen(s, p)..], p)
    ensures Gaps(s, p) == [[]] + Gaps(s[PrefixLen(s, p)..], p)
  {
  }

  /** A gap and a run put in front of a layout. */
  lemma LayoutCons(x: string, w: string, rs: seq<string>, gaps: seq<string>)
    requires |gaps| == |rs| + 1
    ensures Layout([w] + rs, [x] + gaps) == x + w + Layout(rs, gaps)
  {
    assert ([w] + rs)[1..] == rs && ([x] + gaps)[1..] == gaps;
  }

  /** The step of `LayoutOfRuns` for a text that begins with a run: the
      validity of the gaps. */
  lemma {:induction false} GapsRunValid(s: string, p: char -> bool)
    requires s != [] && p(s[0])
    requires ValidLayout(Runs(s[PrefixLen(s, p)..], p), Gaps(s[PrefixLen(s, p)..], p), p)
    ensures ValidLayout(Runs(s, p), Gaps(s, p), p)
  {
    var n := PrefixLen(s, p);
    var rs, g := Runs(s[n..], p), Gaps(s[n..], p);
    var R, G := Runs(s, p), Gaps(s, p);
    assert R == [s[..n]] + rs;
    assert G == [[]] + g;
    forall k | 0 < k < |G|
      ensures G[k] == g[k - 1]
      ensures k < |R| ==> R[k] == rs[k - 1]
    { }
    assert forall k :: 0 < k < |R| ==> G[k] != [] by {
      forall k | 0 < k < |R| ensures G[k] != [] {
        if k == 1 {
          assert s[n..] != [] && !p(s[n..][0]);
        }
      }
    }
  }

  /** The runs of `s` are exactly the strings that `s` lays out with valid
      gaps: the maximal runs, and no other segmentation. */
  lemma RunsCharacterized(s: string, rs: seq<string>, p: char -> bool)
    ensures Runs(s, p) == rs <==> exists gaps :: ValidLayout(rs, gaps, p) && Layout(rs, gaps) == s
  {
    if Runs(s, p) == rs {
      LayoutOfRuns(s, p);
      assert ValidLayout(rs, Gaps(s, p), p) && Layout(rs, Gaps(s, p)) == s;
    }
    if exists gaps :: ValidLayout(rs, gaps, p) && Layout(rs, gaps) == s {
      var gaps :| ValidLayout(rs, gaps, p) && Layout(rs, gaps) == s;
      RunsOfLayout(rs, gaps, p);
    }
  }
}
