/** The text metrics computed by `TextAnalyzer` (function_app.py:54-62). */
module Metrics {
  import opened Chars
  import opened CharRuns
  import opened Splitting

  /** The analysis object returned to callers and stored with each record. The
      two ratios are the exact quotients, before Python rounds them to one
      decimal place. */
  datatype Analysis = Analysis(
    wordCount: nat,
    characterCount: nat,
    characterCountNoSpaces: nat,
    sentenceCount: nat,
    paragraphCount: nat,
    averageWordLength: real,
    longestWord: string,
    readingTimeMinutes: real)

  /** `text.split()`: the maximal runs of non-whitespace characters. */
  function Words(text: string): seq<string> {
    Runs(text, IsWordChar)
  }

  /** The words are the non-empty, whitespace-free runs, they hold every
      non-whitespace character of the text in order, and there are as many as
      positions where a word begins. The text is the words laid out with
      whitespace-only gaps around them, the inner gaps non-empty: each word is
      maximal. */
  lemma WordsSpec(text: string)
    ensures forall k :: 0 <= k < |Words(text)| ==> Words(text)[k] != []
    ensures forall k, j :: 0 <= k < |Words(text)| && 0 <= j < |Words(text)[k]| ==> !IsWhitespace(Words(text)[k][j])
    ensures Concat(Words(text)) == Filter(text, IsWordChar)
    ensures |Words(text)| == RunStarts(text, IsWordChar)
    ensures ValidLayout(Words(text), Gaps(text, IsWordChar), IsWordChar)
    ensures Layout(Words(text), Gaps(text, IsWordChar)) == text
  {
    RunsConcat(text, IsWordChar);
    RunsCount(text, IsWordChar);
    LayoutOfRuns(text, IsWordChar);
  }

  /** `text.split() == ws` exactly when `text` is `ws` laid out with
      whitespace-only gaps, the inner ones non-empty: the words are the
      maximal whitespace-free segments and no other segmentation. */
  lemma WordsCharacterized(text: string, ws: seq<string>)
    ensures Words(text) == ws <==>
              exists gaps :: ValidLayout(ws, gaps, IsWordChar) && Layout(ws, gaps) == text
  {
    RunsCharacterized(text, ws, IsWordChar);
  }

  /** `text.replace(" ", "")`: every ASCII space removed, nothing else. */
  function RemoveSpaces(text: string): string {
    Filter(text, IsNotSpace)
  }

  /** The number of occurrences of `c` in `s`. */
  function Occurrences(s: string, c: char): nat {
    if s == [] then 0 else (if s[0] == c then 1 else 0) + Occurrences(s[1..], c)
  }

  /** Removing spaces shortens the text by exactly its number of spaces, and
      keeps every other character (tabs and newlines included) as often as it
      occurred. */
  lemma {:induction false} RemoveSpacesSpec(text: string)
    ensures |RemoveSpaces(text)| == |text| - Occurrences(text, ' ')
    ensures Occurrences(RemoveSpaces(text), ' ') == 0
    ensures forall c :: c != ' ' ==> Occurrences(RemoveSpaces(text), c) == Occurrences(text, c)
  {
    if text != [] {
      var rest := RemoveSpaces(text[1..]);
      RemoveSpacesSpec(text[1..]);
      if text[0] != ' ' {
        var r := RemoveSpaces(text);
        assert r == [text[0]] + rest;
        assert r[1..] == rest;
        forall c | c != ' ' ensures Occurrences(r, c) == Occurrences(text, c) {
          assert Occurrences(r, c) == (if text[0] == c then 1 else 0) + Occurrences(rest, c);
        }
      } else {
        assert RemoveSpaces(text) == rest;
      }
    }
  }

  /** A word character is never a space, so there are at least as many
      non-space characters as word characters. */
  lemma {:induction false} WordCharsAtMostNonSpaces(text: string)
    ensures |Filter(text, IsWordChar)| <= |RemoveSpaces(text)|
  {
    if text != [] {
      WordCharsAtMostNonSpaces(text[1..]);
    }
  }

  /** Every word holds at least one non-space character. */
  lemma WordCountAtMostNonSpaces(text: string)
    ensures |Words(text)| <= |RemoveSpaces(text)|
  {
    WordsSpec(text);
    ConcatLength(Words(text));
    WordCharsAtMostNonSpaces(text);
  }

  /** `len(re.findall(r"[.!?]+", text)) or 1`. */
  function SentenceCount(text: string): nat {
    var k := |Runs(text, IsSentenceEnd)|;
    if k == 0 then 1 else k
  }

  /** The sentence count is the number of runs of sentence punctuation when the
      text has any, and 1 when it has none. */
  lemma SentenceCountSpec(text: string)
    ensures SentenceCount(text) >= 1
    ensures (exists i :: 0 <= i < |text| && IsSentenceEnd(text[i])) ==>
              SentenceCount(text) == RunStarts(text, IsSentenceEnd)
    ensures (forall i :: 0 <= i < |text| ==> !IsSentenceEnd(text[i])) ==> SentenceCount(text) == 1
  {
    RunsCount(text, IsSentenceEnd);
    RunsEmptyIff(text, IsSentenceEnd);
  }

  const ParagraphBreak := "\n\n"

  /** `text.split("\n\n")`. */
  function Paragraphs(text: string): (ps: seq<string>)
    ensures |ps| >= 1
  {
    SplitOn(text, ParagraphBreak)
  }

  /** `[p for p in parts if p.strip()]`. */
  function NonBlank(parts: seq<string>): seq<string> {
    if parts == [] then []
    else (if Strip(parts[0]) != [] then [parts[0]] else []) + NonBlank(parts[1..])
  }

  /** `p` has a character that is not whitespace. */
  predicate HasContent(p: string) {
    exists i :: 0 <= i < |p| && !IsWhitespace(p[i])
  }

  /** The number of parts that have a non-whitespace character. */
  function CountWithContent(parts: seq<string>): nat {
    if parts == [] then 0
    else (if HasContent(parts[0]) then 1 else 0) + CountWithContent(parts[1..])
  }

  /** `p.strip()` is non-empty exactly when `p` has content. */
  lemma StripNonEmptyIff(p: string)
    ensures Strip(p) != [] <==> HasContent(p)
  {
    StripEmptyIff(p);
    if HasContent(p) {
      var i :| 0 <= i < |p| && !IsWhitespace(p[i]);
    }
  }

  /** The comprehension keeps its first part exactly when it has content. */
  lemma NonBlankStep(parts: seq<string>)
    requires parts != []
    ensures NonBlank(parts) == (if HasContent(parts[0]) then [parts[0]] else []) + NonBlank(parts[1..])
  {
    StripNonEmptyIff(parts[0]);
  }

  /** The parts kept by the comprehension are exactly the ones with content. */
  lemma {:induction false} NonBlankCount(parts: seq<string>)
    ensures |NonBlank(parts)| == CountWithContent(parts) <= |parts|
    ensures forall k :: 0 <= k < |NonBlank(parts)| ==> HasContent(NonBlank(parts)[k])
  {
    if parts != [] {
      NonBlankStep(parts);
      NonBlankCount(parts[1..]);
      var rest := NonBlank(parts[1..]);
      var kept := NonBlank(parts);
      if HasContent(parts[0]) {
        assert kept == [parts[0]] + rest;
        forall k | 0 <= k < |kept| ensures HasContent(kept[k]) {
          if k > 0 {
            assert kept[k] == rest[k - 1];
          }
        }
      } else {
        assert kept == rest;
      }
    }
  }

  /** `len([p for p in text.split("\n\n") if p.strip()]) or 1`. */
  function ParagraphCount(text: string): nat {
    var k := |NonBlank(Paragraphs(text))|;
    if k == 0 then 1 else k
  }

  /** The paragraph count is between 1 and the number of `"\n\n"`-separated
      segments, and is the number of segments with content, or 1 if none has. */
  lemma ParagraphCountSpec(text: string)
    ensures 1 <= ParagraphCount(text) <= |Paragraphs(text)|
    ensures ParagraphCount(text) ==
              (var k := CountWithContent(Paragraphs(text)); if k == 0 then 1 else k)
  {
    NonBlankCount(Paragraphs(text));
  }

  /** Scanning `ws` from index `k` with `best` the first longest of `ws[..k]`,
      the index of the first longest string of all of `ws`. Like Python's `max`,
      a later string replaces the best so far only when it is strictly longer. */
  function FirstLongestFrom(ws: seq<string>, best: nat, k: nat): (i: nat)
    requires best < k <= |ws|
    requires forall j :: 0 <= j < k ==> |ws[j]| <= |ws[best]|
    requires forall j :: 0 <= j < best ==> |ws[j]| < |ws[best]|
    ensures i < |ws|
    ensures forall j :: 0 <= j < |ws| ==> |ws[j]| <= |ws[i]|
    ensures forall j :: 0 <= j < i ==> |ws[j]| < |ws[i]|
    decreases |ws| - k
  {
    if k == |ws| then best
    else if |ws[k]| > |ws[best]| then FirstLongestFrom(ws, k, k + 1)
    else FirstLongestFrom(ws, best, k + 1)
  }

  /** `max(words, key=len) if words else ""`: the first word of greatest length. */
  function LongestWord(text: string): (w: string)
    ensures w == "" <==> Words(text) == []
    ensures Words(text) != [] ==>
              exists i :: 0 <= i < |Words(text)| && Words(text)[i] == w &&
                (forall j :: 0 <= j < |Words(text)| ==> |Words(text)[j]| <= |w|) &&
                (forall j :: 0 <= j < i ==> |Words(text)[j]| < |w|)
  {
    var ws := Words(text);
    if ws == [] then ""
    else
      var i := FirstLongestFrom(ws, 0, 1);
      assert ws[i] != [];
      ws[i]
  }

  /** `characterCountNoSpaces / wordCount`, or 0 without words (unrounded). */
  function AverageWordLength(text: string): real {
    var wc := |Words(text)|;
    if wc > 0 then |RemoveSpaces(text)| as real / wc as real else 0.0
  }

  /** The average word length is 0 exactly when there are no words, and at
      least 1 otherwise, since every word has a non-space character. */
  lemma AverageWordLengthSpec(text: string)
    ensures AverageWordLength(text) == 0.0 <==> Words(text) == []
    ensures Words(text) != [] ==> AverageWordLength(text) >= 1.0
  {
    var wc := |Words(text)|;
    if wc > 0 {
      WordCountAtMostNonSpaces(text);
      QuotientAtLeastOne(|RemoveSpaces(text)| as real, wc as real);
    }
  }

  lemma QuotientAtLeastOne(x: real, y: real)
    requires 0.0 < y <= x
    ensures x / y >= 1.0
  {
    assert (x / y) * y == x;
  }

  /** `word_count / 200` (unrounded). */
  function ReadingTimeMinutes(text: string): real {
    |Words(text)| as real / 200.0
  }

  /** The whole analysis of `text`. */
  function Analyze(text: string): (a: Analysis)
    ensures a.characterCount == |text|
    ensures a.wordCount == RunStarts(text, IsWordChar)
    ensures a.characterCountNoSpaces == |text| - Occurrences(text, ' ')
    ensures a.wordCount <= a.characterCountNoSpaces <= a.characterCount
    ensures a.sentenceCount >= 1 && a.paragraphCount >= 1
    ensures a.averageWordLength == 0.0 <==> a.wordCount == 0
    ensures a.longestWord == "" <==> a.wordCount == 0
    ensures a.readingTimeMinutes >= 0.0
  {
    WordsSpec(text);
    RemoveSpacesSpec(text);
    WordCountAtMostNonSpaces(text);
    SentenceCountSpec(text);
    ParagraphCountSpec(text);
    AverageWordLengthSpec(text);
    Analysis(
      wordCount := |Words(text)|,
      characterCount := |text|,
      characterCountNoSpaces := |RemoveSpaces(text)|,
      sentenceCount := SentenceCount(text),
      paragraphCount := ParagraphCount(text),
      averageWordLength := AverageWordLength(text),
      longestWord := LongestWord(text),
      readingTimeMinutes := ReadingTimeMinutes(text))
  }

  /** `w` is a word: non-empty and without whitespace. */
  predicate IsWord(w: string) {
    w != [] && forall j :: 0 <= j < |w| ==> IsWordChar(w[j])
  }

  /** `" ".join(ws).split() == ws` when every element of `ws` is a word. */
  lemma {:induction false} WordsOfJoin(ws: seq<string>)
    requires |ws| >= 1
    requires forall k :: 0 <= k < |ws| ==> IsWord(ws[k])
    ensures Words(Join(ws, " ")) == ws
  {
    assert IsWord(ws[0]);
    if |ws| == 1 {
      RunsFront(ws[0], "", IsWordChar);
      assert ws[0] + "" == ws[0];
    } else {
      var tail := ws[1..];
      assert forall k :: 0 <= k < |tail| ==> tail[k] == ws[k + 1];
      WordsOfJoin(tail);
      WordThenSpace(ws[0], Join(tail, " "));
      assert ws == [ws[0]] + tail;
    }
  }

  /** A word followed by a space and more text is the first word of it. */
  lemma WordThenSpace(w: string, rest: string)
    requires IsWord(w)
    ensures Words(w + " " + rest) == [w] + Words(rest)
  {
    assert !IsWordChar(' ');
    RunsSkip(" ", rest, IsWordChar);
    RunsFront(w, " " + rest, IsWordChar);
    assert w + " " + rest == w + (" " + rest);
  }

  /** The words of the example line. */
  lemma ExampleWords(text: string)
    requires text == "Hello world. This is great!"
    ensures Words(text) == ["Hello", "world.", "This", "is", "great!"]
  {
    var ws := ["Hello", "world.", "This", "is", "great!"];
    assert Join(ws, " ") == text;
    WordsOfJoin(ws);
  }

  lemma ExampleLastSentence(last: string)
    requires last == " This is great!"
    ensures Runs(last, IsSentenceEnd) == ["!"]
  {
    RunsFront("!", "", IsSentenceEnd);
    assert "!" + "" == "!";
    RunsSkip(" This is great", "!", IsSentenceEnd);
    assert " This is great" + "!" == last;
  }

  lemma ExampleSentencesFrom(dot: string, last: string)
    requires dot == "." && last == " This is great!"
    ensures Runs(dot + last, IsSentenceEnd) == [".", "!"]
  {
    ExampleLastSentence(last);
    RunsFront(dot, last, IsSentenceEnd);
  }

  lemma ExampleNoSentenceEnd(head: string)
    requires head == "Hello world"
    ensures forall i :: 0 <= i < |head| ==> !IsSentenceEnd(head[i])
  {
  }

  /** The runs of sentence punctuation in the example line, split before and
      after its full stop. */
  lemma ExampleSentences(head: string, dot: string, last: string)
    requires head == "Hello world" && dot == "." && last == " This is great!"
    ensures Runs(head + (dot + last), IsSentenceEnd) == [".", "!"]
  {
    ExampleSentencesFrom(dot, last);
    ExampleNoSentenceEnd(head);
    RunsSkip(head, dot + last, IsSentenceEnd);
  }

  /** The example line, cut before and after its full stop. */
  lemma ExampleCut(text: string, head: string, dot: string, last: string)
    requires text == "Hello world. This is great!"
    requires head == "Hello world" && dot == "." && last == " This is great!"
    ensures text == head + (dot + last)
  {
  }

  /** The example line is a single paragraph. */
  lemma ExampleParagraphs(text: string)
    requires text == "Hello world. This is great!"
    ensures NonBlank(Paragraphs(text)) == [text]
  {
    SplitOnWithoutSeparator(text, ParagraphBreak);
    StripEmptyIff(text);
    assert !IsWhitespace(text[0]);
  }

  /** The example of a two-sentence line: five words, two sentences, one
      paragraph. Punctuation stays part of its word, so the first of the two
      six-character words, `world.`, is the longest. */
  lemma AnalyzeExample(text: string)
    requires text == "Hello world. This is great!"
    ensures var a := Analyze(text);
            && a.wordCount == 5
            && a.sentenceCount == 2
            && a.paragraphCount == 1
            && a.longestWord == "world."
  {
    assert |Words(text)| == 5 && LongestWord(text) == "world." by {
      ExampleWords(text);
      assert FirstLongestFrom(Words(text), 0, 1) == 1;
    }
    assert SentenceCount(text) == 2 by {
      var head, dot, last := "Hello world", ".", " This is great!";
      ExampleSentences(head, dot, last);
      ExampleCut(text, head, dot, last);
    }
    assert ParagraphCount(text) == 1 by {
      ExampleParagraphs(text);
    }
  }
}
