# Text analyzer: a Dafny model

The repository is an Azure Functions app with two HTTP endpoints.

- `TextAnalyzer` takes a block of text from the `text` query parameter or from the `text` member of a JSON body. It computes lexical metrics and a short preview, stores the result as a document in Cosmos DB, and returns the id, the analysis and the metadata.
- `GetAnalysisHistory` reads a `limit` parameter, turns it into a page size in [1, 50], and returns at most that many of the most recent stored analyses (fewer when the container holds fewer).

This project models both handlers. Most of it is the metric computations themselves:

- `Chars` holds the character classes. Whitespace is exactly the set Python's `str.isspace()` accepts, which `str.split()` and `str.strip()` use. `int()` skips a smaller set around a number: CPython leaves the separators U+001C to U+001F as they are and then skips only the C-locale spaces, so those four make `int()` fail.
- `CharRuns` holds the maximal runs of characters of one class. `str.split()` without arguments returns the maximal runs of non-whitespace characters. `re.findall(r"[.!?]+", text)` returns the maximal runs of sentence punctuation. Both are `Runs(s, p)`. The runs are related to an independent count of the positions where a run begins and to the class filter of the text. They are also characterised exactly: the text is the runs laid out with gaps free of the class, with the inner gaps non-empty (`Layout`, `ValidLayout`).
- `Splitting` holds `str.split(sep)` with an explicit separator (`SplitOn`), its inverse `sep.join` (`Join`), and `str.strip()`.
- `Metrics` holds every field of the `analysis` object, and `Analyze`, which builds it.
- `Records` holds the preview, the `metadata` object, the stored document, and the projection that the history query selects.
- `HistoryLimit` holds Python's `int()` on the `limit` text, the fallback to 10, and the clamp to [1, 50]. `EffectiveLimit` is the function form. `ResolveLimit` is the method that reassigns the limit step by step, as the handler does.
- `Handlers` holds the two handlers as functions. Their inputs are what the request carries and what the store answers. Their output is the response, plus the record offered to the store or the page size queried. The store is a parameter: `upsert` maps a record to success or to a failure message, and `query` maps a page size to rows or to a failure message. A failure of the container lookup (missing settings) is one of those failures, because the source makes that lookup inside the same `try`.

Tokens are whitespace-delimited, so punctuation stays part of its token. `max` replaces its current best only on a strictly greater length. On `"Hello world. This is great!"` the longest word is therefore `world.`, the first of the two six-character tokens `world.` and `great!`. `Metrics.AnalyzeExample` proves this.

## Model

| member | source | states |
|---|---|---|
| `CharRuns.Runs` | function_app.py:54-58 | every run that `split()` / `findall` returns is non-empty and made only of characters of the class |
| `CharRuns.RunsCount` | function_app.py:54-58 | the number of runs equals the number of positions where a run of the class begins |
| `CharRuns.RunsConcat` | function_app.py:54-58 | the runs, concatenated, are exactly the characters of the class in their order: nothing lost, duplicated or reordered |
| `CharRuns.RunsEmptyIff` | function_app.py:58 | there is no run iff no character of the text is in the class |
| `CharRuns.LayoutOfRuns` | function_app.py:54-58 | every text is its runs laid out with its gaps: no gap holds a character of the class, and the gaps between two runs are non-empty |
| `CharRuns.RunsOfLayout` | function_app.py:54-58 | any such valid layout is read back as exactly its runs, so each run is maximal |
| `CharRuns.RunsCharacterized` | function_app.py:54-58 | the runs of a text are `rs` iff the text lays out `rs` with some valid gaps: the maximal runs and no other segmentation |
| `Splitting.SplitOn` | function_app.py:59 | `text.split("\n\n")` always yields at least one segment |
| `Splitting.SplitJoin` | function_app.py:59 | joining the segments with the separator gives back the text |
| `Splitting.SplitParts` | function_app.py:59 | no segment contains the separator; the text is a single segment iff it has no separator; the separator follows the first segment and starts nowhere before it; every cut is at the leftmost occurrence: each segment but the last, followed by the separator, holds no earlier occurrence, overlapping or not |
| `Splitting.StripEmptyIff` | function_app.py:59 | `p.strip()` is empty iff every character of `p` is whitespace |
| `Metrics.WordsSpec` | function_app.py:54-55 | the words are non-empty and whitespace-free, hold every non-whitespace character in order, and number as many as the positions where a word begins; the text is the words laid out with whitespace-only gaps, the inner gaps non-empty, so each word is maximal |
| `Metrics.WordsCharacterized` | function_app.py:54 | `text.split() == ws` iff the text is `ws` separated, preceded and followed by whitespace-only gaps, the inner gaps non-empty |
| `Metrics.WordsOfJoin` | function_app.py:54 | `" ".join(ws).split() == ws` for non-empty whitespace-free words |
| `Metrics.RemoveSpacesSpec` | function_app.py:57 | removing spaces shortens the text by exactly its number of ASCII spaces; every other character (tabs, newlines) keeps its number of occurrences |
| `Metrics.WordCountAtMostNonSpaces` | function_app.py:55-57 | the word count never exceeds the count of non-space characters |
| `Metrics.SentenceCountSpec` | function_app.py:58 | the sentence count is at least 1; it is the number of punctuation runs when any `.`, `!` or `?` occurs, and 1 when none does |
| `Metrics.NonBlankCount` | function_app.py:59 | the comprehension keeps exactly the segments with a non-whitespace character, and no more segments than there are |
| `Metrics.ParagraphCountSpec` | function_app.py:59 | the paragraph count is between 1 and the number of `"\n\n"` segments; it is the number of segments with content, or 1 if there are none |
| `Metrics.FirstLongestFrom` | function_app.py:62 | the index returned is of a longest word, and every earlier word is strictly shorter (the tie-break of Python's `max`) |
| `Metrics.LongestWord` | function_app.py:62 | the longest word is `""` iff there are no words; otherwise it is a word, no word is longer, and no earlier word is as long |
| `Metrics.AverageWordLengthSpec` | function_app.py:61 | the average word length is 0 iff there are no words, and at least 1 otherwise |
| `Metrics.Analyze` | function_app.py:54-73 | character count is the length; word count is the number of word starts; the no-space count is the length minus the spaces and lies between the word count and the character count; sentence and paragraph counts are at least 1; the average and the longest word are empty/zero exactly without words; the reading time is non-negative |
| `Metrics.AnalyzeExample` | function_app.py:54-62 | `"Hello world. This is great!"` has 5 words, 2 sentences, 1 paragraph, and `world.` as its longest word |
| `Records.TextPreview` | function_app.py:77 | the preview is the text when it has at most 100 characters, else its first 100 characters followed by `...`; it never exceeds 103 characters and always begins with the first `min(length, 100)` characters of the text |
| `Records.BuildMetadata` | function_app.py:75-78 | `analyzedAt` is the given clock reading; the preview is bounded by 103 characters and is the text itself for short texts |
| `HistoryLimit.ParseShow` | function_app.py:111 | `int(str(n)) == n` for every integer `n` of at most 4300 digits |
| `HistoryLimit.ParseLiteral` | function_app.py:111 | a literal is accepted only if it has at most 4300 digits |
| `HistoryLimit.ParseTooManyDigits` | function_app.py:111-113 | a well-formed literal with more than 4300 digits, signed or not, is refused |
| `HistoryLimit.ClampSpec` | function_app.py:115-118 | the clamp lands in [1, 50], is the identity exactly on [1, 50], is monotone and is idempotent |
| `HistoryLimit.EffectiveLimit` | function_app.py:109-118 | the page size is always in [1, 50] |
| `HistoryLimit.EffectiveLimitCases` | function_app.py:109-118 | a parse failure gives 10; a parsed value in [1, 50] is kept; below 1 gives 1; above 50 gives 50 |
| `HistoryLimit.EffectiveLimitDefault` | function_app.py:109 | without a `limit` parameter the page size is 10 |
| `HistoryLimit.EffectiveLimitNegative` | function_app.py:115-116 | `limit=-5` gives 1 |
| `HistoryLimit.EffectiveLimitTooLarge` | function_app.py:117-118 | `limit=1000` gives 50 |
| `HistoryLimit.EffectiveLimitNotANumber` | function_app.py:110-113 | `limit=abc` gives 10 |
| `HistoryLimit.EffectiveLimitPadded` | function_app.py:110-111 | surrounding spaces and newlines are skipped: ` 7\n` gives 7 |
| `HistoryLimit.EffectiveLimitFileSeparator` | function_app.py:110-113 | a leading U+001C is whitespace to `str.split()` but not to `int()`, so the parse fails and the page size is 10 |
| `HistoryLimit.ResolveLimit` | function_app.py:109-118 | the step-by-step reassignment ends in [1, 50] and at the same value as the page-size function |
| `Handlers.ResolveText` | function_app.py:30-36 | a usable query parameter wins; otherwise the body's `text` member if it is usable; no text exactly when neither is usable (a non-JSON body counts as absent) |
| `Handlers.HandleAnalyze` | function_app.py:30-103 | no usable text gives 400 with both usage examples and no store call; usable text offers exactly one record (fresh id, analysis, metadata, original text); 200 iff the store succeeds, and then the response is the record without `originalText`; otherwise 500 with the failure detail and no id |
| `Handlers.QueryParameterFirst` | function_app.py:30-36 | with a usable query parameter, the body makes no difference to the outcome |
| `Handlers.AnalyzeResponseMetrics` | function_app.py:99-103 | a 200 response carries the generated id, at least one sentence and one paragraph, a non-empty text, and a preview of at most 103 characters |
| `Handlers.HandleHistory` | function_app.py:109-135 | the page size queried is in [1, 50] and is the resolved limit; 200 iff the query returns rows, with `count` equal to the number of rows returned, else 500 with the failure detail |
| `Handlers.HistoryCountBound` | function_app.py:120-128 | if the store keeps its `TOP n` promise for the page size queried, a history response has at most 50 rows, and at most the requested number when that number is at least 1 |
| `Handlers.WrittenRecordReadBack` | function_app.py:81-125 | a record stored by the analyze handler and later read back by the history handler shows the same id, analysis and metadata as the analyze response |

## Left out

- Cosmos DB itself: client construction and environment lookup (function_app.py:12-24), `upsert_item` and `query_items`. The store is a parameter, and its answer is an abstract success or failure.
- The `ORDER BY c.metadata.analyzedAt DESC` ordering and the `TOP` bound (function_app.py:122) are the database's promises. The ordering is not modelled. The `TOP` bound appears only as the hypothesis of `Handlers.HistoryCountBound`.
- The query string is not modelled. The model keeps the page size that is put into it.
- Metrics.Analyze: `averageWordLength` and `readingTimeMinutes` are the exact rational quotients. Python's `round(..., 1)` on binary floating point is not modelled.
- `datetime.utcnow().isoformat()` and `uuid.uuid4()` are clock and randomness. They are the parameters `now` and `newId`, so the uniqueness of ids is not modelled.
- HTTP request and response objects, `json.dumps` formatting, MIME types and logging are not modelled. Each response is a datatype with the same fields, and `StatusCode` gives its status.
- A `text` member that is falsy but not a string (`0`, `false`, `null`, `[]`, `{}`) is rejected by `not text` (function_app.py:38) just as a missing member is. The model represents it as an absent member (`None`), so the 400 path covers it.
- A `text` member that is truthy but not a string (`5`, `true`, `[1]`) passes `not text` and makes `text.split()` (function_app.py:54) raise `AttributeError`. A body that is valid JSON but not an object makes `body.get` (function_app.py:34) raise `AttributeError`, which `except ValueError` does not catch. Neither case is modelled. The source does not catch these errors, so the host's own error response applies.
- HistoryLimit.ParseInt: only ASCII digits are accepted. Python's `int()` also accepts other Unicode decimal digits.
- HistoryLimit.ParseInt: the digit limit is the interpreter's default of 4300 (`MaxStrDigits`). A deployment that changes it with `sys.set_int_max_str_digits` or `PYTHONINTMAXSTRDIGITS` is not modelled.
- Strings are sequences of Unicode scalar values. A Python string can also hold lone surrogates, which the model cannot represent.
