# Vocabulary deck and quiz logic, in Dafny

This project models the logic of a browser vocabulary trainer in Dafny and proves properties of it. A user pastes or uploads a CSV/TSV list of words, and the app can export that deck back to CSV. It can build a quiz of multiple-choice (`mcq`) and fill-in (`fill`) questions from the deck, and score the answers.

The modelled logic:

- **Parser.** `parseTextToVocabRows` turns text into `{word, ipa, meaning}` rows. The steps are:
  - split the text into lines;
  - trim each line and drop the blank ones;
  - choose tab or comma from the first line;
  - trim each field and strip one outer pair of quotes;
  - drop a recognised header row;
  - map the columns by field count;
  - drop rows with an empty word.
- **Quiz generator.** `generateQuiz`, `generateMCQ` and `generateFill`. Every `Math.random` outcome is a parameter:
  - the candidate shuffle, and the two shuffles of `generateMCQ`, are index permutations;
  - the kind drawn for each question is an index into the available kinds.

  The contracts hold for every such choice.
- **CSV export.** `rowsToCSV`, and what the parser makes of its output.
- **Scoring.** The loop of `handleSubmitAnswers`.
- **Quiz runner.** The card status (`getAnswerStatus`) and the answer state:
  - `handleSetAnswer`;
  - the all-null resets at mount, on a new quiz and on restart;
  - the submission.

  This is a `Runner` class whose methods update its fields.
- **Quiz-kind checkboxes.** `handleToggle`, and the `isDisabled` and `checked` rules.

Modules:

- `Strings` and `Collections`: the JavaScript built-ins the code relies on, over `seq<char>` and `seq`.
  - `trim` removes exactly the ECMAScript WhiteSpace and LineTerminator code points.
  - `split` takes a one-character separator.
  - `[...new Set(s)]` becomes `Dedup`.
  - A random-comparator sort becomes `Permute`.
- `Types`: the records of `types.ts`.
- `FileUtils`, `QuizUtils`, `App`, `QuizRunner` and `QuizTypeSelector` follow the source files of the same names.
- `CsvRoundTrip` relates the exporter to the parser.

**A field holding a comma does not survive export and re-import.** The exporter quotes every field, but the parser splits every line on every comma, quoted or not, and it does not undo doubled quotes. The model follows the code:

- `ExportThenImport` proves the round trip for fields with no comma, no double quote and no line terminator.
- `CommaInMeaningSplits` proves what happens to a meaning `a,b`. It comes back as `"a b"`, with the quote characters kept and the comma turned into a space.

## Model

| member | source | states |
|---|---|---|
| Strings.Trim | utils/fileUtils.ts:19 | `trim`: the result is empty exactly when the input is all whitespace, never starts or ends with whitespace, and leaves an already trimmed string alone |
| Strings.Split | utils/fileUtils.ts:26 | `split` on one character gives at least one piece, and no piece holds the separator |
| Strings.JoinOfSplit | utils/fileUtils.ts:26 | joining the pieces of a split with the separator gives back the split string |
| Strings.SplitOfJoin | App.tsx:55 | splitting a join gives back the parts, when no part holds the separator |
| Strings.SplitThree | App.tsx:53 | three separator-free pieces, separated, split back into those three |
| Strings.SplitFour | App.tsx:53 | four separator-free pieces, separated, split back into those four |
| Strings.TrimAvoids | utils/fileUtils.ts:19 | trimming never introduces a character |
| Strings.TrimDropLast | utils/fileUtils.ts:19 | dropping a trailing whitespace character does not change the trimmed string |
| Strings.TrimSurrounded | App.tsx:98 | trimming removes exactly the whitespace around a trimmed non-empty core |
| Strings.TrimOfLower | App.tsx:98 | trimming and (ASCII) lower-casing can be done in either order |
| Strings.ToLower | utils/fileUtils.ts:28 | `toLowerCase` on ASCII: same length, each capital `A`–`Z` becomes the letter 32 code points above it (its lower-case form), no capital letter left, every other character unchanged |
| Strings.Join | utils/fileUtils.ts:28 | `join`: the empty list gives the empty string, otherwise the result starts with the first part |
| Strings.Contains | utils/fileUtils.ts:29 | `includes`: a string holds only what is no longer than itself |
| Strings.IndexOf | utils/fileUtils.ts:26 | the first position of a character: it holds the character and no earlier position does |
| Collections.Permute | utils/quizUtils.ts:14 | a shuffle by an index permutation: same length, entry i is the entry at p[i], no element lost, distinctness kept |
| Collections.Dedup | utils/quizUtils.ts:14 | `[...new Set(s)]`: no repeats, the same elements, as many entries as distinct elements |
| Collections.SliceEnd | utils/quizUtils.ts:15 | the end index `slice(0, end)` uses: never past the length, and min(end, length) for a non-negative end |
| Collections.Filter | utils/fileUtils.ts:46 | `filter`: every kept element passes the test and comes from the input, every passing element is kept, in input order |
| Collections.FilterCounts | utils/fileUtils.ts:20 | `filter` keeps each passing element exactly as often as the input holds it, repeats included, and no failing element |
| Collections.PermutationCovers | utils/quizUtils.ts:54 | n distinct indices below n cover every index below n |
| FileUtils.SplitLines | utils/fileUtils.ts:18 | `split(/\r?\n/)`: one line per line-feed piece, none holding a line feed |
| FileUtils.SplitLinesWithoutCarriageReturns | utils/fileUtils.ts:18 | when no line-feed piece ends in a carriage return, the line split gives exactly the line-feed pieces |
| FileUtils.CarriageReturnsTrimmedAway | utils/fileUtils.ts:18-19 | after trimming, the `\r` dropped by the `\r?\n` split makes no difference |
| FileUtils.TrimAll | utils/fileUtils.ts:19 | `.map(l => l.trim())`: one trimmed line per line, in order |
| FileUtils.NonBlankLines | utils/fileUtils.ts:17-20 | the kept lines are non-empty, trimmed and free of line feeds; they are the trimmed split lines in order, each non-blank one kept as often as it occurs, the blank ones dropped |
| FileUtils.CleanLinesSurvive | utils/fileUtils.ts:17-20 | input whose lines are already trimmed and non-blank passes the trim-and-filter step unchanged |
| FileUtils.IsQuoted | utils/fileUtils.ts:26 | the `^"(.*)"$` test: a quote at each end, and between them no line feed or carriage return, since `.` matches neither |
| FileUtils.Delimiter | utils/fileUtils.ts:24 | the delimiter is tab exactly when the first line holds a tab, comma otherwise |
| FileUtils.ParseField | utils/fileUtils.ts:26 | a field is trimmed, and loses one outer quote pair exactly when the trimmed text is quoted; the inner text is not trimmed again or unescaped |
| FileUtils.SplitFields | utils/fileUtils.ts:26 | one parsed field per delimited piece of the line |
| FileUtils.ToRow | utils/fileUtils.ts:33-45 | one field gives (f0, "", ""); two give (f0, "", f1); three or more give (f0, f1, the rest joined by spaces) |
| FileUtils.HeaderNeedsFourLetters | utils/fileUtils.ts:28-29 | the header test (`IsHeader`) on the lower-cased, comma-joined first row: a header has at least one field and a joined text at least as long as `word` |
| FileUtils.HeaderLines | utils/fileUtils.ts:28-31 | at most one line, the first, is dropped as a header |
| FileUtils.RowsOfLines | utils/fileUtils.ts:24-33 | one row per line after the header, each split with the delimiter the first line chose |
| FileUtils.KeepWords | utils/fileUtils.ts:46 | the empty-word filter keeps the rows in order, each row with a word as often as it occurs, and no row with an empty word |
| FileUtils.ParseTextToVocabRows | utils/fileUtils.ts:16-47 | blank input gives no rows; no row has an empty word; at most one row per non-blank line |
| FileUtils.ParsedRowsInOrder | utils/fileUtils.ts:33-46 | the result is the line rows in line order; every row with a word is kept as often as it occurs, duplicates included, and no other row |
| FileUtils.BlankInputHasNoRows | utils/fileUtils.ts:17-22 | input whose every line is whitespace parses to no rows |
| FileUtils.QuotedBlankIsAWord | utils/fileUtils.ts:26 | the quote strip comes after the trim, so a quoted blank such as `" "` is a non-empty word |
| FileUtils.InnerCarriageReturnKeepsQuotes | utils/fileUtils.ts:26 | a carriage return inside the quotes stops the strip; both quotes stay |
| FileUtils.SurplusColumnsJoinIntoMeaning | utils/fileUtils.ts:43 | the surplus columns come back from the meaning, split on spaces, when none holds a space |
| FileUtils.ThreeFieldRow | utils/fileUtils.ts:40-44 | a line of three pieces gives the row of their three parsed fields |
| FileUtils.FourFieldRow | utils/fileUtils.ts:40-44 | a line of four pieces gives a row whose meaning is the last two parsed fields joined by a space |
| FileUtils.BarePieceParses | utils/fileUtils.ts:26 | an unquoted piece with no surrounding whitespace parses to itself |
| QuizUtils.Candidates | utils/quizUtils.ts:38-40 | exactly the rows with a non-empty word and meaning, each with its own index, in deck order |
| QuizUtils.AvailableKinds | utils/quizUtils.ts:45-48 | a kind stays exactly when it was asked for and, for mcq, there are at least four candidates |
| QuizUtils.DistractorPool | utils/quizUtils.ts:10-12 | the pool's meanings are exactly the non-empty meanings of the other rows that differ from the answer |
| QuizUtils.Distractors | utils/quizUtils.ts:14-15 | up to `choices - 1` distinct distractors, all meanings of other rows, never the answer |
| QuizUtils.GenerateMCQ | utils/quizUtils.ts:6-24 | question is the word, answer the meaning; the options hold the answer exactly once and no string twice; length 1 + min(choices - 1, distinct other meanings); every other option is another row's meaning |
| QuizUtils.GenerateFill | utils/quizUtils.ts:26-33 | the fill question asks the row's word for the row's meaning |
| QuizUtils.MakeQuestion | utils/quizUtils.ts:57-70 | a question of the drawn kind, asking the row's word for its meaning; an mcq one holds the answer among distinct options drawn from the other rows' meanings |
| QuizUtils.SelectedIndices | utils/quizUtils.ts:52-55 | the first min(count, candidates) entries of the shuffled candidates: distinct eligible rows, as many as `slice` gives |
| QuizUtils.PickedIndicesDistinct | utils/quizUtils.ts:53-55 | the shuffle never picks one row twice |
| QuizUtils.GenerateQuiz | utils/quizUtils.ts:35-73 | empty in every early-return case; otherwise one question per selected row, of an available kind, asking that row's word for its meaning |
| QuizUtils.McqAloneNeedsFourCandidates | utils/quizUtils.ts:45-50 | with only mcq asked for, fewer than four candidates give an empty quiz |
| QuizUtils.QuizLength | utils/quizUtils.ts:52 | for a non-negative count the quiz has min(count, candidates) questions |
| QuizUtils.QuestionsFromDistinctEligibleRows | utils/quizUtils.ts:57-70 | no two questions come from the same row, and each asks a non-empty word for a non-empty meaning |
| QuizUtils.EveryCandidateAskedWhenCountSuffices | utils/quizUtils.ts:52-55 | when the count reaches the number of candidates, every eligible row is asked about |
| QuizUtils.SingleKindQuiz | utils/quizUtils.ts:59 | when one kind is asked for, every question has that kind |
| App.EscapeQuotes | App.tsx:53 | every double quote doubled: the length grows by the number of quotes, and a quote-free string is unchanged |
| App.UnescapeOfEscape | App.tsx:53 | reading a doubled quote as one undoes the escaping |
| App.QuoteField | App.tsx:53 | a field wrapped in double quotes whose inside, read with doubled quotes as one, gives the field back |
| App.CsvLine | App.tsx:53 | one row's line starts and ends with a double quote |
| App.RowsToCsv | App.tsx:50-56 | the export starts with the header line, and an empty deck exports the header alone; `App.CsvSplitsIntoLines` gives its lines |
| App.CsvLines | App.tsx:52-54 | one line per row, in order, each the row's three quoted fields |
| App.CsvLineAvoids | App.tsx:53 | a character other than quote and comma appears in a CSV line only when some field holds it |
| App.ExportLinesHaveNoLineFeed | App.tsx:52-54 | the row lines hold no line feed when no field does |
| App.CsvSplitsIntoLines | App.tsx:50-56 | the export is the header line followed by one line per row, in order, joined by line feeds |
| App.HeadedLinesSplit | App.tsx:55 | a header and body lines, none with a line feed, split back into themselves |
| App.StoredAnswerPasses | App.tsx:87-98 | the per-question check (`ScoredCorrect`): the stored answer always passes, a null or undefined answer never does |
| App.HandleSubmitAnswers | App.tsx:83-103 | total is the quiz length; correct is the number of questions whose check succeeds, so at most total |
| App.CorrectIndicesStep | App.tsx:86-101 | each question adds one to the count exactly when its check succeeds |
| App.AnswerKeyScoresFull | App.tsx:86-101 | answering each question with its stored answer scores full marks |
| App.UnansweredNeverCounts | App.tsx:87-88 | a null, undefined or missing answer is never counted |
| App.McqNeedsExactAnswer | App.tsx:91-92 | an mcq answer counts exactly when it equals the stored answer |
| App.FillIgnoresSurroundingWhitespace | App.tsx:97-98 | a fill answer scores the same with whitespace added around it |
| App.FillIgnoresCase | App.tsx:97-98 | a fill answer scores the same after lower-casing it |
| CsvRoundTrip.QuotedFieldReadsBack | App.tsx:53 | a field with no comma, quote or line terminator, quoted by the export, parses back to itself |
| CsvRoundTrip.CsvLinePieces | App.tsx:53 | an exported line splits on commas into its three quoted fields when no field holds a comma |
| CsvRoundTrip.CsvLineReadsBack | App.tsx:53 | each exported line of such fields parses to the row it came from |
| CsvRoundTrip.HeaderRecognised | App.tsx:51 | the export header chooses the comma delimiter and is recognised and dropped as a header |
| CsvRoundTrip.ExportLineShape | App.tsx:52-55 | every exported line is non-empty, trimmed and does not end in a carriage return |
| CsvRoundTrip.ExportSplitLines | App.tsx:55 | the parser's line split gives back exactly the exported lines |
| CsvRoundTrip.ExportLinesSurvive | App.tsx:55 | all exported lines survive the trim-and-blank-filter step |
| CsvRoundTrip.ExportLinesRead | App.tsx:50-56 | after the header, the exported lines give one row per exported row |
| CsvRoundTrip.RowsAfterHeader | utils/fileUtils.ts:28-33 | after a recognised comma header, each following line gives one row |
| CsvRoundTrip.ExportedRowsRead | utils/fileUtils.ts:33-45 | the rows the parser makes of the exported lines, one per row |
| CsvRoundTrip.ReadBackOfExport | App.tsx:50-56 | importing an export gives the rows read from its lines, minus those with an empty word |
| CsvRoundTrip.ExportThenImport | App.tsx:50-56 | export then import gives the deck back, for non-empty words and fields without comma, quote or line terminator; an empty deck included |
| CsvRoundTrip.CommaMeaningPieces | App.tsx:53 | a quoted meaning `a,b` is cut in two at its comma by the parser's split |
| CsvRoundTrip.CommaInMeaningSplits | App.tsx:53 | a meaning `a,b` comes back as `"a b"`: quotes kept, comma turned into a space |
| QuizRunner.GetAnswerStatus | components/QuizRunner.tsx:15-27 | neutral before results; unanswered for a null, undefined or empty answer; otherwise correct or incorrect, correct exactly when the scoring counts the answer |
| QuizRunner.Blank | components/QuizRunner.tsx:104 | `Array(n).fill(null)`: n entries, all null |
| QuizRunner.WithAnswer | components/QuizRunner.tsx:112-116 | position i set to the value, every other position unchanged, holes past the end read as null |
| QuizRunner.LastAnswerWins | components/QuizRunner.tsx:112-116 | answering a question twice keeps the second answer only |
| QuizRunner.AnswersCommute | components/QuizRunner.tsx:112-116 | answers to different questions do not interfere |
| QuizRunner.BlankSheetScoresNothing | components/QuizRunner.tsx:104 | a fresh answer sheet scores nothing and shows every card unanswered |
| QuizRunner.StatusAgreesWithScore | components/QuizRunner.tsx:20-23 | a card marked correct is counted by the score, and a counted question is marked correct unless its answer is the empty string |
| QuizRunner.EmptyFillAnswerScoredButUnanswered | components/QuizRunner.tsx:17 | an empty answer to a fill question counts exactly when the stored answer is blank, yet its card shows unanswered |
| QuizRunner.Runner.constructor | components/QuizRunner.tsx:104-105 | a new runner holds the quiz, one null answer per question, results hidden |
| QuizRunner.Runner.QuizChanged | components/QuizRunner.tsx:107-110 | a new quiz resets the answers to all null and hides the results |
| QuizRunner.Runner.SetAnswer | components/QuizRunner.tsx:112-116 | the answer at the index is replaced and every other answer is kept |
| QuizRunner.Runner.Submit | components/QuizRunner.tsx:118-121 | the score of the current answers is handed over and the results are shown |
| QuizRunner.Runner.Restart | components/QuizRunner.tsx:123-127 | the answers return to all null and the results are hidden |
| QuizRunner.Runner.StatusAt | components/QuizRunner.tsx:152 | a card is neutral before submission; afterwards, for any answer but the empty string, correct exactly when the score counts it |
| QuizTypeSelector.HandleToggle | components/QuizTypeSelector.tsx:21-29 | the kind is removed if present and added if absent; every other kind is unchanged |
| QuizTypeSelector.ToggleTwiceRestores | components/QuizTypeSelector.tsx:22-27 | toggling the same kind twice gives the selection back |
| QuizTypeSelector.OfferedKinds | components/QuizTypeSelector.tsx:16-19 | only mcq and fill are offered; mcq is disabled below four rows, fill below one |
| QuizTypeSelector.IsDisabled | components/QuizTypeSelector.tsx:34 | a deck of four rows or more enables every offered box; an empty deck disables every one |
| QuizTypeSelector.IsChecked | components/QuizTypeSelector.tsx:43 | a checked box's kind is selected, and a disabled box is never checked |
| QuizTypeSelector.CheckedMeansSelectedAndEnabled | components/QuizTypeSelector.tsx:43 | a box shows checked exactly when its kind is selected and the deck is large enough; a disabled box never shows checked |
| QuizTypeSelector.DisabledMcqNeverAsked | components/QuizTypeSelector.tsx:34 | a selected but disabled mcq kind is dropped by the generator: fewer than four rows give fewer than four candidates |
| QuizTypeSelector.CheckedMcqMayBeDropped | components/QuizTypeSelector.tsx:34 | the box counts rows while the generator counts candidates, so a checked mcq can still be dropped |

## Left out

- The `tf` kind. It is not a question type and has no generator. Its scoring branch in `handleSubmitAnswers` cannot be reached, so `QuizKind` has only mcq and fill.
- The unreachable `default` branches of `generateQuiz` and `getAnswerStatus`. The question types are exhaustive.
- `Math.random` itself: its distribution, and whether a sort with a random comparator is a uniform shuffle. Its outcomes are parameters. `QuizUtils.ValidRandomness` only asks them to be permutations of the right sizes and kind indices in range, and only on the path that uses them.
- The question-count clamp `Math.max(1, Math.min(20, Number(...)))`, which parses a number. `GenerateQuiz` takes any integer count and follows `slice` for a negative one.
- Browser I/O: `download`, the FileReader handlers, the JSON exports of the deck and of the quiz, and the alerts in `handleCreateQuiz`. Also all JSX rendering, translations, and the text-to-speech dialogue view.
- Strings.ToLower: lower-cases only the ASCII letters. Full Unicode case mapping is not modelled, so `toLowerCase` is exact only on ASCII text.
- Text is a sequence of Dafny `char`s, each a Unicode scalar value. A JavaScript surrogate pair is one `char` here, and a lone surrogate cannot be represented. No modelled operation counts code units, and every whitespace and line-terminator character lies in the Basic Multilingual Plane, so this changes no result.
- Collections.SliceEnd: its contract does not describe a negative end. `slice` counts such an end from the back, and the body follows it.
- App.HandleSubmitAnswers: the `if (!quiz) return` guard is not modelled. The quiz is always a sequence here.
- QuizRunner.Runner.SetAnswer: requires an index below the quiz length, the only indices the question cards pass. `WithAnswer` models writes past the end too.
- QuizRunner.Runner.Submit: hands its score straight to the caller. The shell's score state, and the `onReset` callback of `Restart` that clears it, are not modelled.
- QuizTypeSelector.HandleToggle: returns the new set. Copying the selection before the in-place `add`/`delete` makes that update unobservable. The `onChange` callback is the return value.
- Collections.Dedup: its contract does not state that first occurrences keep their order. The shuffle that follows in `generateMCQ` makes the order irrelevant.
- FileUtils.ParseTextToVocabRows: its own contract states the bounds and the empty-word rule. Line order and completeness are stated by `FileUtils.ParsedRowsInOrder`.
- CSV reading with quote-aware splitting. The parser does not do it; see `CsvRoundTrip.CommaInMeaningSplits`.
