/**
 The logic inside the application shell: the CSV export (`rowsToCSV`) and
 the scoring of a submitted quiz (`handleSubmitAnswers`).
 */
module App {
  import opened Strings
  import opened Collections
  import opened Types

  /** `s.replace(/"/g, '""')`: every double quote doubled. */
  function EscapeQuotes(s: string): (r: string)
    ensures |r| == |s| + multiset(s)['"']
    ensures '"' !in s ==> r == s
    ensures forall k :: 0 <= k < |r| ==> r[k] == '"' || r[k] in s
  {
    if |s| == 0 then ""
    else
      assert s == [s[0]] + s[1..];
      (if s[0] == '"' then "\"\"" else [s[0]]) + EscapeQuotes(s[1..])
  }

  /** How a CSV reader reads a quoted field's body: a doubled quote stands for one. */
  function UnescapeQuotes(s: string): string
  {
    if |s| == 0 then ""
    else if |s| >= 2 && s[0] == '"' && s[1] == '"' then "\"" + UnescapeQuotes(s[2..])
    else [s[0]] + UnescapeQuotes(s[1..])
  }

  lemma {:induction false} UnescapePair(t: string)
    ensures UnescapeQuotes("\"\"" + t) == "\"" + UnescapeQuotes(t)
  {
    assert ("\"\"" + t)[2..] == t;
  }

  lemma {:induction false} UnescapeOther(c: char, t: string)
    requires c != '"'
    ensures UnescapeQuotes([c] + t) == [c] + UnescapeQuotes(t)
  {
    assert ([c] + t)[1..] == t;
  }

  /** The doubling is undone by the reading every CSV reader applies. */
  lemma {:induction false} UnescapeOfEscape(s: string)
    ensures UnescapeQuotes(EscapeQuotes(s)) == s
  {
    if |s| > 0 {
      var rest := EscapeQuotes(s[1..]);
      UnescapeOfEscape(s[1..]);
      if s[0] == '"' {
        UnescapePair(rest);
      } else {
        UnescapeOther(s[0], rest);
      }
      assert s == [s[0]] + s[1..];
    }
  }

  /** One CSV field: wrapped in double quotes, inner quotes doubled, so that a
      CSV reader recovers the field from what lies between the outer quotes. */
  function QuoteField(s: string): (q: string)
    ensures |q| >= 2 && q[0] == '"' && q[|q| - 1] == '"'
    ensures UnescapeQuotes(q[1..|q| - 1]) == s
  {
    UnescapeOfEscape(s);
    var q := "\"" + EscapeQuotes(s) + "\"";
    assert q[1..|q| - 1] == EscapeQuotes(s);
    q
  }

  const CsvHeader: string := "word,ipa,meaning"

  /** One exported row: its three quoted fields, separated by commas. The line
      starts and ends with a double quote. */
  function CsvLine(row: VocabRow): (line: string)
    ensures |line| >= 8 && line[0] == '"' && line[|line| - 1] == '"'
  {
    QuoteField(row.word) + "," + QuoteField(row.ipa) + "," + QuoteField(row.meaning)
  }

  function CsvLines(rows: seq<VocabRow>): (lines: seq<string>)
    ensures |lines| == |rows|
    ensures forall k :: 0 <= k < |rows| ==> lines[k] == CsvLine(rows[k])
  {
    seq(|rows|, k requires 0 <= k < |rows| => CsvLine(rows[k]))
  }

  /** A character other than the quote and the comma shows up in a CSV line
      only when some field holds it. */
  lemma {:induction false} CsvLineAvoids(row: VocabRow, c: char)
    requires c != '"' && c != ','
    requires c !in row.word && c !in row.ipa && c !in row.meaning
    ensures c !in CsvLine(row)
  {
    QuoteFieldAvoids(row.word, c);
    QuoteFieldAvoids(row.ipa, c);
    QuoteFieldAvoids(row.meaning, c);
  }

  lemma {:induction false} QuoteFieldAvoids(s: string, c: char)
    requires c != '"' && c !in s
    ensures c !in QuoteField(s)
  {
    var e := EscapeQuotes(s);
    assert QuoteField(s) == "\"" + e + "\"";
    assert c !in e;
  }

  predicate NoLineFeed(row: VocabRow) {
    '\n' !in row.word && '\n' !in row.ipa && '\n' !in row.meaning
  }

  /** `rowsToCSV`: the header line, then one line per row in order, joined by
      line feeds. */
  function RowsToCsv(rows: seq<VocabRow>): (csv: string)
    ensures |CsvHeader| <= |csv| && csv[..|CsvHeader|] == CsvHeader
    ensures rows == [] ==> csv == CsvHeader
  {
    Join([CsvHeader] + CsvLines(rows), "\n")
  }

  lemma {:induction false} ExportLinesHaveNoLineFeed(rows: seq<VocabRow>)
    requires forall k :: 0 <= k < |rows| ==> NoLineFeed(rows[k])
    ensures forall k :: 0 <= k < |rows| ==> '\n' !in CsvLines(rows)[k]
  {
    forall k | 0 <= k < |rows|
      ensures '\n' !in CsvLines(rows)[k]
    {
      CsvLineAvoids(rows[k], '\n');
    }
  }

  /** Read back line by line, the export gives the header and then exactly one
      line per row, as long as no field holds a line feed. */
  lemma {:induction false} CsvSplitsIntoLines(rows: seq<VocabRow>)
    requires forall k :: 0 <= k < |rows| ==> NoLineFeed(rows[k])
    ensures Split(RowsToCsv(rows), '\n') == [CsvHeader] + CsvLines(rows)
  {
    HeaderHasNoLineFeed();
    ExportLinesHaveNoLineFeed(rows);
    HeadedLinesSplit(CsvHeader, CsvLines(rows));
  }

  lemma {:induction false} HeaderHasNoLineFeed()
    ensures '\n' !in CsvHeader
  {
  }

  /** A header line and body lines, none holding a line feed, joined and split again. */
  lemma {:induction false} HeadedLinesSplit(header: string, body: seq<string>)
    requires '\n' !in header
    requires forall k :: 0 <= k < |body| ==> '\n' !in body[k]
    ensures Split(Join([header] + body, "\n"), '\n') == [header] + body
  {
    var lines := [header] + body;
    assert forall k :: 1 <= k < |lines| ==> lines[k] == body[k - 1];
    SplitOfJoin(lines, '\n');
  }

  /** `answers[i]`: past the end of the array it is `undefined`, read as `Null`. */
  function AnswerAt(answers: seq<Answer>, i: nat): Answer {
    if i < |answers| then answers[i] else Null
  }

  /** The per-question check of `handleSubmitAnswers`: a null or undefined
      answer never counts; mcq needs the exact answer; fill compares trimmed,
      lower-cased text. */
  predicate ScoredCorrect(q: Question, a: Answer) {
    match a
    case Null => false
    case Text(s) =>
      match q
      case MCQQuestion(_, _, answer) => s == answer
      case FillQuestion(_, answer) => ToLower(Trim(s)) == ToLower(Trim(answer))
  }

  /** The stored answer always passes the check, and a null or undefined
      answer never does. */
  lemma {:induction false} StoredAnswerPasses(q: Question)
    ensures ScoredCorrect(q, Text(q.answer))
    ensures !ScoredCorrect(q, Null)
  {
    match q
    case MCQQuestion(_, _, _) =>
    case FillQuestion(_, answer) =>
      assert ToLower(Trim(answer)) == ToLower(Trim(answer));
  }

  /** The indices below n whose answer the scoring counts. */
  ghost function CorrectIndices(quiz: Quiz, answers: seq<Answer>, n: nat): set<nat>
    requires n <= |quiz|
  {
    set i: nat | i < n && ScoredCorrect(quiz[i], AnswerAt(answers, i))
  }

  /** `handleSubmitAnswers`: `total` is the quiz length and `correct` the
      number of questions whose check succeeds, so at most `total`. */
  method HandleSubmitAnswers(quiz: Quiz, answers: seq<Answer>) returns (score: Score)
    ensures score.total == |quiz|
    ensures score.correct == |CorrectIndices(quiz, answers, |quiz|)|
    ensures score.correct <= score.total
  {
    var correct := 0;
    var i := 0;
    while i < |quiz|
      invariant i <= |quiz|
      invariant correct == |CorrectIndices(quiz, answers, i)|
    {
      CorrectIndicesStep(quiz, answers, i);
      var userAnswer := AnswerAt(answers, i);
      if userAnswer != Null {
        match quiz[i]
        case MCQQuestion(_, _, answer) =>
          if userAnswer.value == answer {
            correct := correct + 1;
          }
        case FillQuestion(_, answer) =>
          if ToLower(Trim(userAnswer.value)) == ToLower(Trim(answer)) {
            correct := correct + 1;
          }
      }
      i := i + 1;
    }
    SubsetCard(CorrectIndices(quiz, answers, |quiz|), Range(|quiz|));
    score := Score(correct, |quiz|);
  }

  /** Extending the prefix by question i adds one to the count exactly when
      question i is scored correct. */
  lemma {:induction false} CorrectIndicesStep(quiz: Quiz, answers: seq<Answer>, i: nat)
    requires i < |quiz|
    ensures |CorrectIndices(quiz, answers, i + 1)| ==
      |CorrectIndices(quiz, answers, i)| + (if ScoredCorrect(quiz[i], AnswerAt(answers, i)) then 1 else 0)
  {
    assert CorrectIndices(quiz, answers, i + 1) ==
      CorrectIndices(quiz, answers, i) + (if ScoredCorrect(quiz[i], AnswerAt(answers, i)) then {i} else {});
  }

  /** Answering every question with its own stored answer scores full marks. */
  lemma {:induction false} AnswerKeyScoresFull(quiz: Quiz)
    ensures |CorrectIndices(quiz, seq(|quiz|, k requires 0 <= k < |quiz| => Text(quiz[k].answer)), |quiz|)| == |quiz|
  {
    var key := seq(|quiz|, k requires 0 <= k < |quiz| => Text(quiz[k].answer));
    assert CorrectIndices(quiz, key, |quiz|) == Range(|quiz|) by {
      forall i: nat | i < |quiz|
        ensures ScoredCorrect(quiz[i], AnswerAt(key, i))
      {
        assert AnswerAt(key, i) == Text(quiz[i].answer);
      }
    }
  }

  /** Unanswered questions (null, undefined or past the end) are never counted. */
  lemma {:induction false} UnansweredNeverCounts(quiz: Quiz, answers: seq<Answer>)
    ensures forall i: nat :: i < |quiz| && AnswerAt(answers, i) == Null ==> i !in CorrectIndices(quiz, answers, |quiz|)
  {
  }

  /** A fill answer is scored the same with whitespace added around it. */
  lemma {:induction false} FillIgnoresSurroundingWhitespace(q: Question, pre: string, t: string, post: string)
    requires q.FillQuestion?
    requires AllWhitespace(pre) && AllWhitespace(post) && IsTrimmed(t)
    ensures ScoredCorrect(q, Text(pre + t + post)) == ScoredCorrect(q, Text(t))
  {
    if t == [] {
      assert AllWhitespace(pre + t + post);
    } else {
      TrimSurrounded(pre, t, post);
    }
  }

  /** A fill answer is scored the same after lower-casing it. */
  lemma {:induction false} FillIgnoresCase(q: Question, s: string)
    requires q.FillQuestion?
    ensures ScoredCorrect(q, Text(ToLower(s))) == ScoredCorrect(q, Text(s))
  {
    TrimOfLower(s);
    LowerIdempotent(Trim(s));
  }

  /** A multiple-choice answer must be the stored answer exactly. */
  lemma {:induction false} McqNeedsExactAnswer(q: Question, s: string)
    requires q.MCQQuestion?
    ensures ScoredCorrect(q, Text(s)) <==> s == q.answer
  {
  }
}
