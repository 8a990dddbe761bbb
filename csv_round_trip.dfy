/**
 What the parser makes of the exporter's output: an exported deck read back
 with `parseTextToVocabRows`.
 */
module CsvRoundTrip {
  import opened Strings
  import opened Collections
  import opened Types
  import opened FileUtils
  import opened App

  /** A field the export and the parser agree on: no comma (the parser splits
      on every comma, quoted or not), no double quote (the parser does not
      undo the doubling) and no line terminator (`.` in the quote-stripping
      pattern does not cross one). */
  predicate PlainField(f: string) {
    ',' !in f && '"' !in f && forall k :: 0 <= k < |f| ==> !IsLineTerminator(f[k])
  }

  predicate PlainRow(row: VocabRow) {
    PlainField(row.word) && PlainField(row.ipa) && PlainField(row.meaning)
  }

  /** A plain field, quoted by the export, reads back as itself. */
  lemma {:induction false} QuotedFieldReadsBack(f: string)
    requires PlainField(f)
    ensures ParseField(QuoteField(f)) == f
  {
    var t := QuoteField(f);
    assert t == "\"" + f + "\"";
    assert IsTrimmed(t);
    assert IsQuoted(t) by {
      forall k | 1 <= k < |t| - 1
        ensures !IsLineTerminator(t[k])
      {
        assert t[k] == f[k - 1];
      }
    }
    assert t[1..|t| - 1] == f;
  }

  /** An exported line splits on commas into its three quoted fields when no
      field holds a comma. */
  lemma {:induction false} CsvLinePieces(row: VocabRow)
    requires ',' !in row.word && ',' !in row.ipa && ',' !in row.meaning
    ensures Split(CsvLine(row), ',') == [QuoteField(row.word), QuoteField(row.ipa), QuoteField(row.meaning)]
  {
    QuoteFieldAvoids(row.word, ',');
    QuoteFieldAvoids(row.ipa, ',');
    QuoteFieldAvoids(row.meaning, ',');
    SplitThree(QuoteField(row.word), QuoteField(row.ipa), QuoteField(row.meaning), ',');
  }

  /** Each exported line of plain fields reads back to the row it came from. */
  lemma {:induction false} CsvLineReadsBack(row: VocabRow)
    requires PlainRow(row)
    ensures RowOfLine(CsvLine(row), ',') == row
  {
    CsvLinePieces(row);
    QuotedFieldReadsBack(row.word);
    QuotedFieldReadsBack(row.ipa);
    QuotedFieldReadsBack(row.meaning);
    ThreeFieldRow(CsvLine(row), QuoteField(row.word), QuoteField(row.ipa), QuoteField(row.meaning),
                  row.word, row.ipa, row.meaning);
  }

  /** Lower-case letters and commas only, as in the export header. */
  predicate LowerOrComma(s: string) {
    forall k :: 0 <= k < |s| ==> ('a' <= s[k] <= 'z' || s[k] == ',')
  }

  lemma {:induction false} LowerOrCommaFacts(s: string)
    requires LowerOrComma(s)
    ensures ToLower(s) == s
    ensures '\t' !in s
    ensures s != [] ==> IsTrimmed(s) && !IsQuoted(s)
  {
    LowerOfLowercase(s);
    if s != [] {
      assert !IsWhitespace(s[0]) && s[0] != '"';
      assert !IsWhitespace(s[|s| - 1]);
    }
  }

  lemma {:induction false} HeaderIsLowerOrComma()
    ensures LowerOrComma(CsvHeader)
  {
    assert CsvHeader == "word" + "," + "ipa" + "," + "meaning";
    assert LowerOrComma("word") && LowerOrComma("ipa") && LowerOrComma("meaning");
  }

  lemma {:induction false} HeaderSplits()
    ensures Split(CsvHeader, ',') == ["word", "ipa", "meaning"]
  {
    var names := ["word", "ipa", "meaning"];
    assert Join(names, [',']) == CsvHeader by {
      assert Join(names[2..], [',']) == "meaning";
      assert Join(names[1..], [',']) == "ipa,meaning";
    }
    assert ',' !in "word" && ',' !in "ipa" && ',' !in "meaning";
    SplitOfJoin(names, ',');
  }

  /** Unquoted lower-case names pass the field parser unchanged. */
  lemma {:induction false} PlainNamesParse(line: string, names: seq<string>)
    requires Split(line, ',') == names
    requires forall k :: 0 <= k < |names| ==> names[k] != [] && LowerOrComma(names[k])
    ensures SplitFields(line, ',') == names
  {
    forall k | 0 <= k < |names|
      ensures ParseField(names[k]) == names[k]
    {
      LowerOrCommaFacts(names[k]);
    }
  }

  lemma {:induction false} HeaderNamesPlain(names: seq<string>)
    requires names == ["word", "ipa", "meaning"]
    ensures forall k :: 0 <= k < |names| ==> names[k] != [] && LowerOrComma(names[k])
  {
    assert LowerOrComma("word") && LowerOrComma("ipa") && LowerOrComma("meaning");
  }

  lemma {:induction false} HeaderFields()
    ensures SplitFields(CsvHeader, ',') == ["word", "ipa", "meaning"]
  {
    HeaderNamesPlain(["word", "ipa", "meaning"]);
    HeaderSplits();
    PlainNamesParse(CsvHeader, ["word", "ipa", "meaning"]);
  }

  lemma {:induction false} HeaderNamesLookLikeHeader()
    ensures IsHeader(["word", "ipa", "meaning"])
  {
    var names := ["word", "ipa", "meaning"];
    assert Join(names, ",") == CsvHeader by {
      assert Join(names[2..], ",") == "meaning";
      assert Join(names[1..], ",") == "ipa,meaning";
    }
    HeaderIsLowerOrComma();
    LowerOrCommaFacts(CsvHeader);
    assert OccursAt(CsvHeader, "word", 0);
    assert OccursAt(CsvHeader, "ipa", 5);
  }

  /** The export header is recognised as a header, with comma as the delimiter. */
  lemma {:induction false} HeaderRecognised()
    ensures Delimiter(CsvHeader) == ','
    ensures IsHeader(SplitFields(CsvHeader, ','))
  {
    HeaderIsLowerOrComma();
    LowerOrCommaFacts(CsvHeader);
    HeaderFields();
    HeaderNamesLookLikeHeader();
  }

  /** A line that starts and ends with a double quote is trimmed and does not
      end in a carriage return. */
  lemma {:induction false} QuoteEndsTrimmed(line: string)
    requires |line| >= 2 && line[0] == '"' && line[|line| - 1] == '"'
    ensures |line| > 0 && line[|line| - 1] != '\r' && IsTrimmed(line)
  {
  }

  lemma {:induction false} HeaderShape()
    ensures |CsvHeader| > 0 && CsvHeader[|CsvHeader| - 1] != '\r' && IsTrimmed(CsvHeader)
  {
    HeaderIsLowerOrComma();
    LowerOrCommaFacts(CsvHeader);
  }

  /** Every line of an export is non-empty, trimmed, and does not end in a carriage return. */
  lemma {:induction false} ExportLineShape(rows: seq<VocabRow>)
    ensures var lines := [CsvHeader] + CsvLines(rows);
      forall k :: 0 <= k < |lines| ==>
        |lines[k]| > 0 && lines[k][|lines[k]| - 1] != '\r' && IsTrimmed(lines[k])
  {
    var lines := [CsvHeader] + CsvLines(rows);
    forall k | 0 <= k < |lines|
      ensures |lines[k]| > 0 && lines[k][|lines[k]| - 1] != '\r' && IsTrimmed(lines[k])
    {
      if k == 0 {
        HeaderShape();
      } else {
        QuoteEndsTrimmed(CsvLine(rows[k - 1]));
      }
    }
  }

  /** Line splitting gives back the exported lines: none ends in a carriage return. */
  lemma {:induction false} ExportSplitLines(rows: seq<VocabRow>)
    requires forall k :: 0 <= k < |rows| ==> NoLineFeed(rows[k])
    ensures SplitLines(RowsToCsv(rows)) == [CsvHeader] + CsvLines(rows)
  {
    CsvSplitsIntoLines(rows);
    ExportLineShape(rows);
    SplitLinesWithoutCarriageReturns(RowsToCsv(rows), [CsvHeader] + CsvLines(rows));
  }

  /** The lines of an export, as the parser sees them: every line survives
      splitting, carriage-return removal, trimming and the blank filter. */
  lemma {:induction false} ExportLinesSurvive(rows: seq<VocabRow>)
    requires forall k :: 0 <= k < |rows| ==> NoLineFeed(rows[k])
    ensures NonBlankLines(RowsToCsv(rows)) == [CsvHeader] + CsvLines(rows)
  {
    ExportSplitLines(rows);
    ExportLineShape(rows);
    CleanLinesSurvive(RowsToCsv(rows));
  }

  /** The rows an export's lines give, before the empty-word filter. */
  function ExportedRowsRead(rows: seq<VocabRow>): (read: seq<VocabRow>)
    ensures |read| == |rows|
    ensures forall k :: 0 <= k < |rows| ==> read[k] == RowOfLine(CsvLine(rows[k]), ',')
  {
    seq(|rows|, k requires 0 <= k < |rows| => RowOfLine(CsvLine(rows[k]), ','))
  }

  /** Reading an export back: the header is dropped and each line gives the
      row the parser makes of it, rows with an empty word left out. */
  lemma {:induction false} ReadBackOfExport(rows: seq<VocabRow>)
    requires forall k :: 0 <= k < |rows| ==> NoLineFeed(rows[k])
    ensures ParseTextToVocabRows(RowsToCsv(rows)) == Filter(ExportedRowsRead(rows), HasWord)
  {
    ExportLinesSurvive(rows);
    ExportLinesRead(rows);
  }

  /** The export's lines, header first, give one row per exported row. */
  lemma {:induction false} ExportLinesRead(rows: seq<VocabRow>)
    ensures RowsOfLines([CsvHeader] + CsvLines(rows)) == ExportedRowsRead(rows)
  {
    HeaderRecognised();
    RowsAfterHeader(CsvHeader, CsvLines(rows));
  }

  /** After a recognised comma header, each following line gives one row. */
  lemma {:induction false} RowsAfterHeader(header: string, body: seq<string>)
    requires Delimiter(header) == ',' && IsHeader(SplitFields(header, ','))
    ensures |RowsOfLines([header] + body)| == |body|
    ensures forall k :: 0 <= k < |body| ==> RowsOfLines([header] + body)[k] == RowOfLine(body[k], ',')
  {
    var lines := [header] + body;
    assert lines[0] == header;
    assert HeaderLines(lines) == 1;
    assert forall k :: 0 <= k < |body| ==> lines[k + 1] == body[k];
  }

  /** Export then import gives the deck back, for rows with a non-empty word
      and plain fields. */
  lemma {:induction false} ExportThenImport(rows: seq<VocabRow>)
    requires forall k :: 0 <= k < |rows| ==> PlainRow(rows[k]) && rows[k].word != ""
    ensures ParseTextToVocabRows(RowsToCsv(rows)) == rows
  {
    forall k | 0 <= k < |rows|
      ensures NoLineFeed(rows[k])
      ensures RowOfLine(CsvLine(rows[k]), ',') == rows[k]
    {
      var row := rows[k];
      assert IsLineTerminator('\n');
      CsvLineReadsBack(row);
    }
    ReadBackOfExport(rows);
    assert ExportedRowsRead(rows) == rows;
    FilterKeepsAll(rows, HasWord);
  }

  /** The exported line for a meaning `a,b`, as four comma-separated pieces. */
  lemma {:induction false} CommaMeaningLine(word: string, ipa: string, a: string, b: string)
    requires '"' !in a && '"' !in b
    ensures CsvLine(VocabRow(word, ipa, a + "," + b))
         == QuoteField(word) + "," + QuoteField(ipa) + "," + ("\"" + a) + "," + (b + "\"")
  {
    var left := "\"" + a;
    var right := b + "\"";
    var head := QuoteField(word) + "," + QuoteField(ipa) + ",";
    assert head + (left + "," + right) == head + left + "," + right;
    QuotedCommaMeaning(a, b);
  }

  lemma {:induction false} QuotedCommaMeaning(a: string, b: string)
    requires '"' !in a && '"' !in b
    ensures QuoteField(a + "," + b) == ("\"" + a) + "," + (b + "\"")
  {
    var m := a + "," + b;
    assert '"' !in m;
    assert QuoteField(m) == "\"" + m + "\"";
  }


  /** The line exported for a meaning `a,b` splits into four pieces: the
      quoted meaning is cut in two at its comma. */
  lemma {:induction false} CommaMeaningPieces(word: string, ipa: string, a: string, b: string)
    requires PlainField(word) && PlainField(ipa) && PlainField(a) && PlainField(b)
    ensures Split(CsvLine(VocabRow(word, ipa, a + "," + b)), ',')
         == [QuoteField(word), QuoteField(ipa), "\"" + a, b + "\""]
  {
    var left := "\"" + a;
    var right := b + "\"";
    CommaMeaningLine(word, ipa, a, b);
    QuoteFieldAvoids(word, ',');
    QuoteFieldAvoids(ipa, ',');
    assert ',' !in left && ',' !in right;
    SplitFour(QuoteField(word), QuoteField(ipa), left, right, ',');
  }

  /** The two halves of a quoted `a,b` each keep their lone quote character. */
  lemma {:induction false} HalfQuotedPiecesParse(a: string, b: string)
    requires PlainField(a) && PlainField(b)
    requires a != [] && !IsWhitespace(a[|a| - 1])
    requires b != [] && !IsWhitespace(b[0])
    ensures ParseField("\"" + a) == "\"" + a
    ensures ParseField(b + "\"") == b + "\""
  {
    var left := "\"" + a;
    var right := b + "\"";
    assert left[|left| - 1] == a[|a| - 1] && right[0] == b[0];
    BarePieceParses(left);
    BarePieceParses(right);
  }

  /** A comma inside a field is not protected by the quotes: a meaning `a,b`
      comes back as `"a b"`, the quote characters kept and the comma turned
      into a space. */
  lemma {:induction false} CommaInMeaningSplits(word: string, ipa: string, a: string, b: string)
    requires PlainField(word) && PlainField(ipa) && PlainField(a) && PlainField(b)
    requires a != [] && !IsWhitespace(a[|a| - 1])
    requires b != [] && !IsWhitespace(b[0])
    ensures RowOfLine(CsvLine(VocabRow(word, ipa, a + "," + b)), ',')
         == VocabRow(word, ipa, "\"" + a + " " + b + "\"")
  {
    var line := CsvLine(VocabRow(word, ipa, a + "," + b));
    var left := "\"" + a;
    var right := b + "\"";
    assert left + " " + (b + "\"") == left + " " + b + "\"";
    CommaMeaningPieces(word, ipa, a, b);
    QuotedFieldReadsBack(word);
    QuotedFieldReadsBack(ipa);
    HalfQuotedPiecesParse(a, b);
    FourFieldRow(line, QuoteField(word), QuoteField(ipa), left, right, word, ipa, left, right);
  }
}
