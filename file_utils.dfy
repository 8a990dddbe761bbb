/**
 The tabular vocabulary parser (`parseTextToVocabRows`): pasted or uploaded
 CSV/TSV text becomes `{word, ipa, meaning}` rows.
 */
module FileUtils {
  import opened Strings
  import opened Collections
  import opened Types

  /** A piece of `split(/\r?\n/)` that ends a line loses the `\r` of a `\r\n` break. */
  function DropCarriageReturn(piece: string): string {
    if |piece| > 0 && piece[|piece| - 1] == '\r' then piece[..|piece| - 1] else piece
  }

  /** `input.split(/\r?\n/)`: the line-feed pieces, each but the last without a
      trailing carriage return. */
  function SplitLines(input: string): (lines: seq<string>)
    ensures |lines| == |Split(input, '\n')| >= 1
    ensures forall k :: 0 <= k < |lines| ==> '\n' !in lines[k]
  {
    var pieces := Split(input, '\n');
    seq(|pieces|, k requires 0 <= k < |pieces| =>
      if k + 1 < |pieces| then DropCarriageReturn(pieces[k]) else pieces[k])
  }

  /** When no line-feed piece ends in a carriage return, `split(/\r?\n/)`
      gives exactly the line-feed pieces. */
  lemma {:induction false} SplitLinesWithoutCarriageReturns(text: string, lines: seq<string>)
    requires Split(text, '\n') == lines
    requires forall k :: 0 <= k < |lines| ==> |lines[k]| > 0 && lines[k][|lines[k]| - 1] != '\r'
    ensures SplitLines(text) == lines
  {
    forall k | 0 <= k < |lines|
      ensures SplitLines(text)[k] == lines[k]
    {
    }
  }

  /** `.map(l => l.trim())`. */
  function TrimAll(lines: seq<string>): (r: seq<string>)
    ensures |r| == |lines|
    ensures forall k :: 0 <= k < |lines| ==> r[k] == Trim(lines[k])
  {
    seq(|lines|, k requires 0 <= k < |lines| => Trim(lines[k]))
  }

  /** `Boolean` on a string: not empty. */
  predicate NonBlank(l: string) {
    l != ""
  }

  /** Every trimmed line is trimmed and, like the split line it came from,
      holds no line feed. */
  lemma {:induction false} TrimmedLinesClean(input: string)
    ensures forall k :: 0 <= k < |TrimAll(SplitLines(input))| ==>
      IsTrimmed(TrimAll(SplitLines(input))[k]) && '\n' !in TrimAll(SplitLines(input))[k]
  {
    var lines := SplitLines(input);
    forall k | 0 <= k < |lines|
      ensures '\n' !in TrimAll(lines)[k]
    {
      TrimAvoids(lines[k], '\n');
    }
  }

  /** `.map(l => l.trim()).filter(Boolean)` applied to the split lines: the
      non-blank lines, trimmed, in input order. */
  function NonBlankLines(input: string): (lines: seq<string>)
    ensures forall k :: 0 <= k < |lines| ==> lines[k] != "" && IsTrimmed(lines[k]) && '\n' !in lines[k]
    ensures |lines| <= |SplitLines(input)|
    ensures IsSubsequence(lines, TrimAll(SplitLines(input)))
    ensures forall l :: multiset(lines)[l] == if l != "" then multiset(TrimAll(SplitLines(input)))[l] else 0
  {
    var trimmed := TrimAll(SplitLines(input));
    TrimmedLinesClean(input);
    FilterCounts(trimmed, NonBlank);
    Filter(trimmed, NonBlank)
  }

  /** Lines that are already trimmed and non-blank pass the trim-and-filter step unchanged. */
  lemma {:induction false} CleanLinesSurvive(input: string)
    requires forall k :: 0 <= k < |SplitLines(input)| ==>
      SplitLines(input)[k] != "" && IsTrimmed(SplitLines(input)[k])
    ensures NonBlankLines(input) == SplitLines(input)
  {
    var lines := SplitLines(input);
    assert TrimAll(lines) == lines;
    FilterKeepsAll(lines, NonBlank);
  }

  /** Tab if the first line holds one, comma otherwise. */
  function Delimiter(firstLine: string): (d: char)
    ensures d == '\t' <==> '\t' in firstLine
    ensures d == '\t' || d == ','
  {
    if '\t' in firstLine then '\t' else ','
  }

  /** The text matches `^"(.*)"$`: at least two characters, a double quote at
      each end, and no line terminator in between (`.` does not match one). */
  predicate IsQuoted(t: string)
    ensures IsQuoted(t) ==> forall k :: 1 <= k < |t| - 1 ==> t[k] != '\n' && t[k] != '\r'
  {
    && |t| >= 2 && t[0] == '"' && t[|t| - 1] == '"'
    && forall k :: 1 <= k < |t| - 1 ==> !IsLineTerminator(t[k])
  }

  /** `c.trim().replace(/^"(.*)"$/, '$1')`: trim, then drop one outer pair of
      quotes; the inner text is neither trimmed again nor unescaped. */
  function ParseField(raw: string): (f: string)
    ensures IsQuoted(Trim(raw)) ==> f == Trim(raw)[1..|Trim(raw)| - 1]
    ensures !IsQuoted(Trim(raw)) ==> f == Trim(raw)
  {
    var t := Trim(raw);
    if IsQuoted(t) then t[1..|t| - 1] else t
  }

  /** `.map(c => ...)` over the pieces of a line: one parsed field per piece. */
  function ParseFields(pieces: seq<string>): (cols: seq<string>)
    ensures |cols| == |pieces|
    ensures forall k :: 0 <= k < |pieces| ==> cols[k] == ParseField(pieces[k])
  {
    if |pieces| == 0 then [] else [ParseField(pieces[0])] + ParseFields(pieces[1..])
  }

  /** `line.split(delim).map(...)`: one parsed field per delimited piece. */
  function SplitFields(line: string, delim: char): (cols: seq<string>)
    ensures |cols| == |Split(line, delim)| >= 1
    ensures forall k :: 0 <= k < |cols| ==> cols[k] == ParseField(Split(line, delim)[k])
  {
    ParseFields(Split(line, delim))
  }

  /** The header heuristic, applied to the first parsed row only. */
  predicate IsHeader(cols: seq<string>) {
    var h := ToLower(Join(cols, ","));
    Contains(h, "word") && (Contains(h, "meaning") || Contains(h, "ipa"))
  }

  /** A first row is taken for a header only when its joined text is at least
      as long as `word`, so a row of one short field is always kept as data. */
  lemma {:induction false} HeaderNeedsFourLetters(cols: seq<string>)
    requires IsHeader(cols)
    ensures |cols| > 0 && |Join(cols, ",")| >= 4
  {
    var h := ToLower(Join(cols, ","));
    assert Contains(h, "word");
  }

  /** Column mapping by field count. */
  function ToRow(cols: seq<string>): (row: VocabRow)
    requires |cols| >= 1
    ensures row.word == cols[0]
    ensures |cols| < 3 ==> row.ipa == ""
    ensures |cols| == 1 ==> row.meaning == ""
    ensures |cols| == 2 ==> row.meaning == cols[1]
    ensures |cols| >= 3 ==> row.ipa == cols[1] && row.meaning == Join(cols[2..], " ")
  {
    if |cols| == 1 then VocabRow(cols[0], "", "")
    else if |cols| == 2 then VocabRow(cols[0], "", cols[1])
    else VocabRow(cols[0], cols[1], Join(cols[2..], " "))
  }

  /** The row a line gives under the delimiter chosen from the first line. */
  function RowOfLine(line: string, delim: char): VocabRow {
    ToRow(SplitFields(line, delim))
  }

  /** The number of leading lines dropped as a header: one exactly when the
      first line, split with the delimiter, looks like a header. */
  function HeaderLines(lines: seq<string>): (h: nat)
    requires |lines| > 0
    ensures h <= 1
  {
    if IsHeader(SplitFields(lines[0], Delimiter(lines[0]))) then 1 else 0
  }

  /** The rows before the empty-word filter: every line after the header,
      all split with the one delimiter the first line decides. */
  function RowsOfLines(lines: seq<string>): (rows: seq<VocabRow>)
    requires |lines| > 0
    ensures |rows| == |lines| - HeaderLines(lines)
    ensures forall k :: 0 <= k < |rows| ==>
      rows[k] == RowOfLine(lines[k + HeaderLines(lines)], Delimiter(lines[0]))
  {
    RowsFrom(lines, HeaderLines(lines), Delimiter(lines[0]))
  }

  function RowsFrom(lines: seq<string>, h: nat, delim: char): (rows: seq<VocabRow>)
    requires h <= |lines|
    ensures |rows| == |lines| - h
    ensures forall k :: 0 <= k < |rows| ==> rows[k] == RowOfLine(lines[k + h], delim)
  {
    seq(|lines| - h, k requires 0 <= k < |lines| - h => RowOfLine(lines[k + h], delim))
  }

  function HasWord(row: VocabRow): bool {
    row.word != ""
  }

  /** `parseTextToVocabRows`: blank input gives no rows; otherwise the rows of
      the lines after the header, in order, without those whose word is empty. */
  function ParseTextToVocabRows(input: string): (rows: seq<VocabRow>)
    ensures NonBlankLines(input) == [] ==> rows == []
    ensures forall k :: 0 <= k < |rows| ==> rows[k].word != ""
    ensures |rows| <= |NonBlankLines(input)|
  {
    var lines := NonBlankLines(input);
    if |lines| == 0 then []
    else
      KeepWords(RowsOfLines(lines))
  }

  /** `.filter(r => r.word)`: the rows with a non-empty word, in order. */
  function KeepWords(all: seq<VocabRow>): (kept: seq<VocabRow>)
    ensures |kept| <= |all|
    ensures forall k :: 0 <= k < |kept| ==> kept[k].word != ""
    ensures IsSubsequence(kept, all)
    ensures forall r :: multiset(kept)[r] == if r.word != "" then multiset(all)[r] else 0
  {
    FilterCounts(all, HasWord);
    var r := Filter(all, HasWord);
    assert forall k :: 0 <= k < |r| ==> HasWord(r[k]);
    r
  }

  /** The parsed rows are the line rows with a word, in line order, none dropped. */
  lemma {:induction false} ParsedRowsInOrder(input: string)
    requires NonBlankLines(input) != []
    ensures var rows := ParseTextToVocabRows(input);
            var all := RowsOfLines(NonBlankLines(input));
            && IsSubsequence(rows, all)
            && (forall k :: 0 <= k < |all| && all[k].word != "" ==> all[k] in rows)
            && (forall r :: multiset(rows)[r] == if r.word != "" then multiset(all)[r] else 0)
  {
    var all := RowsOfLines(NonBlankLines(input));
    assert forall k :: 0 <= k < |all| && all[k].word != "" ==> HasWord(all[k]);
  }

  /** Input whose every line is blank after trimming parses to nothing. */
  lemma {:induction false} BlankInputHasNoRows(input: string)
    requires forall k :: 0 <= k < |SplitLines(input)| ==> AllWhitespace(SplitLines(input)[k])
    ensures ParseTextToVocabRows(input) == []
  {
    var trimmed := TrimAll(SplitLines(input));
    FilterDropsAll(trimmed, NonBlank);
  }

  lemma {:induction false} TrimDropCarriageReturn(piece: string)
    ensures Trim(DropCarriageReturn(piece)) == Trim(piece)
  {
    if |piece| > 0 && piece[|piece| - 1] == '\r' {
      TrimDropLast(piece);
    }
  }

  /** `\r\n` and `\n` line breaks give the same trimmed lines. */
  lemma {:induction false} CarriageReturnsTrimmedAway(input: string)
    ensures TrimAll(SplitLines(input)) == TrimAll(Split(input, '\n'))
  {
    var pieces := Split(input, '\n');
    forall k | 0 <= k < |pieces|
      ensures Trim(SplitLines(input)[k]) == Trim(pieces[k])
    {
      TrimDropCarriageReturn(pieces[k]);
    }
  }

  /** Trimming happens before the quote strip, so quoted blanks survive:
      `" "` gives a one-space word, which counts as a word. */
  lemma {:induction false} QuotedBlankIsAWord(inner: string)
    requires inner != [] && AllWhitespace(inner)
    requires forall k :: 0 <= k < |inner| ==> !IsLineTerminator(inner[k])
    ensures ParseField("\"" + inner + "\"") == inner
    ensures HasWord(ToRow([ParseField("\"" + inner + "\"")]))
  {
    var t := "\"" + inner + "\"";
    assert IsTrimmed(t);
    assert IsQuoted(t) by {
      assert forall k :: 1 <= k < |t| - 1 ==> t[k] == inner[k - 1];
    }
    assert t[1..|t| - 1] == inner;
  }

  /** A carriage return left inside a line stops the quote strip: the field
      keeps both of its quotes. */
  lemma {:induction false} InnerCarriageReturnKeepsQuotes(a: string, b: string)
    ensures ParseField("\"" + a + "\r" + b + "\"") == "\"" + a + "\r" + b + "\""
  {
    var t := "\"" + a + "\r" + b + "\"";
    assert IsTrimmed(t);
    assert !IsQuoted(t) by {
      assert t[|a| + 1] == '\r';
    }
  }

  /** With three or more fields the surplus columns stay in the meaning, one
      space apart: splitting it on spaces gives them back when none holds a space. */
  lemma {:induction false} SurplusColumnsJoinIntoMeaning(cols: seq<string>)
    requires |cols| >= 3
    requires forall k :: 2 <= k < |cols| ==> ' ' !in cols[k]
    ensures Split(ToRow(cols).meaning, ' ') == cols[2..]
  {
    SplitOfJoin(cols[2..], ' ');
  }

  lemma {:induction false} RowOfThree(cols: seq<string>, f0: string, f1: string, f2: string)
    requires |cols| == 3 && cols[0] == f0 && cols[1] == f1 && cols[2] == f2
    ensures ToRow(cols) == VocabRow(f0, f1, f2)
  {
    assert cols[2..] == [f2];
  }

  /** The row of a three-piece line: its fields in order. */
  lemma {:induction false} ThreeFieldRow(line: string, p0: string, p1: string, p2: string,
                      f0: string, f1: string, f2: string)
    requires Split(line, ',') == [p0, p1, p2]
    requires ParseField(p0) == f0 && ParseField(p1) == f1 && ParseField(p2) == f2
    ensures RowOfLine(line, ',') == VocabRow(f0, f1, f2)
  {
    var cols := SplitFields(line, ',');
    assert cols == ParseFields([p0, p1, p2]);
    assert |cols| == 3;
    assert cols[0] == f0;
    assert cols[1] == f1;
    assert cols[2] == f2;
    RowOfThree(cols, f0, f1, f2);
  }

  lemma {:induction false} RowOfFour(cols: seq<string>, f0: string, f1: string, f2: string, f3: string)
    requires |cols| == 4 && cols[0] == f0 && cols[1] == f1 && cols[2] == f2 && cols[3] == f3
    ensures ToRow(cols) == VocabRow(f0, f1, f2 + " " + f3)
  {
    var rest := cols[2..];
    assert rest[1..] == [f3];
    assert Join(rest, " ") == rest[0] + " " + Join(rest[1..], " ");
  }

  /** The row of a four-piece line: the last two fields share the meaning, one space apart. */
  lemma {:induction false} FourFieldRow(line: string, p0: string, p1: string, p2: string, p3: string,
                     f0: string, f1: string, f2: string, f3: string)
    requires Split(line, ',') == [p0, p1, p2, p3]
    requires ParseField(p0) == f0 && ParseField(p1) == f1
    requires ParseField(p2) == f2 && ParseField(p3) == f3
    ensures RowOfLine(line, ',') == VocabRow(f0, f1, f2 + " " + f3)
  {
    var cols := SplitFields(line, ',');
    assert cols == ParseFields([p0, p1, p2, p3]);
    assert |cols| == 4;
    assert cols[0] == f0;
    assert cols[1] == f1;
    assert cols[2] == f2;
    assert cols[3] == f3;
    RowOfFour(cols, f0, f1, f2, f3);
  }

  /** An unquoted piece with no whitespace at either end passes the field parser unchanged. */
  lemma {:induction false} BarePieceParses(p: string)
    requires |p| >= 2 && !IsWhitespace(p[0]) && !IsWhitespace(p[|p| - 1])
    requires p[0] != '"' || p[|p| - 1] != '"'
    ensures ParseField(p) == p
  {
  }
}
