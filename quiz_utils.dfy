/**
 The quiz generator (`generateQuiz`, `generateMCQ`, `generateFill`).

 Every `Math.random` outcome is a parameter: a shuffle done with
 `sort(() => Math.random() - 0.5)` is an index permutation (`Permute`), and
 the kind drawn with `Math.floor(Math.random() * n)` is an index below n.
 The contracts hold for every such choice.
 */
module QuizUtils {
  import opened Collections
  import opened Types

  /** `generateQuiz` calls `generateMCQ` without `choices`, so it takes its default. */
  const DefaultChoices: int := 4

  /** `Math.min` and `Math.max` on integers. */
  function Min(a: int, b: int): int { if a < b then a else b }
  function Max(a: int, b: int): int { if a < b then b else a }

  /** A row can be asked about when both its word and its meaning are non-empty. */
  predicate IsEligible(row: VocabRow) {
    row.word != "" && row.meaning != ""
  }

  /** A quiz candidate: an eligible row with its index in the deck. */
  datatype Candidate = Candidate(row: VocabRow, index: nat)

  /** `rows.map((row, index) => ({row, index})).filter(...)` from `start` on:
      exactly the eligible rows, each with its own index, in deck order. */
  function CandidatesFrom(rows: seq<VocabRow>, start: nat): (c: seq<Candidate>)
    requires start <= |rows|
    ensures |c| <= |rows| - start
    ensures forall k :: 0 <= k < |c| ==>
      start <= c[k].index < |rows| && c[k].row == rows[c[k].index] && IsEligible(c[k].row)
    ensures forall k, l :: 0 <= k < l < |c| ==> c[k].index < c[l].index
    ensures forall i :: start <= i < |rows| && IsEligible(rows[i]) ==> Candidate(rows[i], i) in c
    decreases |rows| - start
  {
    if start == |rows| then []
    else
      var rest := CandidatesFrom(rows, start + 1);
      if IsEligible(rows[start]) then [Candidate(rows[start], start)] + rest else rest
  }

  function Candidates(rows: seq<VocabRow>): (c: seq<Candidate>)
    ensures |c| <= |rows|
    ensures forall k :: 0 <= k < |c| ==>
      c[k].index < |rows| && c[k].row == rows[c[k].index] && IsEligible(c[k].row)
    ensures forall k, l :: 0 <= k < l < |c| ==> c[k].index < c[l].index
    ensures forall i :: 0 <= i < |rows| && IsEligible(rows[i]) ==> Candidate(rows[i], i) in c
  {
    CandidatesFrom(rows, 0)
  }

  /** `kinds.filter(...)`: a kind stays exactly when it was asked for and,
      for mcq, at least four candidates exist. */
  function AvailableKinds(kinds: seq<QuizKind>, candidateCount: nat): (avail: seq<QuizKind>)
    ensures forall k :: k in avail <==> k in kinds && (k == Mcq ==> candidateCount >= 4)
  {
    Filter(kinds, (k: QuizKind) => k != Mcq || candidateCount >= 4)
  }

  /** Row j may lend its meaning as a distractor for row `itemIndex`. */
  predicate IsDistractorFor(rows: seq<VocabRow>, itemIndex: nat, j: nat)
    requires itemIndex < |rows| && j < |rows|
  {
    j != itemIndex && rows[j].meaning != "" && rows[j].meaning != rows[itemIndex].meaning
  }

  /** The meanings rows 0..n-1 may lend as distractors for row `itemIndex`. */
  ghost function PoolMeanings(rows: seq<VocabRow>, itemIndex: nat, n: nat): set<string>
    requires itemIndex < |rows| && n <= |rows|
  {
    set j | 0 <= j < n && IsDistractorFor(rows, itemIndex, j) :: rows[j].meaning
  }

  /** The distinct non-empty meanings, other than the answer, of all the other
      rows of the deck, candidates or not. */
  ghost function OtherMeanings(rows: seq<VocabRow>, itemIndex: nat): set<string>
    requires itemIndex < |rows|
  {
    PoolMeanings(rows, itemIndex, |rows|)
  }

  /** `rows.filter(...).map(r => r.meaning)` over rows 0..n-1. */
  function PoolUpTo(rows: seq<VocabRow>, itemIndex: nat, n: nat): (pool: seq<string>)
    requires itemIndex < |rows| && n <= |rows|
    ensures Elems(pool) == PoolMeanings(rows, itemIndex, n)
  {
    if n == 0 then []
    else
      var pool := PoolUpTo(rows, itemIndex, n - 1);
      if IsDistractorFor(rows, itemIndex, n - 1) then
        assert PoolMeanings(rows, itemIndex, n) == PoolMeanings(rows, itemIndex, n - 1) + {rows[n - 1].meaning};
        pool + [rows[n - 1].meaning]
      else
        assert PoolMeanings(rows, itemIndex, n) == PoolMeanings(rows, itemIndex, n - 1);
        pool
  }

  /** The distractor pool: the meanings of the other rows that are non-empty
      and differ from the answer, with repeats. */
  function DistractorPool(rows: seq<VocabRow>, itemIndex: nat): (pool: seq<string>)
    requires itemIndex < |rows|
    ensures Elems(pool) == OtherMeanings(rows, itemIndex)
  {
    PoolUpTo(rows, itemIndex, |rows|)
  }

  /** How many distinct distractors row `itemIndex` has: the size the pool
      shuffle permutes. */
  function PoolSize(rows: seq<VocabRow>, itemIndex: nat): nat
    requires itemIndex < |rows|
  {
    |Dedup(DistractorPool(rows, itemIndex))|
  }

  /** How many options the question has: the size the option shuffle permutes. */
  function OptionCount(rows: seq<VocabRow>, itemIndex: nat, choices: int): nat
    requires itemIndex < |rows|
  {
    1 + SliceEnd(PoolSize(rows, itemIndex), Max(0, choices - 1))
  }

  /** `generateMCQ`: the answer is the row's meaning; the options hold it
      exactly once, hold no string twice, and otherwise hold up to
      `choices - 1` distinct meanings of other rows (fewer when the deck has
      fewer). */
  function GenerateMCQ(rows: seq<VocabRow>, itemIndex: nat, choices: int,
                       poolOrder: seq<nat>, optionOrder: seq<nat>): (q: Question)
    requires itemIndex < |rows|
    requires IsPermutation(poolOrder, PoolSize(rows, itemIndex))
    requires IsPermutation(optionOrder, OptionCount(rows, itemIndex, choices))
    ensures q.Kind() == Mcq
    ensures q.question == rows[itemIndex].word && q.answer == rows[itemIndex].meaning
    ensures q.answer in q.options && multiset(q.options)[q.answer] == 1
    ensures Distinct(q.options)
    ensures |q.options| == 1 + Min(Max(0, choices - 1), |OtherMeanings(rows, itemIndex)|)
    ensures forall k :: 0 <= k < |q.options| && q.options[k] != q.answer ==>
      q.options[k] in OtherMeanings(rows, itemIndex)
  {
    var correctRow := rows[itemIndex];
    var correctMeaning := correctRow.meaning;
    var distractors := Distractors(rows, itemIndex, choices, poolOrder);
    var unshuffled := [correctMeaning] + distractors;
    assert Distinct(unshuffled);
    var options := Permute(unshuffled, optionOrder);
    assert options[0..0] == [] && unshuffled[0] == correctMeaning;
    DistinctOccursOnce(options, correctMeaning);
    MCQQuestion(correctRow.word, options, correctMeaning)
  }

  /** The distractors: the first `choices - 1` entries of the shuffled
      deduplicated pool, all distinct meanings of other rows. */
  function Distractors(rows: seq<VocabRow>, itemIndex: nat, choices: int, poolOrder: seq<nat>): (d: seq<string>)
    requires itemIndex < |rows|
    requires IsPermutation(poolOrder, PoolSize(rows, itemIndex))
    ensures Distinct(d)
    ensures |d| == Min(Max(0, choices - 1), |OtherMeanings(rows, itemIndex)|)
    ensures |d| == SliceEnd(PoolSize(rows, itemIndex), Max(0, choices - 1))
    ensures forall k :: 0 <= k < |d| ==> d[k] in OtherMeanings(rows, itemIndex)
    ensures rows[itemIndex].meaning !in d
  {
    var pool := DistractorPool(rows, itemIndex);
    var shuffledPool := Permute(Dedup(pool), poolOrder);
    var d := shuffledPool[..SliceEnd(|shuffledPool|, Max(0, choices - 1))];
    assert forall k :: 0 <= k < |d| ==> d[k] in Elems(pool);
    d
  }

  /** `generateFill`: no randomness; the row's word asks for the row's meaning. */
  function GenerateFill(rows: seq<VocabRow>, itemIndex: nat): (q: Question)
    requires itemIndex < |rows|
    ensures q.Kind() == Fill
    ensures q.question == rows[itemIndex].word && q.answer == rows[itemIndex].meaning
  {
    FillQuestion(rows[itemIndex].word, rows[itemIndex].meaning)
  }

  /** The outcomes of `Math.random` for one question: the drawn kind, and the
      two shuffles `generateMCQ` performs (unused for a fill question). */
  datatype Draw = Draw(kindIndex: nat, poolOrder: seq<nat>, optionOrder: seq<nat>)

  /** The row indices the questions are built from: the first n candidates of
      the shuffled candidate list, n = `Math.min(count, candidates.length)`. */
  function SelectedIndices(rows: seq<VocabRow>, count: int, order: seq<nat>): (sel: seq<nat>)
    requires IsPermutation(order, |Candidates(rows)|)
    ensures |sel| == SliceEnd(|Candidates(rows)|, Min(count, |Candidates(rows)|))
    ensures 0 <= count ==> |sel| == Min(count, |Candidates(rows)|)
    ensures Distinct(sel)
    ensures forall k :: 0 <= k < |sel| ==> sel[k] < |rows| && IsEligible(rows[sel[k]])
    ensures forall k :: 0 <= k < |sel| ==> sel[k] == Candidates(rows)[order[k]].index
  {
    var candidates := Candidates(rows);
    var n := SliceEnd(|candidates|, Min(count, |candidates|));
    var sel := seq(n, k requires 0 <= k < n => Permute(candidates, order)[k].index);
    PickedIndicesDistinct(candidates, order, sel);
    sel
  }

  /** Different shuffle positions pick different candidates, and different
      candidates carry different row indices. */
  lemma {:induction false} PickedIndicesDistinct(c: seq<Candidate>, order: seq<nat>, sel: seq<nat>)
    requires IsPermutation(order, |c|)
    requires forall k, l :: 0 <= k < l < |c| ==> c[k].index < c[l].index
    requires |sel| <= |c|
    requires forall k :: 0 <= k < |sel| ==> sel[k] == c[order[k]].index
    ensures Distinct(sel)
  {
    forall i, j | 0 <= i < j < |sel|
      ensures sel[i] != sel[j]
    {
      assert order[i] != order[j];
    }
  }

  /** The draw for a question built from row `index` fits the code path it feeds. */
  predicate ValidDraw(rows: seq<VocabRow>, avail: seq<QuizKind>, index: nat, d: Draw)
    requires index < |rows|
  {
    && d.kindIndex < |avail|
    && (avail[d.kindIndex] == Mcq ==>
          && IsPermutation(d.poolOrder, PoolSize(rows, index))
          && IsPermutation(d.optionOrder, OptionCount(rows, index, DefaultChoices)))
  }

  /** The cases where `generateQuiz` returns an empty quiz before drawing anything. */
  predicate ReturnsEarly(rows: seq<VocabRow>, kinds: seq<QuizKind>) {
    || |rows| == 0 || |kinds| == 0
    || |Candidates(rows)| == 0
    || |AvailableKinds(kinds, |Candidates(rows)|)| == 0
  }

  /** The random outcomes are ones `Math.random` can produce, on the path that uses them. */
  predicate ValidRandomness(rows: seq<VocabRow>, kinds: seq<QuizKind>, count: int,
                            order: seq<nat>, draws: seq<Draw>)
  {
    || ReturnsEarly(rows, kinds)
    || (&& IsPermutation(order, |Candidates(rows)|)
        && var sel := SelectedIndices(rows, count, order);
           var avail := AvailableKinds(kinds, |Candidates(rows)|);
           && |draws| >= |sel|
           && forall k :: 0 <= k < |sel| ==> ValidDraw(rows, avail, sel[k], draws[k]))
  }

  function MakeQuestion(rows: seq<VocabRow>, avail: seq<QuizKind>, index: nat, d: Draw): (q: Question)
    requires index < |rows| && ValidDraw(rows, avail, index, d)
    ensures q.Kind() == avail[d.kindIndex]
    ensures FromRow(rows, index, q)
  {
    match avail[d.kindIndex]
    case Mcq => GenerateMCQ(rows, index, DefaultChoices, d.poolOrder, d.optionOrder)
    case Fill => GenerateFill(rows, index)
  }

  /** What a generated question promises about the row it comes from. */
  ghost predicate FromRow(rows: seq<VocabRow>, index: nat, q: Question)
    requires index < |rows|
  {
    && q.question == rows[index].word
    && q.answer == rows[index].meaning
    && (q.Kind() == Mcq ==>
          && q.answer in q.options
          && Distinct(q.options)
          && |q.options| == 1 + Min(DefaultChoices - 1, |OtherMeanings(rows, index)|)
          && forall k :: 0 <= k < |q.options| && q.options[k] != q.answer ==>
               q.options[k] in OtherMeanings(rows, index))
  }

  /** `generateQuiz`: empty in the early-return cases; otherwise one question
      per selected candidate, in shuffled order, each of an available kind and
      built from its own row, no row used twice. */
  function GenerateQuiz(rows: seq<VocabRow>, kinds: seq<QuizKind>, count: int,
                        order: seq<nat>, draws: seq<Draw>): (quiz: Quiz)
    requires ValidRandomness(rows, kinds, count, order, draws)
    ensures ReturnsEarly(rows, kinds) ==> quiz == []
    ensures !ReturnsEarly(rows, kinds) ==>
      var sel := SelectedIndices(rows, count, order);
      && |quiz| == |sel|
      && forall k :: 0 <= k < |quiz| ==>
           && quiz[k].Kind() in AvailableKinds(kinds, |Candidates(rows)|)
           && FromRow(rows, sel[k], quiz[k])
  {
    if |rows| == 0 || |kinds| == 0 then []
    else
      var candidates := Candidates(rows);
      if |candidates| == 0 then []
      else
        var avail := AvailableKinds(kinds, |candidates|);
        if |avail| == 0 then []
        else
          var sel := SelectedIndices(rows, count, order);
          seq(|sel|, k requires 0 <= k < |sel| => MakeQuestion(rows, avail, sel[k], draws[k]))
  }

  /** With mcq as the only kind asked for, fewer than four candidates give an empty quiz. */
  lemma {:induction false} McqAloneNeedsFourCandidates(rows: seq<VocabRow>, kinds: seq<QuizKind>, count: int,
                                    order: seq<nat>, draws: seq<Draw>)
    requires forall k :: 0 <= k < |kinds| ==> kinds[k] == Mcq
    requires |Candidates(rows)| < 4
    requires ValidRandomness(rows, kinds, count, order, draws)
    ensures GenerateQuiz(rows, kinds, count, order, draws) == []
  {
    var avail := AvailableKinds(kinds, |Candidates(rows)|);
    assert Mcq !in avail;
    assert Fill !in avail;
    assert ReturnsEarly(rows, kinds);
  }

  /** A non-negative count asks `Math.min(count, candidates)` questions. */
  lemma {:induction false} QuizLength(rows: seq<VocabRow>, kinds: seq<QuizKind>, count: int,
                   order: seq<nat>, draws: seq<Draw>)
    requires ValidRandomness(rows, kinds, count, order, draws)
    requires !ReturnsEarly(rows, kinds) && 0 <= count
    ensures |GenerateQuiz(rows, kinds, count, order, draws)| == Min(count, |Candidates(rows)|)
  {
  }

  /** Every question asks a non-empty word for a non-empty meaning, and no two
      questions come from the same row. */
  lemma {:induction false} QuestionsFromDistinctEligibleRows(rows: seq<VocabRow>, kinds: seq<QuizKind>, count: int,
                                          order: seq<nat>, draws: seq<Draw>)
    requires ValidRandomness(rows, kinds, count, order, draws)
    requires !ReturnsEarly(rows, kinds)
    ensures var quiz := GenerateQuiz(rows, kinds, count, order, draws);
            var sel := SelectedIndices(rows, count, order);
            && Distinct(sel)
            && forall k :: 0 <= k < |quiz| ==>
                 && quiz[k].question == rows[sel[k]].word != ""
                 && quiz[k].answer == rows[sel[k]].meaning != ""
  {
    var quiz := GenerateQuiz(rows, kinds, count, order, draws);
    var sel := SelectedIndices(rows, count, order);
    forall k | 0 <= k < |quiz|
      ensures quiz[k].question == rows[sel[k]].word != ""
      ensures quiz[k].answer == rows[sel[k]].meaning != ""
    {
      assert FromRow(rows, sel[k], quiz[k]);
      assert IsEligible(rows[sel[k]]);
    }
  }

  /** When the count reaches the number of candidates, every eligible row is asked about. */
  lemma {:induction false} EveryCandidateAskedWhenCountSuffices(rows: seq<VocabRow>, count: int, order: seq<nat>)
    requires IsPermutation(order, |Candidates(rows)|)
    requires count >= |Candidates(rows)|
    ensures forall i :: 0 <= i < |rows| && IsEligible(rows[i]) ==> i in SelectedIndices(rows, count, order)
  {
    var cand := Candidates(rows);
    var sel := SelectedIndices(rows, count, order);
    PermutationCovers(order, |cand|);
    forall i | 0 <= i < |rows| && IsEligible(rows[i])
      ensures i in sel
    {
      assert Candidate(rows[i], i) in cand;
      var j :| 0 <= j < |cand| && cand[j] == Candidate(rows[i], i);
      assert j in order;
      var k :| 0 <= k < |order| && order[k] == j;
      assert sel[k] == i;
    }
  }

  /** Asking for a single kind gives questions of that kind only. */
  lemma {:induction false} SingleKindQuiz(rows: seq<VocabRow>, kinds: seq<QuizKind>, kind: QuizKind, count: int,
                       order: seq<nat>, draws: seq<Draw>)
    requires forall k :: 0 <= k < |kinds| ==> kinds[k] == kind
    requires ValidRandomness(rows, kinds, count, order, draws)
    ensures forall q :: q in GenerateQuiz(rows, kinds, count, order, draws) ==> q.Kind() == kind
  {
  }
}
