/**
 The quiz-kind checkboxes: toggling a kind in the selected set, and which
 boxes are disabled and which show as checked for a deck of a given size.
 */
module QuizTypeSelector {
  import opened Types
  import opened QuizUtils

  /** One checkbox: the kind it selects and the deck size it needs. */
  datatype TypeOption = TypeOption(id: QuizKind, minRequired: nat)

  const McqOption: TypeOption := TypeOption(Mcq, 4)
  const FillOption: TypeOption := TypeOption(Fill, 1)

  /** The boxes offered, in display order. */
  const Options: seq<TypeOption> := [McqOption, FillOption]

  /** `handleToggle`: a copy of the selection with `kind` removed when it was
      there and added when it was not. The input set is a value and stays as
      it was. */
  function HandleToggle(selected: set<QuizKind>, kind: QuizKind): (r: set<QuizKind>)
    ensures kind in r <==> kind !in selected
    ensures forall k :: k != kind ==> (k in r <==> k in selected)
  {
    if kind in selected then selected - {kind} else selected + {kind}
  }

  /** Toggling the same kind twice gives the selection back. */
  lemma {:induction false} ToggleTwiceRestores(selected: set<QuizKind>, kind: QuizKind)
    ensures HandleToggle(HandleToggle(selected, kind), kind) == selected
  {
    var once := HandleToggle(selected, kind);
    var twice := HandleToggle(once, kind);
    forall k
      ensures k in twice <==> k in selected
    {
    }
  }

  /** `isDisabled`: the deck has fewer rows than the kind needs. */
  predicate IsDisabled(opt: TypeOption, vocabRowCount: int)
    ensures opt in Options && vocabRowCount >= 4 ==> !IsDisabled(opt, vocabRowCount)
    ensures opt in Options && vocabRowCount < 1 ==> IsDisabled(opt, vocabRowCount)
  {
    vocabRowCount < opt.minRequired
  }

  /** `checked`: selected and not disabled. */
  predicate IsChecked(selected: set<QuizKind>, opt: TypeOption, vocabRowCount: int)
    ensures IsChecked(selected, opt, vocabRowCount) ==> opt.id in selected
    ensures IsDisabled(opt, vocabRowCount) ==> !IsChecked(selected, opt, vocabRowCount)
  {
    opt.id in selected && !IsDisabled(opt, vocabRowCount)
  }

  /** Only mcq and fill are offered, mcq needing four rows and fill one. */
  lemma {:induction false} OfferedKinds(vocabRowCount: int)
    ensures |Options| == 2 && Options[0].id == Mcq && Options[1].id == Fill
    ensures IsDisabled(McqOption, vocabRowCount) <==> vocabRowCount < 4
    ensures IsDisabled(FillOption, vocabRowCount) <==> vocabRowCount < 1
  {
  }

  /** A box shows checked only for a selected kind the deck is large enough
      for; a disabled kind may stay in the selection while its box shows
      unchecked, and its box offers no toggle to take it out. */
  lemma {:induction false} CheckedMeansSelectedAndEnabled(selected: set<QuizKind>, opt: TypeOption, vocabRowCount: int)
    ensures IsChecked(selected, opt, vocabRowCount) <==> opt.id in selected && vocabRowCount >= opt.minRequired
    ensures IsDisabled(opt, vocabRowCount) ==> !IsChecked(selected, opt, vocabRowCount)
  {
  }

  /** A selected mcq kind whose box is disabled reaches the generator in the
      kind list, but the generator drops it: a deck of fewer than four rows
      has fewer than four candidates. */
  lemma {:induction false} DisabledMcqNeverAsked(rows: seq<VocabRow>, kinds: seq<QuizKind>)
    requires IsDisabled(McqOption, |rows|)
    ensures Mcq !in AvailableKinds(kinds, |Candidates(rows)|)
  {
    assert |Candidates(rows)| <= |rows| < 4;
  }

  /** The box counts rows, the generator counts candidates: an mcq box can show
      checked while the generator still drops mcq, when rows without a word or
      meaning bring the candidates below four. */
  lemma {:induction false} CheckedMcqMayBeDropped(rows: seq<VocabRow>, kinds: seq<QuizKind>, selected: set<QuizKind>)
    requires Mcq in selected && |rows| >= 4 && |Candidates(rows)| < 4
    ensures IsChecked(selected, McqOption, |rows|)
    ensures Mcq !in AvailableKinds(kinds, |Candidates(rows)|)
  {
  }
}
