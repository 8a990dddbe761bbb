/**
 The records shared by the parser, the quiz generator and the quiz runner.
 */
module Types {

  /** One vocabulary entry: the prompt word, an optional transcription and its gloss. */
  datatype VocabRow = VocabRow(word: string, ipa: string, meaning: string)

  /** The question kinds the generator supports. */
  datatype QuizKind = Mcq | Fill

  datatype Question =
    | MCQQuestion(question: string, options: seq<string>, answer: string)
    | FillQuestion(question: string, answer: string)
  {
    function Kind(): QuizKind {
      match this
      case MCQQuestion(_, _, _) => Mcq
      case FillQuestion(_, _) => Fill
    }
  }

  type Quiz = seq<Question>

  /** A submitted answer: `Null` stands for both `null` and `undefined`. */
  datatype Answer = Null | Text(value: string)

  datatype Score = Score(correct: nat, total: nat)
}
