/**
 * The process-wide static id counters `Answer.count`, `Question.count` and
 * `Quiz.count`. Every counter starts at 1 when the process starts.
 */
module Statics {

  class Counters {
    var answer: int
    var question: int
    var quiz: int

    constructor ()
      ensures answer == 1 && question == 1 && quiz == 1
    {
      answer, question, quiz := 1, 1, 1;
    }
  }
}
