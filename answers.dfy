/** Answer.java: one answer of a question, with its correctness flag. */
module Answers {
  import opened Statics

  datatype Answer = Answer(id: int, text: string, value: bool)

  /** What the no-argument constructor builds. */
  const Unknown: Answer := Answer(-1, "unk", false)

  /**
   * The counter-assigning constructor `Answer(text, value)`: the new answer
   * takes the current `Answer.count` as its id, and the counter moves on by one.
   */
  method NewAnswer(ids: Counters, text: string, value: bool) returns (a: Answer)
    modifies ids`answer
    ensures a == Answer(old(ids.answer), text, value)
    ensures ids.answer == old(ids.answer) + 1
  {
    a := Answer(ids.answer, text, value);
    ids.answer := ids.answer + 1;
  }

  /**
   * Whether the answer's id is among the chosen ids: a scan that stops at
   * the first equal id.
   */
  function IsChosen(a: Answer, answerIds: seq<int>): (r: bool)
    ensures r <==> exists i :: 0 <= i < |answerIds| && answerIds[i] == a.id
  {
    if |answerIds| == 0 then false
    else if answerIds[0] == a.id then true
    else
      var r := IsChosen(a, answerIds[1..]);
      assert forall i :: 1 <= i < |answerIds| ==> answerIds[1..][i - 1] == answerIds[i];
      r
  }
}
