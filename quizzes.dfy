/**
 * Quiz.java (with SolvedQuiz.java's record): a quiz with its author and its
 * questions, the lookups over the stored quizzes, and its record.
 */
module Quizzes {
  import opened Common
  import opened Text
  import opened Statics
  import Questions

  /**
   * A user's credentials. A quiz keeps its author as a fresh user built from
   * the login arguments, which never has solutions; only these two fields
   * of it are ever read.
   */
  datatype Account = Account(username: string, password: string)

  /** `User.toString`: "username,password". */
  function AccountToString(a: Account): string
  {
    a.username + "," + a.password
  }

  /**
   * A quiz. A question slot is None where a stored record named a question
   * id that no stored question has (Java leaves a null there).
   */
  datatype Quiz = Quiz(id: int, owner: Account, name: string, questions: seq<Option<Questions.Question>>)

  /** A user's solution of a quiz, with the score it earned. */
  datatype SolvedQuiz = SolvedQuiz(quiz: Quiz, score: int)

  /** Every question slot of the quiz holds a question. */
  predicate Resolved(quiz: Quiz)
  {
    forall i :: 0 <= i < |quiz.questions| ==> quiz.questions[i].Some?
  }

  /**
   * The counter-assigning constructor `Quiz(user, name, questions)`: the new
   * quiz takes the current `Quiz.count`, which moves on by one.
   */
  method NewQuiz(ids: Counters, owner: Account, name: string, questions: seq<Option<Questions.Question>>)
    returns (q: Quiz)
    modifies ids`quiz
    ensures q == Quiz(old(ids.quiz), owner, name, questions)
    ensures ids.quiz == old(ids.quiz) + 1
  {
    q := Quiz(ids.quiz, owner, name, questions);
    ids.quiz := ids.quiz + 1;
  }

  // ---- lookups over the stored quizzes ----

  /** Index `i` holds the first stored quiz named `name` (the natural key). */
  ghost predicate FirstWithName(stored: seq<Quiz>, name: string, i: int)
  {
    0 <= i < |stored| && stored[i].name == name &&
    forall j :: 0 <= j < i ==> stored[j].name != name
  }

  /** Index `i` holds the first stored quiz whose id is `id`. */
  ghost predicate FirstWithId(stored: seq<Quiz>, id: int, i: int)
  {
    0 <= i < |stored| && stored[i].id == id &&
    forall j :: 0 <= j < i ==> stored[j].id != id
  }

  /**
   * `alreadyExists`: the id of the first stored quiz equal to `quiz` (same
   * name), or 0 when there is none.
   */
  function AlreadyExists(quiz: Quiz, stored: seq<Quiz>): (id: int)
    ensures (forall i :: 0 <= i < |stored| ==> stored[i].name != quiz.name) ==> id == 0
    ensures forall i :: FirstWithName(stored, quiz.name, i) ==> id == stored[i].id
  {
    if |stored| == 0 then 0
    else if stored[0].name == quiz.name then stored[0].id
    else
      assert forall i :: FirstWithName(stored, quiz.name, i) ==> FirstWithName(stored[1..], quiz.name, i - 1);
      AlreadyExists(quiz, stored[1..])
  }

  /** `isValidID`: the stored quiz with the given id, scanning from the front. */
  function IsValidId(id: int, stored: seq<Quiz>): Option<Quiz>
  {
    if |stored| == 0 then None
    else if stored[0].id == id then Some(stored[0])
    else IsValidId(id, stored[1..])
  }

  /** `isValidID` finds nothing exactly when no stored quiz has the id, and otherwise the first that has it. */
  lemma {:induction false} IsValidIdFindsFirst(id: int, stored: seq<Quiz>)
    ensures IsValidId(id, stored).None? <==> forall i :: 0 <= i < |stored| ==> stored[i].id != id
    ensures forall i :: FirstWithId(stored, id, i) ==> IsValidId(id, stored) == Some(stored[i])
  {
    if |stored| > 0 && stored[0].id != id {
      IsValidIdFindsFirst(id, stored[1..]);
      assert forall i :: FirstWithId(stored, id, i) ==> FirstWithId(stored[1..], id, i - 1);
      assert forall i :: 1 <= i < |stored| ==> stored[1..][i - 1] == stored[i];
    }
  }

  /** The id lookup finds a quiz that carries the id asked for. */
  lemma IsValidIdFindsId(id: int, stored: seq<Quiz>)
    ensures IsValidId(id, stored).Some? ==>
      IsValidId(id, stored).value.id == id && IsValidId(id, stored).value in stored
    decreases |stored|
  {
    if |stored| > 0 && stored[0].id != id {
      IsValidIdFindsId(id, stored[1..]);
    }
  }

  /**
   * `isSubmitted`: some solution in the list is of a quiz equal to this one
   * (same name).
   */
  function IsSubmitted(quiz: Quiz, solutions: seq<SolvedQuiz>): (r: bool)
    ensures r <==> exists i :: 0 <= i < |solutions| && solutions[i].quiz.name == quiz.name
  {
    if |solutions| == 0 then false
    else if quiz.name == solutions[0].quiz.name then true
    else
      assert forall i :: 1 <= i < |solutions| ==> solutions[1..][i - 1] == solutions[i];
      IsSubmitted(quiz, solutions[1..])
  }

  // ---- the record ----

  /** The ids of the quiz's questions, in order, as decimal fields. */
  function QuestionIdFields(questions: seq<Option<Questions.Question>>): (fs: seq<string>)
    requires forall i :: 0 <= i < |questions| ==> questions[i].Some?
    ensures |fs| == |questions|
    ensures forall i :: 0 <= i < |questions| ==> fs[i] == IntToString(questions[i].value.id)
  {
    if questions == [] then []
    else [IntToString(questions[0].value.id)] + QuestionIdFields(questions[1..])
  }

  /** `toString`: "id,username,password,name," followed by the question ids joined by commas. */
  function ToString(quiz: Quiz): string
    requires Resolved(quiz)
  {
    IntToString(quiz.id) + "," + AccountToString(quiz.owner) + "," + quiz.name + "," +
    Join(QuestionIdFields(quiz.questions))
  }
}
