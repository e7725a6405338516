/**
 * The read-only side of a user's solutions (User.java): which quizzes the
 * user has solved, the points a solution earned, and how `addSolution`
 * turns the chosen answer ids into a quiz score out of 100.
 */
module Solutions {
  import opened Common
  import opened Quizzes
  import Questions

  // ---- scans over the solutions ----

  /** `isQuizIDCompleted`: some solution is of a quiz with the given id. */
  function IsQuizIdCompleted(solutions: seq<SolvedQuiz>, id: int): (r: bool)
    ensures r <==> exists i :: 0 <= i < |solutions| && solutions[i].quiz.id == id
  {
    if |solutions| == 0 then false
    else if id == solutions[0].quiz.id then true
    else
      assert forall i :: 1 <= i < |solutions| ==> solutions[1..][i - 1] == solutions[i];
      IsQuizIdCompleted(solutions[1..], id)
  }

  /** Index `i` holds the first solution of a quiz named `name`. */
  ghost predicate FirstOfQuiz(solutions: seq<SolvedQuiz>, name: string, i: int)
  {
    0 <= i < |solutions| && solutions[i].quiz.name == name &&
    forall j :: 0 <= j < i ==> solutions[j].quiz.name != name
  }

  /**
   * `getPoints`: the score of the first solution of a quiz equal to `quiz`
   * (same name), or -1 when the quiz was not submitted.
   */
  function GetPoints(solutions: seq<SolvedQuiz>, quiz: Quiz): (p: int)
    ensures !IsSubmitted(quiz, solutions) ==> p == -1
    ensures forall i :: FirstOfQuiz(solutions, quiz.name, i) ==> p == solutions[i].score
  {
    if |solutions| == 0 then -1
    else if quiz.name == solutions[0].quiz.name then solutions[0].score
    else
      assert forall i :: FirstOfQuiz(solutions, quiz.name, i) ==> FirstOfQuiz(solutions[1..], quiz.name, i - 1);
      GetPoints(solutions[1..], quiz)
  }

  /** A solution appended for `quiz` makes its id completed. */
  lemma CompletedAfterAppend(solutions: seq<SolvedQuiz>, quiz: Quiz, score: int)
    ensures IsQuizIdCompleted(solutions + [SolvedQuiz(quiz, score)], quiz.id)
  {
    var s := solutions + [SolvedQuiz(quiz, score)];
    assert s[|solutions|].quiz.id == quiz.id;
  }

  /**
   * The first solution of a quiz is the one `getPoints` reports: after
   * appending a solution of a quiz not yet submitted, its points are the
   * score just stored, and the points of every other quiz are unchanged.
   */
  lemma {:induction false} PointsAfterAppend(solutions: seq<SolvedQuiz>, quiz: Quiz, score: int, other: Quiz)
    ensures !IsSubmitted(quiz, solutions) ==>
      GetPoints(solutions + [SolvedQuiz(quiz, score)], quiz) == score
    ensures other.name != quiz.name ==>
      GetPoints(solutions + [SolvedQuiz(quiz, score)], other) == GetPoints(solutions, other)
    decreases |solutions|
  {
    var s := solutions + [SolvedQuiz(quiz, score)];
    if |solutions| > 0 {
      assert s[1..] == solutions[1..] + [SolvedQuiz(quiz, score)];
      PointsAfterAppend(solutions[1..], quiz, score, other);
      if !IsSubmitted(quiz, solutions) {
        assert solutions[0].quiz.name != quiz.name;
        assert !IsSubmitted(quiz, solutions[1..]) by {
          forall i | 0 <= i < |solutions[1..]|
            ensures solutions[1..][i].quiz.name != quiz.name
          {
            assert solutions[1..][i] == solutions[i + 1];
          }
        }
      }
    }
  }

  // ---- the score of a submission ----

  /** `100f / noQuestions`: the share of the total one question carries. */
  function Marks(n: nat): real
  {
    if n == 0 then 0.0 else 100.0 / (n as real)
  }

  /**
   * The running total after the first `k` questions of the loop in
   * `addSolution`: the sum of the share times each question's score.
   */
  function PartialRaw(quiz: Quiz, chosen: seq<int>, k: nat): real
    requires Resolved(quiz) && k <= |quiz.questions|
  {
    if k == 0 then 0.0
    else
      PartialRaw(quiz, chosen, k - 1) +
      Marks(|quiz.questions|) * Questions.GetScore(quiz.questions[k - 1].value, chosen)
  }

  /** `Math.round`: the nearest integer, halves rounded up. */
  function Round(x: real): (n: int)
    ensures x - 0.5 < n as real <= x + 0.5
  {
    (x + 0.5).Floor
  }

  /**
   * The score `addSolution` stores: the loop's total, clamped at 0 and
   * rounded; it always lies between 0 and 100.
   */
  function FinalScore(quiz: Quiz, chosen: seq<int>): (s: int)
    requires Resolved(quiz)
    ensures 0 <= s <= 100
  {
    var raw := PartialRaw(quiz, chosen, |quiz.questions|);
    RawBounds(quiz, chosen, |quiz.questions|);
    Round(if raw < 0.0 then 0.0 else raw)
  }

  /** Each question moves the total by at most its share, either way. */
  lemma {:induction false} RawBounds(quiz: Quiz, chosen: seq<int>, k: nat)
    requires Resolved(quiz) && k <= |quiz.questions|
    ensures -((k as real) * Marks(|quiz.questions|)) <= PartialRaw(quiz, chosen, k)
    ensures PartialRaw(quiz, chosen, k) <= (k as real) * Marks(|quiz.questions|)
  {
    if k > 0 {
      RawBounds(quiz, chosen, k - 1);
      var m := Marks(|quiz.questions|);
      var g := Questions.GetScore(quiz.questions[k - 1].value, chosen);
      Questions.ScoreBounds(quiz.questions[k - 1].value, chosen);
      ScaledBounds(m, g);
      var before := ((k - 1) as real) * m;
      assert (k as real) * m == before + m;
      assert -before <= PartialRaw(quiz, chosen, k - 1) <= before;
      var now := PartialRaw(quiz, chosen, k);
      assert now == PartialRaw(quiz, chosen, k - 1) + m * g;
      assert now <= before + m;
      assert -before - m <= now;
    }
  }

  /** A share scaled by a unit score stays within the share, either way. */
  lemma ScaledBounds(m: real, g: real)
    requires m >= 0.0 && -1.0 <= g <= 1.0
    ensures -m <= m * g <= m
  {
    assert m * (1.0 - g) >= 0.0;
    assert m * (1.0 + g) >= 0.0;
  }

  /** Every question answered perfectly earns the full 100 points. */
  lemma {:induction false} FullMarks(quiz: Quiz, chosen: seq<int>)
    requires Resolved(quiz) && |quiz.questions| > 0
    requires forall i :: 0 <= i < |quiz.questions| ==>
      Questions.GetScore(quiz.questions[i].value, chosen) == 1.0
    ensures FinalScore(quiz, chosen) == 100
  {
    PerfectRaw(quiz, chosen, |quiz.questions|);
    assert (|quiz.questions| as real) * Marks(|quiz.questions|) == 100.0;
  }

  lemma {:induction false} PerfectRaw(quiz: Quiz, chosen: seq<int>, k: nat)
    requires Resolved(quiz) && k <= |quiz.questions|
    requires forall i :: 0 <= i < |quiz.questions| ==>
      Questions.GetScore(quiz.questions[i].value, chosen) == 1.0
    ensures PartialRaw(quiz, chosen, k) == (k as real) * Marks(|quiz.questions|)
  {
    if k > 0 {
      PerfectRaw(quiz, chosen, k - 1);
    }
  }

  /**
   * No question with a positive score earns nothing: a total that is not
   * positive is clamped to 0.
   */
  lemma {:induction false} NoCredit(quiz: Quiz, chosen: seq<int>)
    requires Resolved(quiz)
    requires forall i :: 0 <= i < |quiz.questions| ==>
      Questions.GetScore(quiz.questions[i].value, chosen) <= 0.0
    ensures FinalScore(quiz, chosen) == 0
  {
    NonPositiveRaw(quiz, chosen, |quiz.questions|);
  }

  lemma {:induction false} NonPositiveRaw(quiz: Quiz, chosen: seq<int>, k: nat)
    requires Resolved(quiz) && k <= |quiz.questions|
    requires forall i :: 0 <= i < |quiz.questions| ==>
      Questions.GetScore(quiz.questions[i].value, chosen) <= 0.0
    ensures PartialRaw(quiz, chosen, k) <= 0.0
  {
    if k > 0 {
      NonPositiveRaw(quiz, chosen, k - 1);
      var m := Marks(|quiz.questions|);
      var g := Questions.GetScore(quiz.questions[k - 1].value, chosen);
      assert m >= 0.0 && g <= 0.0;
      assert m * g <= 0.0;
    }
  }
}
