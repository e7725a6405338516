/**
 * Question.java: a question with its answers, the lookups over the stored
 * questions, the partial-credit score of one question, and its record.
 */
module Questions {
  import opened Common
  import opened Text
  import opened Statics
  import opened Answers

  /** `qtype` is the type string given on the command line ("single" or "multiple"). */
  datatype Question = Question(id: int, text: string, qtype: string, answers: seq<Answer>)

  /**
   * The counter-assigning constructor `Question(text, type, answers)`: the
   * new question takes the current `Question.count`, which moves on by one.
   */
  method NewQuestion(ids: Counters, text: string, qtype: string, answers: seq<Answer>)
    returns (q: Question)
    modifies ids`question
    ensures q == Question(old(ids.question), text, qtype, answers)
    ensures ids.question == old(ids.question) + 1
  {
    q := Question(ids.question, text, qtype, answers);
    ids.question := ids.question + 1;
  }

  // ---- lookups over the stored questions ----

  /** Index `i` holds the first stored question whose text is `text` (the natural key). */
  ghost predicate FirstWithText(stored: seq<Question>, text: string, i: int)
  {
    0 <= i < |stored| && stored[i].text == text &&
    forall j :: 0 <= j < i ==> stored[j].text != text
  }

  /** Index `i` holds the first stored question whose id is `id`. */
  ghost predicate FirstWithId(stored: seq<Question>, id: int, i: int)
  {
    0 <= i < |stored| && stored[i].id == id &&
    forall j :: 0 <= j < i ==> stored[j].id != id
  }

  /**
   * `alreadyExists`: the id of the first stored question equal to `q`
   * (same text), or 0 when there is none.
   */
  function AlreadyExists(q: Question, stored: seq<Question>): (id: int)
    ensures (forall i :: 0 <= i < |stored| ==> stored[i].text != q.text) ==> id == 0
    ensures forall i :: FirstWithText(stored, q.text, i) ==> id == stored[i].id
  {
    if |stored| == 0 then 0
    else if stored[0].text == q.text then stored[0].id
    else
      assert forall i :: FirstWithText(stored, q.text, i) ==> FirstWithText(stored[1..], q.text, i - 1);
      AlreadyExists(q, stored[1..])
  }

  /** `isValidID`: the stored question with the given id, scanning from the front. */
  function IsValidId(id: int, stored: seq<Question>): Option<Question>
  {
    if |stored| == 0 then None
    else if stored[0].id == id then Some(stored[0])
    else IsValidId(id, stored[1..])
  }

  /** `isValidID` finds nothing exactly when no stored question has the id, and otherwise the first that has it. */
  lemma {:induction false} IsValidIdFindsFirst(id: int, stored: seq<Question>)
    ensures IsValidId(id, stored).None? <==> forall i :: 0 <= i < |stored| ==> stored[i].id != id
    ensures forall i :: FirstWithId(stored, id, i) ==> IsValidId(id, stored) == Some(stored[i])
  {
    if |stored| > 0 && stored[0].id != id {
      IsValidIdFindsFirst(id, stored[1..]);
      assert forall i :: FirstWithId(stored, id, i) ==> FirstWithId(stored[1..], id, i - 1);
      assert forall i :: 1 <= i < |stored| ==> stored[1..][i - 1] == stored[i];
    }
  }

  // ---- scoring ----

  /** The number of answers marked correct. */
  function CountCorrect(s: seq<Answer>): nat
    decreases |s|
  {
    if s == [] then 0 else CountCorrect(s[..|s| - 1]) + (if s[|s| - 1].value then 1 else 0)
  }

  /** The number of answers marked wrong. */
  function CountWrong(s: seq<Answer>): nat
    decreases |s|
  {
    if s == [] then 0 else CountWrong(s[..|s| - 1]) + (if s[|s| - 1].value then 0 else 1)
  }

  /** Every answer is either correct or wrong. */
  lemma {:induction false} CountsAddUp(s: seq<Answer>)
    ensures CountCorrect(s) + CountWrong(s) == |s|
    decreases |s|
  {
    if s != [] {
      CountsAddUp(s[..|s| - 1]);
    }
  }

  /** There is a correct answer exactly when the correct count is positive. */
  lemma {:induction false} CorrectCountPositive(s: seq<Answer>)
    ensures CountCorrect(s) > 0 <==> exists i :: 0 <= i < |s| && s[i].value
    decreases |s|
  {
    if s != [] {
      var init := s[..|s| - 1];
      CorrectCountPositive(init);
      assert forall i :: 0 <= i < |init| ==> init[i] == s[i];
    }
  }

  /** There is a wrong answer exactly when the wrong count is positive. */
  lemma {:induction false} WrongCountPositive(s: seq<Answer>)
    ensures CountWrong(s) > 0 <==> exists i :: 0 <= i < |s| && !s[i].value
    decreases |s|
  {
    if s != [] {
      var init := s[..|s| - 1];
      WrongCountPositive(init);
      assert forall i :: 0 <= i < |init| ==> init[i] == s[i];
    }
  }

  /** `getCorrectAnswerScore`: each correct answer is worth 1/c, with c correct answers. */
  function CorrectAnswerScore(q: Question): (r: real)
    requires CountCorrect(q.answers) > 0
    ensures 0.0 < r <= 1.0 && r * (CountCorrect(q.answers) as real) == 1.0
  {
    1.0 / (CountCorrect(q.answers) as real)
  }

  /** `getWrongAnswerScore`: each wrong answer costs 1/w, with w wrong answers. */
  function WrongAnswerScore(q: Question): (r: real)
    requires CountWrong(q.answers) > 0
    ensures -1.0 <= r < 0.0 && r * (CountWrong(q.answers) as real) == -1.0
  {
    -1.0 / (CountWrong(q.answers) as real)
  }

  /**
   * What one answer of `q` adds to the question's score: nothing when it is
   * not chosen, else the correct or the wrong answer score. The divisor is
   * never 0: a correct answer of `q` makes the correct count positive, a
   * wrong one the wrong count.
   */
  function Contribution(q: Question, a: Answer, chosen: seq<int>): real
    requires a in q.answers
  {
    if !IsChosen(a, chosen) then 0.0
    else if a.value then
      CorrectCountPositive(q.answers);
      CorrectAnswerScore(q)
    else
      WrongCountPositive(q.answers);
      WrongAnswerScore(q)
  }

  /** The score accumulated over the answers `s` of `q`, in order. */
  function ScoreOf(q: Question, s: seq<Answer>, chosen: seq<int>): real
    requires forall a :: a in s ==> a in q.answers
    decreases |s|
  {
    if s == [] then 0.0
    else
      assert s[|s| - 1] in s;
      ScoreOf(q, s[..|s| - 1], chosen) + Contribution(q, s[|s| - 1], chosen)
  }

  /** `getScore`: the question's unit score for the chosen answer ids. */
  function GetScore(q: Question, chosen: seq<int>): real
  {
    ScoreOf(q, q.answers, chosen)
  }

  /** The number of correct answers that are chosen. */
  function ChosenCorrect(s: seq<Answer>, chosen: seq<int>): nat
    decreases |s|
  {
    if s == [] then 0
    else
      var hit := s[|s| - 1].value && IsChosen(s[|s| - 1], chosen);
      ChosenCorrect(s[..|s| - 1], chosen) + (if hit then 1 else 0)
  }

  /** The number of wrong answers that are chosen. */
  function ChosenWrong(s: seq<Answer>, chosen: seq<int>): nat
    decreases |s|
  {
    if s == [] then 0
    else
      var hit := !s[|s| - 1].value && IsChosen(s[|s| - 1], chosen);
      ChosenWrong(s[..|s| - 1], chosen) + (if hit then 1 else 0)
  }

  /** k out of n, as a fraction; 0 when there is nothing to divide by. */
  function Frac(k: nat, n: nat): real
  {
    if n == 0 then 0.0 else (k as real) / (n as real)
  }

  lemma FracStep(k: nat, n: nat)
    requires n > 0
    ensures Frac(k + 1, n) == Frac(k, n) + 1.0 / (n as real)
    ensures Frac(k + 1, n) == Frac(k, n) - (-1.0 / (n as real))
  {
  }

  lemma FracBounds(k: nat, n: nat)
    requires k <= n
    ensures 0.0 <= Frac(k, n) <= 1.0
    ensures Frac(k, n) == 1.0 <==> n > 0 && k == n
    ensures Frac(k, n) == 0.0 <==> k == 0
  {
    if n > 0 {
      assert Frac(k, n) * (n as real) == k as real;
    }
  }

  lemma {:induction false} ScoreOfFormula(q: Question, s: seq<Answer>, chosen: seq<int>)
    requires forall a :: a in s ==> a in q.answers
    ensures ScoreOf(q, s, chosen) ==
      Frac(ChosenCorrect(s, chosen), CountCorrect(q.answers)) -
      Frac(ChosenWrong(s, chosen), CountWrong(q.answers))
    decreases |s|
  {
    if s != [] {
      var init, a := s[..|s| - 1], s[|s| - 1];
      assert a in s;
      assert forall b :: b in init ==> b in s;
      ScoreOfFormula(q, init, chosen);
      var c, w := CountCorrect(q.answers), CountWrong(q.answers);
      var kc, kw := ChosenCorrect(init, chosen), ChosenWrong(init, chosen);
      assert ScoreOf(q, s, chosen) == ScoreOf(q, init, chosen) + Contribution(q, a, chosen);
      if !IsChosen(a, chosen) {
        assert ChosenCorrect(s, chosen) == kc && ChosenWrong(s, chosen) == kw;
      } else if a.value {
        assert ChosenCorrect(s, chosen) == kc + 1 && ChosenWrong(s, chosen) == kw;
        CorrectCountPositive(q.answers);
        assert Contribution(q, a, chosen) == CorrectAnswerScore(q);
        FracStep(kc, c);
      } else {
        assert ChosenCorrect(s, chosen) == kc && ChosenWrong(s, chosen) == kw + 1;
        WrongCountPositive(q.answers);
        assert Contribution(q, a, chosen) == WrongAnswerScore(q);
        FracStep(kw, w);
      }
    }
  }

  /**
   * The unit score in closed form: the chosen correct answers over all
   * correct ones, less the chosen wrong answers over all wrong ones.
   */
  lemma ScoreFormula(q: Question, chosen: seq<int>)
    ensures GetScore(q, chosen) ==
      Frac(ChosenCorrect(q.answers, chosen), CountCorrect(q.answers)) -
      Frac(ChosenWrong(q.answers, chosen), CountWrong(q.answers))
  {
    ScoreOfFormula(q, q.answers, chosen);
  }

  lemma {:induction false} ChosenAtMost(s: seq<Answer>, chosen: seq<int>)
    ensures ChosenCorrect(s, chosen) <= CountCorrect(s)
    ensures ChosenWrong(s, chosen) <= CountWrong(s)
    decreases |s|
  {
    if s != [] {
      ChosenAtMost(s[..|s| - 1], chosen);
    }
  }

  /** All correct answers are chosen exactly when the chosen-correct count is the correct count. */
  lemma {:induction false} AllCorrectChosen(s: seq<Answer>, chosen: seq<int>)
    ensures ChosenCorrect(s, chosen) == CountCorrect(s) <==>
      forall i :: 0 <= i < |s| && s[i].value ==> IsChosen(s[i], chosen)
    decreases |s|
  {
    if s != [] {
      var init := s[..|s| - 1];
      AllCorrectChosen(init, chosen);
      ChosenAtMost(init, chosen);
      assert forall i :: 0 <= i < |init| ==> init[i] == s[i];
    }
  }

  /** No wrong answer is chosen exactly when the chosen-wrong count is 0. */
  lemma {:induction false} NoWrongChosen(s: seq<Answer>, chosen: seq<int>)
    ensures ChosenWrong(s, chosen) == 0 <==>
      forall i :: 0 <= i < |s| && !s[i].value ==> !IsChosen(s[i], chosen)
    decreases |s|
  {
    if s != [] {
      var init := s[..|s| - 1];
      NoWrongChosen(init, chosen);
      assert forall i :: 0 <= i < |init| ==> init[i] == s[i];
    }
  }

  /** A question's unit score lies between -1 and 1. */
  lemma ScoreBounds(q: Question, chosen: seq<int>)
    ensures -1.0 <= GetScore(q, chosen) <= 1.0
  {
    ScoreFormula(q, chosen);
    ChosenAtMost(q.answers, chosen);
    FracBounds(ChosenCorrect(q.answers, chosen), CountCorrect(q.answers));
    FracBounds(ChosenWrong(q.answers, chosen), CountWrong(q.answers));
  }

  /**
   * For a question with a correct answer, the unit score is 1 exactly when
   * the chosen answers of the question are precisely its correct ones.
   */
  lemma PerfectScore(q: Question, chosen: seq<int>)
    requires CountCorrect(q.answers) > 0
    ensures GetScore(q, chosen) == 1.0 <==>
      forall i :: 0 <= i < |q.answers| ==> (IsChosen(q.answers[i], chosen) <==> q.answers[i].value)
  {
    ScoreFormula(q, chosen);
    ChosenAtMost(q.answers, chosen);
    FracBounds(ChosenCorrect(q.answers, chosen), CountCorrect(q.answers));
    FracBounds(ChosenWrong(q.answers, chosen), CountWrong(q.answers));
    AllCorrectChosen(q.answers, chosen);
    NoWrongChosen(q.answers, chosen);
  }

  // ---- the record ----

  /** Java's rendering of a boolean. */
  function BoolToString(b: bool): string
  {
    if b then "true" else "false"
  }

  /** The answer part of a question record: text and flag of each answer, in order. */
  function AnswerFields(answers: seq<Answer>): (fs: seq<string>)
    ensures |fs| == 2 * |answers|
    ensures forall i :: 0 <= i < |answers| ==>
      fs[2 * i] == answers[i].text && fs[2 * i + 1] == BoolToString(answers[i].value)
  {
    if answers == [] then []
    else
      var rest := AnswerFields(answers[1..]);
      assert forall i :: 1 <= i < |answers| ==> answers[1..][i - 1] == answers[i];
      [answers[0].text, BoolToString(answers[0].value)] + rest
  }

  /** `toString`: "id,text,type" followed by ",text,flag" for each answer. */
  function ToString(q: Question): string
  {
    Join([IntToString(q.id), q.text, q.qtype] + AnswerFields(q.answers))
  }
}
