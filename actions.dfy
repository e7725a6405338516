/**
 * The commands that change the store: `User.create`, `Question.create`,
 * `Quiz.create` and `User.submitQuiz`, plus the order of the checks in
 * `Quiz.deleteQuiz`. Each takes the command's arguments as tokens; the
 * messages they print are left out, the verdict is returned instead.
 */
module Actions {
  import opened Common
  import opened Text
  import opened Statics
  import opened Answers
  import Questions
  import opened Quizzes
  import opened Store
  import Solutions
  import Commands

  // ---- User.create ----

  /**
   * `User.create`: a new user with no solutions is stored unless a stored
   * user already has the username; either way the username is taken afterwards.
   */
  method CreateUser(username: string, password: string, db: Database) returns (created: bool)
    requires db.Valid()
    modifies db`users, db`noUsers, db`log
    ensures created <==> UserAlreadyExists(username, old(db.users)).None?
    ensures created ==>
      |db.users| == |old(db.users)| + 1 && db.users[..|old(db.users)|] == old(db.users) &&
      fresh(db.users[|old(db.users)|]) &&
      db.users[|old(db.users)|].Credentials() == Account(username, password) &&
      db.users[|old(db.users)|].solutions == [] &&
      db.log == old(db.log) + [Write(UsersFile, AccountToString(Account(username, password)))]
    ensures !created ==> db.users == old(db.users) && db.log == old(db.log)
    ensures UserAlreadyExists(username, db.users).Some?
    ensures db.Valid()
  {
    var user := new User(username, password);
    if UserAlreadyExists(username, db.users).Some? {
      return false;
    }
    db.AddUser(user);
    assert db.users[|old(db.users)|] == user;
    created := true;
  }

  // ---- Question.create ----

  /** The number of answers a question command carries: the pairs of tokens after argument 4. */
  function AnswerCount(args: seq<Arg>): nat
  {
    if |args| < 5 then 0 else (|args| - 5) / 2
  }

  /** The tokens `Question.create` reads carry a quoted value. */
  predicate QuestionArgs(args: seq<Arg>)
  {
    |args| >= 5 && args[3].value.Some? && args[4].value.Some? &&
    forall k :: 5 <= k < 5 + 2 * AnswerCount(args) ==> args[k].value.Some?
  }

  /**
   * The `j`-th answer `Question.create` builds: its text is argument
   * 5 + 2j, it is correct exactly when argument 6 + 2j is "1", and it takes
   * the answer counter's value `firstId + j`.
   */
  function ArgAnswer(args: seq<Arg>, firstId: int, j: int): Answer
    requires QuestionArgs(args) && 0 <= j < AnswerCount(args)
  {
    Answer(firstId + j, args[5 + 2 * j].value.value, args[6 + 2 * j].value.value == "1")
  }

  /**
   * `Question.create`: builds the answers in argument order (each takes the
   * next answer id), then the question (which takes the next question id).
   * When a stored question already has its text under a positive id, the
   * question id is given back and nothing is stored, while the answer ids
   * stay used; otherwise the question is stored and its record written.
   */
  method CreateQuestion(args: seq<Arg>, ids: Counters, db: Database) returns (added: bool, q: Questions.Question)
    requires QuestionArgs(args) && db.Valid()
    modifies ids, db`questions, db`noQuestions, db`log
    ensures q.id == old(ids.question) && q.text == args[3].value.value && q.qtype == args[4].value.value
    ensures |q.answers| == AnswerCount(args)
    ensures forall j :: 0 <= j < AnswerCount(args) ==> q.answers[j] == ArgAnswer(args, old(ids.answer), j)
    ensures ids.answer == old(ids.answer) + AnswerCount(args) && ids.quiz == old(ids.quiz)
    ensures added <==> Questions.AlreadyExists(q, old(db.questions)) <= 0
    ensures added ==>
      db.questions == old(db.questions) + [q] && ids.question == old(ids.question) + 1 &&
      db.log == old(db.log) + [Write(QuestionsFile, Questions.ToString(q))]
    ensures !added ==>
      db.questions == old(db.questions) && ids.question == old(ids.question) && db.log == old(db.log)
    ensures db.Valid()
  {
    var n := AnswerCount(args);
    var answers := new Answer[n];
    var i := 0;
    while i < n
      invariant 0 <= i <= n
      invariant ids.answer == old(ids.answer) + i
      invariant ids.question == old(ids.question) && ids.quiz == old(ids.quiz)
      invariant forall j :: 0 <= j < i ==> answers[j] == ArgAnswer(args, old(ids.answer), j)
      modifies ids, answers
    {
      var a := NewAnswer(ids, args[5 + 2 * i].value.value, args[6 + 2 * i].value.value == "1");
      answers[i] := a;
      i := i + 1;
    }
    q := Questions.NewQuestion(ids, args[3].value.value, args[4].value.value, answers[..]);
    if Questions.AlreadyExists(q, db.questions) > 0 {
      ids.question := ids.question - 1;
      added := false;
    } else {
      db.AddQuestion(q);
      added := true;
    }
  }

  /** A "single" question whose correctness values are "1", "1" and "-1". */
  function SingleProbe(): seq<Arg>
  {
    [Arg("-create-question", false, None), Arg("-u", true, Some("alice")), Arg("-p", true, Some("pw")),
     Arg("-text", true, Some("t")), Arg("-type", true, Some("single")),
     Arg("-answer-1", true, Some("a")), Arg("-answer-1-is-correct", true, Some("1")),
     Arg("-answer-2", true, Some("b")), Arg("-answer-2-is-correct", true, Some("1")),
     Arg("-answer-3", true, Some("c")), Arg("-answer-3-is-correct", true, Some("-1"))]
  }

  /** The probe's answer tokens are numbered 1 to 3. */
  lemma ProbeFlagged()
    ensures Commands.Flagged(SingleProbe(), 0) && Commands.Flagged(SingleProbe(), 1) && Commands.Flagged(SingleProbe(), 2)
  {
    assert IntToString(1) == "1" && IntToString(2) == "2" && IntToString(3) == "3";
    assert Commands.AnswerFlag(1) == "-answer-1" && Commands.CorrectFlag(1) == "-answer-1-is-correct";
    assert Commands.AnswerFlag(2) == "-answer-2" && Commands.CorrectFlag(2) == "-answer-2-is-correct";
    assert Commands.AnswerFlag(3) == "-answer-3" && Commands.CorrectFlag(3) == "-answer-3-is-correct";
  }

  /** The answer loop reads the probe's three pairs to the end. */
  lemma ProbeScan()
    ensures Commands.ScanDefined(SingleProbe(), 0)
    ensures Commands.ScanAnswers(SingleProbe(), [], []) == Commands.Scan(true, ["a", "b", "c"], ["1", "1", "-1"])
  {
    var args := SingleProbe();
    ProbeFlagged();
    assert Commands.ScanDefined(args, 3);
    assert Commands.ScanDefined(args, 2);
    assert Commands.ScanDefined(args, 1);
    var none: seq<string> := [];
    assert none + ["a"] == ["a"] && none + ["1"] == ["1"];
    assert Commands.ScanAnswers(args, ["a", "b"], ["1", "1"]) == Commands.ScanAnswers(args, ["a", "b", "c"], ["1", "1", "-1"]);
    assert Commands.ScanAnswers(args, ["a"], ["1"]) == Commands.ScanAnswers(args, ["a", "b"], ["1", "1"]);
    assert Commands.ScanAnswers(args, [], []) == Commands.ScanAnswers(args, ["a"], ["1"]);
  }

  /** The probe's values sum to 1 while two of them are "1"; its texts are distinct. */
  lemma ProbeValues()
    ensures Commands.AllNumbers(["1", "1", "-1"])
    ensures Commands.CorrectSum(["1", "1", "-1"]) == 1 && Commands.MarkedCorrect(["1", "1", "-1"]) == 2
    ensures Commands.Distinct(["a", "b", "c"])
  {
    assert ParseInt("1") == Some(1) && ParseInt("-1") == Some(-1);
    var f3 := ["1", "1", "-1"];
    var f2 := ["1", "1"];
    var f1 := ["1"];
    assert f3[..2] == f2 && f2[..1] == f1 && f1[..0] == [];
    assert Commands.AllNumbers(f1) && Commands.AllNumbers(f2) && Commands.AllNumbers(f3);
    assert Commands.CorrectSum(f1) == 1 && Commands.MarkedCorrect(f1) == 1;
    assert Commands.CorrectSum(f2) == 2 && Commands.MarkedCorrect(f2) == 2;
    assert Commands.CorrectSum(f3) == Add32(2, -1) == 1;
  }

  /**
   * As written, the "single" check sums the correctness values, while
   * `Question.create` marks an answer correct only for the value "1": the
   * probe sums to 1, is accepted, and is built with two correct answers.
   * The corrected check refuses it with 5.
   */
  lemma SingleAcceptsTwoCorrect()
    ensures var args := SingleProbe();
      QuestionArgs(args) && Commands.QuestionCheckDefined(args) &&
      Commands.QuestionCheckValidity(args) == 0 && Commands.QuestionCheckFixed(args) == 5 &&
      ArgAnswer(args, 1, 0).value && ArgAnswer(args, 1, 1).value
  {
    ProbeScan();
    ProbeValues();
    assert Commands.AnswersDefined(SingleProbe());
  }

  /**
   * Under the corrected check, a "single" question it accepts is built
   * with at most one correct answer.
   */
  lemma SingleStoresOneCorrect(args: seq<Arg>, firstId: int)
    requires QuestionArgs(args) && Commands.QuestionCheckDefined(args)
    requires Commands.QuestionCheckFixed(args) == 0 && args[4].value.value == "single"
    ensures forall p, q :: 0 <= p < q < AnswerCount(args) ==>
      !(ArgAnswer(args, firstId, p).value && ArgAnswer(args, firstId, q).value)
  {
    Commands.QuestionAcceptedFixed(args);
    var n := Commands.PairCount(args);
    var flags := Commands.FlagTexts(args, n);
    assert AnswerCount(args) == n;
    forall p, q | 0 <= p < q < n
      ensures !(ArgAnswer(args, firstId, p).value && ArgAnswer(args, firstId, q).value)
    {
      assert flags[p] == args[6 + 2 * p].value.value && flags[q] == args[6 + 2 * q].value.value;
    }
  }

  // ---- Quiz.create ----

  /** The integer a token's quoted value reads as, if it has one and it is a decimal int. */
  function ArgId(args: seq<Arg>, k: int): Option<int>
    requires 0 <= k < |args|
  {
    if args[k].value.Some? then ParseInt(args[k].value.value) else None
  }

  /** Argument `k` names a stored question id. */
  predicate Resolves(args: seq<Arg>, stored: seq<Questions.Question>, k: int)
    requires 0 <= k < |args|
  {
    ArgId(args, k).Some? && Questions.IsValidId(ArgId(args, k).value, stored).Some?
  }

  /**
   * The question-id tokens from `k` on that `Quiz.create` parses before it
   * stops at the first unresolved id all carry an int (Java throws otherwise).
   */
  predicate IdsParse(args: seq<Arg>, stored: seq<Questions.Question>, k: nat)
    decreases |args| - k
  {
    k >= |args| || (ArgId(args, k).Some? && (Resolves(args, stored, k) ==> IdsParse(args, stored, k + 1)))
  }

  /** The outcome of resolving the question ids: all of them, or the position of the first that fails. */
  datatype Resolution = AllResolved(questions: seq<Option<Questions.Question>>) | Unresolved(position: int)

  /**
   * The loop of `Quiz.create` from argument `k` on: each id is looked up
   * among the stored questions, and the first one that is not found stops
   * it with its position among the ids (argument index minus 3).
   */
  function ResolveArgs(args: seq<Arg>, stored: seq<Questions.Question>, k: nat): (r: Resolution)
    requires k <= |args| && IdsParse(args, stored, k)
    ensures r.AllResolved? ==> |r.questions| == |args| - k
    decreases |args| - k
  {
    if k == |args| then AllResolved([])
    else if !Resolves(args, stored, k) then Unresolved(k - 3)
    else Prefixed([Questions.IsValidId(ArgId(args, k).value, stored)], ResolveArgs(args, stored, k + 1))
  }

  /** All the ids resolve exactly when the loop runs to the end, each to its stored question, in order. */
  lemma {:induction false} ResolvedInOrder(args: seq<Arg>, stored: seq<Questions.Question>, k: nat)
    requires k <= |args| && IdsParse(args, stored, k)
    ensures ResolveArgs(args, stored, k).AllResolved? <==> forall j :: k <= j < |args| ==> Resolves(args, stored, j)
    ensures var r := ResolveArgs(args, stored, k);
      r.AllResolved? ==> forall j :: 0 <= j < |r.questions| ==>
        Resolves(args, stored, k + j) && r.questions[j] == Questions.IsValidId(ArgId(args, k + j).value, stored)
    decreases |args| - k
  {
    if k < |args| && Resolves(args, stored, k) {
      ResolvedInOrder(args, stored, k + 1);
      var r := ResolveArgs(args, stored, k);
      var q := Questions.IsValidId(ArgId(args, k).value, stored);
      if r.AllResolved? {
        var rest := ResolveArgs(args, stored, k + 1).questions;
        assert r.questions == [q] + rest;
        forall j | 0 <= j < |r.questions|
          ensures Resolves(args, stored, k + j) && r.questions[j] == Questions.IsValidId(ArgId(args, k + j).value, stored)
        {
          if j > 0 {
            assert r.questions[j] == rest[j - 1];
            assert k + 1 + (j - 1) == k + j;
          }
        }
      }
    }
  }

  /** An unresolved id stops the loop at the first id that is not found. */
  lemma {:induction false} StopsAtFirstUnknown(args: seq<Arg>, stored: seq<Questions.Question>, k: nat)
    requires k <= |args| && IdsParse(args, stored, k)
    ensures var r := ResolveArgs(args, stored, k);
      r.Unresolved? ==>
        k <= r.position + 3 < |args| && !Resolves(args, stored, r.position + 3) &&
        forall j :: k <= j < r.position + 3 ==> Resolves(args, stored, j)
    decreases |args| - k
  {
    if k < |args| && Resolves(args, stored, k) {
      StopsAtFirstUnknown(args, stored, k + 1);
    }
  }

  /** The ids resolved before the rest, prefixed to what the rest resolves to. */
  function Prefixed(done: seq<Option<Questions.Question>>, r: Resolution): Resolution
  {
    match r
    case AllResolved(qs) => AllResolved(done + qs)
    case Unresolved(p) => Unresolved(p)
  }

  /** One resolved id: it heads what the ids from it on resolve to. */
  lemma ResolveStep(args: seq<Arg>, stored: seq<Questions.Question>, k: nat)
    requires k < |args| && IdsParse(args, stored, k) && Resolves(args, stored, k)
    ensures IdsParse(args, stored, k + 1)
    ensures ResolveArgs(args, stored, k) ==
      Prefixed([Questions.IsValidId(ArgId(args, k).value, stored)], ResolveArgs(args, stored, k + 1))
  {
  }

  /** The verdicts of `Quiz.create`. */
  datatype QuizVerdict = QuizAdded | NameTaken | UnknownQuestion(position: int)

  /** What `Quiz.create` leaves behind: its verdict, the quiz counter, and the quiz it stores, if any. */
  datatype Creation = Creation(verdict: QuizVerdict, counter: int, stored: Option<Quiz>)

  /** The tokens `Quiz.create` reads before the question ids carry a quoted value. */
  predicate QuizArgs(args: seq<Arg>)
  {
    |args| >= 4 && args[1].value.Some? && args[2].value.Some? && args[3].value.Some?
  }

  /**
   * `Quiz.create` as written. The new quiz takes the counter's value `next`
   * and moves it on. A stored quiz with the same name under a positive id
   * gives the counter back and stops. An unresolved question id stops too,
   * but its `count--` decrements the loop's local index rather than the
   * static counter, so the counter stays moved on. Otherwise the quiz with
   * the resolved questions is stored.
   */
  function QuizCreation(args: seq<Arg>, questions: seq<Questions.Question>, quizzes: seq<Quiz>, next: int): (c: Creation)
    requires QuizArgs(args) && IdsParse(args, questions, 4)
  {
    var owner := Account(args[1].value.value, args[2].value.value);
    var name := args[3].value.value;
    if Quizzes.AlreadyExists(Quiz(next, owner, name, []), quizzes) > 0 then Creation(NameTaken, next, None)
    else
      match ResolveArgs(args, questions, 4)
      case Unresolved(p) => Creation(UnknownQuestion(p), next + 1, None)
      case AllResolved(qs) => Creation(QuizAdded, next + 1, Some(Quiz(next, owner, name, qs)))
  }

  /**
   * The rule the quiz counter is meant to follow: starting from `next`, it
   * moves on by one exactly when a quiz is stored.
   */
  predicate CountsStored(c: Creation, next: int)
  {
    c.counter == next + (if c.stored.Some? then 1 else 0)
  }

  /**
   * `Quiz.create` as evidently intended: the verdict and the quiz stored
   * of the code as written, with the counter set by `CountsStored`.
   */
  function QuizCreationFixed(args: seq<Arg>, questions: seq<Questions.Question>, quizzes: seq<Quiz>, next: int): (c: Creation)
    requires QuizArgs(args) && IdsParse(args, questions, 4)
  {
    var w := QuizCreation(args, questions, quizzes, next);
    Creation(w.verdict, next + (if w.stored.Some? then 1 else 0), w.stored)
  }

  /**
   * The outcomes of `Quiz.create`, in the order it checks: a taken name
   * first, then the first unknown question id (reported by its position
   * among the ids), and only then a stored quiz with the questions in
   * argument order. Nothing is stored unless the verdict is QuizAdded.
   */
  lemma QuizCreationOutcomes(args: seq<Arg>, questions: seq<Questions.Question>, quizzes: seq<Quiz>, next: int)
    requires QuizArgs(args) && IdsParse(args, questions, 4)
    ensures var c := QuizCreation(args, questions, quizzes, next);
      var name := args[3].value.value;
      var owner := Account(args[1].value.value, args[2].value.value);
      (c.verdict == NameTaken <==> Quizzes.AlreadyExists(Quiz(next, owner, name, []), quizzes) > 0) &&
      (c.stored.Some? <==> c.verdict == QuizAdded) &&
      (c.verdict.UnknownQuestion? ==>
        4 <= c.verdict.position + 3 < |args| && !Resolves(args, questions, c.verdict.position + 3) &&
        forall j :: 4 <= j < c.verdict.position + 3 ==> Resolves(args, questions, j)) &&
      (c.verdict == QuizAdded ==>
        c.stored.value.id == next && c.stored.value.owner == owner &&
        c.stored.value.name == name && Resolved(c.stored.value) &&
        |c.stored.value.questions| == |args| - 4 &&
        forall j :: 0 <= j < |args| - 4 ==>
          Resolves(args, questions, 4 + j) &&
          c.stored.value.questions[j] == Questions.IsValidId(ArgId(args, 4 + j).value, questions))
  {
    ResolvedInOrder(args, questions, 4);
    StopsAtFirstUnknown(args, questions, 4);
  }

  /**
   * As written, a command whose first question id is unknown consumes a
   * quiz id without storing a quiz: on an empty store, a quiz named "q"
   * with the single question id 7 is refused at position 1 and the counter
   * still moves from 1 to 2.
   */
  lemma QuizCounterLeaks()
    ensures var args := [Arg("-create-quizz", false, None), Arg("-u", true, Some("alice")), Arg("-p", true, Some("pw")),
                         Arg("-name", true, Some("q")), Arg("-question-1", true, Some("7"))];
      IdsParse(args, [], 4) &&
      QuizCreation(args, [], [], 1) == Creation(UnknownQuestion(1), 2, None)
  {
    var args := [Arg("-create-quizz", false, None), Arg("-u", true, Some("alice")), Arg("-p", true, Some("pw")),
                 Arg("-name", true, Some("q")), Arg("-question-1", true, Some("7"))];
    assert ParseInt("7") == Some(7);
    assert !Resolves(args, [], 4);
  }

  /**
   * The code as written keeps the counter rule exactly when no question id
   * is unknown, and there it agrees with the corrected version in full; the
   * corrected version keeps the rule always.
   */
  lemma QuizCounterCountsStoredQuizzes(args: seq<Arg>, questions: seq<Questions.Question>, quizzes: seq<Quiz>, next: int)
    requires QuizArgs(args) && IdsParse(args, questions, 4)
    ensures var c := QuizCreationFixed(args, questions, quizzes, next);
      var w := QuizCreation(args, questions, quizzes, next);
      CountsStored(c, next) && c.verdict == w.verdict && c.stored == w.stored &&
      (CountsStored(w, next) <==> !w.verdict.UnknownQuestion?) &&
      (!w.verdict.UnknownQuestion? ==> c == w)
  {
    QuizCreationOutcomes(args, questions, quizzes, next);
  }

  /**
   * `Quiz.create`, with the quiz counter given back on an unknown question
   * id: the command's outcome, counter and store are those
   * `QuizCreationFixed` gives; the questions are looked up one by one into
   * an array, in argument order, and the quiz is stored with that array.
   */
  method CreateQuiz(args: seq<Arg>, ids: Counters, db: Database) returns (verdict: QuizVerdict)
    requires QuizArgs(args) && IdsParse(args, db.questions, 4) && db.Valid()
    modifies ids`quiz, db`quizzes, db`noQuizzes, db`log
    ensures var c := QuizCreationFixed(args, old(db.questions), old(db.quizzes), old(ids.quiz));
      verdict == c.verdict && ids.quiz == c.counter &&
      (c.stored.None? ==> db.quizzes == old(db.quizzes) && db.log == old(db.log)) &&
      (c.stored.Some? ==>
        (Resolved(c.stored.value) && db.quizzes == old(db.quizzes) + [c.stored.value] &&
         db.log == old(db.log) + [Write(QuizzesFile, Quizzes.ToString(c.stored.value))]))
    ensures db.Valid()
  {
    var owner := Account(args[1].value.value, args[2].value.value);
    var name := args[3].value.value;
    ghost var stored := db.questions;
    ghost var next := ids.quiz;
    var quiz := NewQuiz(ids, owner, name, []);
    if Quizzes.AlreadyExists(quiz, db.quizzes) > 0 {
      ids.quiz := ids.quiz - 1;
      assert QuizCreationFixed(args, stored, db.quizzes, next) == Creation(NameTaken, next, None);
      return NameTaken;
    }
    var questions := new Option<Questions.Question>[|args| - 4](_ => None);
    var count := 0;
    var i := 4;
    while i < |args|
      invariant 4 <= i <= |args| && count == i - 4
      invariant IdsParse(args, stored, i)
      invariant forall j :: 0 <= j < count ==> questions[j].Some?
      invariant ResolveArgs(args, stored, 4) == Prefixed(questions[..count], ResolveArgs(args, stored, i))
      invariant ids.quiz == next + 1
      modifies questions, ids`quiz
    {
      var id := ParseInt(args[i].value.value).value;
      var question := Questions.IsValidId(id, db.questions);
      if question.None? {
        assert ResolveArgs(args, stored, 4) == Unresolved(i - 3);
        assert QuizCreationFixed(args, stored, db.quizzes, next) == Creation(UnknownQuestion(i - 3), next, None);
        ids.quiz := ids.quiz - 1;
        return UnknownQuestion(i - 3);
      }
      ResolveStep(args, stored, i);
      ghost var done := questions[..count];
      ghost var rest := ResolveArgs(args, stored, i + 1);
      if rest.AllResolved? {
        ConcatAssoc(done, [question], rest.questions);
      }
      questions[count] := question;
      assert questions[..count + 1] == done + [question];
      count := count + 1;
      i := i + 1;
    }
    assert questions[..count] == questions[..];
    var added := Quiz(quiz.id, owner, name, questions[..]);
    assert ResolveArgs(args, stored, 4) == AllResolved(added.questions);
    assert QuizCreationFixed(args, stored, db.quizzes, next) == Creation(QuizAdded, next + 1, Some(added));
    db.AddQuiz(added);
    verdict := QuizAdded;
  }

  // ---- User.submitQuiz ----

  /** The answer-id tokens from `k` on all carry an int (Java throws otherwise). */
  predicate AnswerIdsParse(args: seq<Arg>, k: nat)
  {
    forall i :: k <= i < |args| ==> args[i].value.Some? && ParseInt(args[i].value.value).Some?
  }

  /** The answer ids the tokens from `k` on carry, in order. */
  function AnswerIds(args: seq<Arg>, k: nat): (r: seq<int>)
    requires AnswerIdsParse(args, k)
    ensures |r| == if k <= |args| then |args| - k else 0
    decreases |args| - k
  {
    if k >= |args| then [] else [ParseInt(args[k].value.value).value] + AnswerIds(args, k + 1)
  }

  /** The id the quiz-id token carries. */
  function QuizIdArg(args: seq<Arg>): int
    requires QuizIdParses(args)
  {
    ParseInt(args[3].value.value).value
  }

  /** What `submitQuiz` reports: a failed login, a refused attempt with its `checkAttempt` code, or the points scored. */
  datatype Submission = LoginFailed | Refused(code: int) | Scored(points: int)

  /**
   * What `submitQuiz` demands of its arguments for each path it takes: the
   * credential tokens carry values, a given quiz id is an int, and on the
   * scoring path the answer ids are ints and the quiz's question ids all
   * resolved when it was read.
   */
  predicate SubmitArgs(args: seq<Arg>, users: seq<User>, quizzes: seq<Quiz>)
    reads users
  {
    (|args| <= 2 || (args[1].value.Some? && args[2].value.Some?)) &&
    (Login(args, users).Some? ==>
      (NoQuizId(args) || QuizIdParses(args)) &&
      (CheckAttempt(args, users, quizzes) == 0 ==>
        AnswerIdsParse(args, 4) && Resolved(IsValidId(QuizIdArg(args), quizzes).value)))
  }

  /**
   * `scoreQuiz`, given the user `login` found and the quiz `isValidID`
   * found: the answer ids are parsed into an array, in argument order, and
   * the user gains the solution of the quiz scored from those answers; the
   * store logs it and no other user changes. The quiz then counts as
   * submitted, and when it was not submitted before, the points reported
   * are the score just stored.
   */
  method ScoreQuiz(args: seq<Arg>, user: User, quiz: Quiz, db: Database) returns (points: int)
    requires db.Valid() && user in db.users && Resolved(quiz) && AnswerIdsParse(args, 4)
    modifies db.users, db`log
    ensures var score := Solutions.FinalScore(quiz, AnswerIds(args, 4));
      user.solutions == old(user.solutions) + [SolvedQuiz(quiz, score)] &&
      db.log == old(db.log) +
        [Write(SolutionsFile, Records.SolutionLine(Records.SolutionRecord(user.username, quiz.id, score)))] &&
      (!old(IsSubmitted(quiz, user.solutions)) ==> points == score)
    ensures forall u :: u in db.users && u != user ==> u.solutions == old(u.solutions)
    ensures IsSubmitted(quiz, user.solutions)
    ensures db.Valid()
  {
    var answerIds := new int[if |args| >= 4 then |args| - 4 else 0];
    var i := 0;
    while i < answerIds.Length
      invariant 0 <= i <= answerIds.Length
      invariant forall j :: 0 <= j < i ==> answerIds[j] == AnswerIds(args, 4)[j]
      modifies answerIds
    {
      answerIds[i] := ParseInt(args[i + 4].value.value).value;
      AnswerIdsAt(args, 4, i);
      i := i + 1;
    }
    assert answerIds[..] == AnswerIds(args, 4);
    label before:
    user.AddSolution(quiz, answerIds[..], db);
    points := Solutions.GetPoints(user.solutions, quiz);
    forall u | u in db.users && u != user
      ensures u.solutions == old@before(u.solutions) && u.Valid()
    {
      assert u.solCount == old@before(u.solCount);
    }
    assert forall j :: 0 <= j < |db.users| ==> db.users[j] in db.users;
    assert user.solutions[|user.solutions| - 1].quiz.name == quiz.name;
  }

  /**
   * `submitQuiz`: a failed login or a refused attempt (a `checkAttempt`
   * code other than 0) changes nothing; otherwise the quiz is scored as
   * `scoreQuiz` does, the points reported are the score stored, and the
   * same attempt is now refused as already submitted.
   */
  method SubmitQuiz(args: seq<Arg>, db: Database) returns (outcome: Submission)
    requires db.Valid() && SubmitArgs(args, db.users, db.quizzes)
    modifies db.users, db`log
    ensures outcome.LoginFailed? <==> Login(args, db.users).None?
    ensures outcome.Refused? <==> Login(args, db.users).Some? && old(CheckAttempt(args, db.users, db.quizzes)) != 0
    ensures outcome.Refused? ==> outcome.code == old(CheckAttempt(args, db.users, db.quizzes))
    ensures !outcome.Scored? ==> db.log == old(db.log) && forall u :: u in db.users ==> u.solutions == old(u.solutions)
    ensures outcome.Scored? ==>
      var user := Login(args, db.users).value;
      var quiz := IsValidId(QuizIdArg(args), db.quizzes).value;
      var score := Solutions.FinalScore(quiz, AnswerIds(args, 4));
      outcome.points == score &&
      user.solutions == old(user.solutions) + [SolvedQuiz(quiz, score)] &&
      db.log == old(db.log) +
        [Write(SolutionsFile, Records.SolutionLine(Records.SolutionRecord(user.username, quiz.id, score)))] &&
      (forall u :: u in db.users && u != user ==> u.solutions == old(u.solutions)) &&
      CheckAttempt(args, db.users, db.quizzes) == 3
    ensures db.Valid()
  {
    if Login(args, db.users).None? {
      return LoginFailed;
    }
    var code := CheckAttempt(args, db.users, db.quizzes);
    if code != 0 {
      return Refused(code);
    }
    var id := QuizIdArg(args);
    FirstIdExists(id, db.quizzes);
    IsValidIdFindsFirst(id, db.quizzes);
    ghost var k :| FirstWithId(db.quizzes, id, k);
    var points := ScoreQuiz(args, Login(args, db.users).value, IsValidId(id, db.quizzes).value, db);
    outcome := Scored(points);
    assert db.quizzes[k] == IsValidId(id, db.quizzes).value;
  }

  lemma {:induction false} AnswerIdsAt(args: seq<Arg>, k: nat, i: int)
    requires AnswerIdsParse(args, k) && 0 <= i < |args| - k
    ensures AnswerIds(args, k)[i] == ParseInt(args[k + i].value.value).value
    decreases i
  {
    if i > 0 {
      assert AnswerIdsParse(args, k + 1);
      AnswerIdsAt(args, k + 1, i - 1);
    }
  }

  // ---- Quiz.deleteQuiz ----

  /** The verdicts of `deleteQuiz`, in the order it checks them. */
  datatype Deletion = NotAuthenticated | NoQuizIdentifier | QuizNotFound | NotOwner | Deleted

  /**
   * `deleteQuiz`: a failed login first, then a missing quiz id (exactly
   * three arguments), then an id no stored quiz carries, then a quiz the
   * logged-in user did not create; otherwise the quiz is deleted.
   */
  function DeleteQuizVerdict(args: seq<Arg>, users: seq<User>, quizzes: seq<Quiz>): (v: Deletion)
    requires |args| <= 2 || (args[1].value.Some? && args[2].value.Some?)
    requires Login(args, users).Some? && |args| > 3 ==> args[3].value.Some? && ParseInt(args[3].value.value).Some?
  {
    match Login(args, users)
    case None => NotAuthenticated
    case Some(user) =>
      if |args| == 3 then NoQuizIdentifier
      else
        match IsValidId(ParseInt(args[3].value.value).value, quizzes)
        case None => QuizNotFound
        case Some(quiz) => if quiz.owner != user.Credentials() then NotOwner else Deleted
  }

  /**
   * Each verdict of `deleteQuiz` holds exactly in its own case: the quiz
   * that decides is the first stored one with the id given.
   */
  lemma DeleteQuizOutcomes(args: seq<Arg>, users: seq<User>, quizzes: seq<Quiz>)
    requires |args| <= 2 || (args[1].value.Some? && args[2].value.Some?)
    requires Login(args, users).Some? && |args| > 3 ==> args[3].value.Some? && ParseInt(args[3].value.value).Some?
    ensures var v := DeleteQuizVerdict(args, users, quizzes);
      (v == NotAuthenticated <==> Login(args, users).None?) &&
      (v == NoQuizIdentifier <==> Login(args, users).Some? && |args| == 3) &&
      (Login(args, users).Some? && |args| > 3 ==>
        var id := ParseInt(args[3].value.value).value;
        var user := Login(args, users).value;
        (v == QuizNotFound <==> forall i :: 0 <= i < |quizzes| ==> quizzes[i].id != id) &&
        (v == NotOwner <==> exists i :: FirstWithId(quizzes, id, i) && quizzes[i].owner != user.Credentials()) &&
        (v == Deleted <==> exists i :: FirstWithId(quizzes, id, i) && quizzes[i].owner == user.Credentials()))
  {
    if Login(args, users).Some? && |args| > 3 {
      var id := ParseInt(args[3].value.value).value;
      FirstIdExists(id, quizzes);
      IsValidIdFindsFirst(id, quizzes);
    }
  }

  /**
   * A quiz its owner may delete is one they cannot submit: for the same
   * credentials and id, `checkAttempt` refuses as already submitted (3) or
   * as their own quiz (4). The quiz id token must have a space after its
   * flag: `deleteQuiz` reads only its quoted value, while `checkAttempt`
   * answers 1 for a token without a space.
   */
  lemma DeletableIsNotSubmittable(args: seq<Arg>, users: seq<User>, quizzes: seq<Quiz>)
    requires |args| > 3 && args[1].value.Some? && args[2].value.Some? && args[3].value.Some? && args[3].spaced
    requires ParseInt(args[3].value.value).Some?
    requires DeleteQuizVerdict(args, users, quizzes) == Deleted
    ensures Login(args, users).Some? && CheckAttempt(args, users, quizzes) in {3, 4}
  {
  }
}
