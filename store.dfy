/**
 * The mutable state of the quiz tool: a registered user with the solutions
 * they have submitted (User.java), and the in-memory store with its three
 * growable lists and their counts (Database.java). The two classes refer to
 * each other, so they share one module. What the store appends to its CSV
 * files is kept as a log of written lines; the read loops take the lines of
 * a file as a sequence.
 */
module Store {
  import opened Common
  import opened Text
  import opened Quizzes
  import Questions
  import Solutions
  import Records
  import Answers

  const UsersFile: string := "Users.csv"
  const QuestionsFile: string := "Questions.csv"
  const QuizzesFile: string := "Quizzes.csv"
  const SolutionsFile: string := "Solutions.csv"

  /** One line appended to one of the store's files. */
  datatype Write = Write(file: string, line: string)

  class User {
    const username: string
    const password: string
    var solutions: seq<SolvedQuiz>
    var solCount: int

    /** `solCount` counts the solutions: every update appends one and bumps it. */
    ghost predicate Valid()
      reads this
    {
      solCount == |solutions|
    }

    /** `User(username, password)`: a user with no solutions yet. */
    constructor (username: string, password: string)
      ensures this.username == username && this.password == password
      ensures solutions == [] && solCount == 0
      ensures Valid()
    {
      this.username := username;
      this.password := password;
      solutions := [];
      solCount := 0;
    }

    /**
     * The setter calls `readSolutions` makes on the user it found: the
     * array grown by one, the solution stored at index `solCount`, which is
     * the new last slot, and the count bumped.
     */
    method AppendSolution(solution: SolvedQuiz)
      requires Valid()
      modifies this
      ensures solutions == old(solutions) + [solution]
      ensures Valid()
    {
      solutions := solutions + [solution];
      solCount := solCount + 1;
    }

    /** The two fields `equals` compares and `toString` writes. */
    function Credentials(): Account
    {
      Account(username, password)
    }

    /**
     * `addSolution`: scores the chosen answer ids question by question,
     * appends the solution, and has the store write its record. The quiz
     * becomes completed, and when it was not submitted before, `getPoints`
     * reports the score just stored.
     */
    method AddSolution(quiz: Quiz, answerIds: seq<int>, db: Database)
      requires Valid() && Resolved(quiz)
      modifies this, db`log
      ensures solutions == old(solutions) + [SolvedQuiz(quiz, Solutions.FinalScore(quiz, answerIds))]
      ensures Valid()
      ensures db.log == old(db.log) +
        [Write(SolutionsFile, Records.SolutionLine(
          Records.SolutionRecord(username, quiz.id, Solutions.FinalScore(quiz, answerIds))))]
      ensures Solutions.IsQuizIdCompleted(solutions, quiz.id)
      ensures !IsSubmitted(quiz, old(solutions)) ==>
        Solutions.GetPoints(solutions, quiz) == Solutions.FinalScore(quiz, answerIds)
    {
      var score: real := 0.0;
      var marks := Solutions.Marks(|quiz.questions|);
      var i := 0;
      while i < |quiz.questions|
        invariant 0 <= i <= |quiz.questions|
        invariant score == Solutions.PartialRaw(quiz, answerIds, i)
      {
        score := score + marks * Questions.GetScore(quiz.questions[i].value, answerIds);
        i := i + 1;
      }
      if score < 0.0 {
        score := 0.0;
      }
      var solution := SolvedQuiz(quiz, Solutions.Round(score));
      assert solution.score == Solutions.FinalScore(quiz, answerIds);
      Solutions.CompletedAfterAppend(solutions, quiz, solution.score);
      Solutions.PointsAfterAppend(solutions, quiz, solution.score, quiz);
      solutions := solutions + [solution];
      solCount := solCount + 1;
      db.AddSolution(this, solution);
    }
  }

  // ---- lookups over the stored users ----

  /** Index `i` holds the first stored user named `username`. */
  ghost predicate FirstWithUsername(users: seq<User>, username: string, i: int)
  {
    0 <= i < |users| && users[i].username == username &&
    forall j :: 0 <= j < i ==> users[j].username != username
  }

  /** Index `i` holds the first stored user with these credentials. */
  ghost predicate FirstWithCredentials(users: seq<User>, a: Account, i: int)
  {
    0 <= i < |users| && users[i].Credentials() == a &&
    forall j :: 0 <= j < i ==> users[j].Credentials() != a
  }

  /** `alreadyExists`: the first stored user with this username, whatever the password. */
  function UserAlreadyExists(username: string, users: seq<User>): (r: Option<User>)
    ensures r.None? <==> forall i :: 0 <= i < |users| ==> users[i].username != username
    ensures forall i :: FirstWithUsername(users, username, i) ==> r == Some(users[i])
    ensures r.Some? ==> r.value in users && r.value.username == username
  {
    if |users| == 0 then None
    else if users[0].username == username then Some(users[0])
    else
      assert forall i :: FirstWithUsername(users, username, i) ==> FirstWithUsername(users[1..], username, i - 1);
      assert forall i :: 1 <= i < |users| ==> users[1..][i - 1] == users[i];
      UserAlreadyExists(username, users[1..])
  }

  /** `userIsValid`: the first stored user equal to these credentials (both fields). */
  function UserIsValid(a: Account, users: seq<User>): (r: Option<User>)
    ensures r.None? <==> forall i :: 0 <= i < |users| ==> users[i].Credentials() != a
    ensures forall i :: FirstWithCredentials(users, a, i) ==> r == Some(users[i])
    ensures r.Some? ==> r.value in users && r.value.Credentials() == a
  {
    if |users| == 0 then None
    else if users[0].Credentials() == a then Some(users[0])
    else
      assert forall i :: FirstWithCredentials(users, a, i) ==> FirstWithCredentials(users[1..], a, i - 1);
      assert forall i :: 1 <= i < |users| ==> users[1..][i - 1] == users[i];
      UserIsValid(a, users[1..])
  }

  /** The credentials a command line gives: the values of arguments 1 and 2. */
  function LoginAccount(args: seq<Arg>): Account
    requires |args| > 2 && args[1].value.Some? && args[2].value.Some?
  {
    Account(args[1].value.value, args[2].value.value)
  }

  /**
   * `login`: None with at most two arguments, with flags other than "-u"
   * and "-p", or with credentials no stored user has; otherwise the stored
   * user they name.
   */
  function Login(args: seq<Arg>, users: seq<User>): (r: Option<User>)
    requires |args| <= 2 || (args[1].value.Some? && args[2].value.Some?)
    ensures r.Some? <==>
      |args| > 2 && args[1].flag == "-u" && args[2].flag == "-p" &&
      exists i :: 0 <= i < |users| && users[i].Credentials() == LoginAccount(args)
    ensures r.Some? ==> r.value in users && r.value.Credentials() == LoginAccount(args)
  {
    if |args| <= 2 then None
    else if args[1].flag != "-u" || args[2].flag != "-p" then None
    else UserIsValid(LoginAccount(args), users)
  }

  /** The quiz id argument is missing, or has no space after its flag. */
  predicate NoQuizId(args: seq<Arg>)
  {
    |args| == 3 || (|args| > 3 && !args[3].spaced)
  }

  /** The quiz id argument carries a quoted value that `Integer.parseInt` reads. */
  predicate QuizIdParses(args: seq<Arg>)
  {
    |args| > 3 && args[3].value.Some? && ParseInt(args[3].value.value).Some?
  }

  /**
   * `checkAttempt`, for a logged-in user: 1 without a quiz id, 2 when no
   * stored quiz has it, 3 when the user already submitted that quiz, 4 when
   * it is their own quiz, 0 when the attempt may be scored. Each code
   * excludes the earlier ones, so "already submitted" wins over "own quiz".
   */
  function CheckAttempt(args: seq<Arg>, users: seq<User>, quizzes: seq<Quiz>): (v: int)
    reads users
    requires |args| > 2 && args[1].value.Some? && args[2].value.Some?
    requires Login(args, users).Some?
    requires NoQuizId(args) || QuizIdParses(args)
    ensures 0 <= v <= 4
    ensures v == 1 <==> NoQuizId(args)
    ensures !NoQuizId(args) ==>
      var id := ParseInt(args[3].value.value).value;
      var user := Login(args, users).value;
      (v == 2 <==> forall i :: 0 <= i < |quizzes| ==> quizzes[i].id != id) &&
      (v == 3 <==> exists i :: FirstWithId(quizzes, id, i) && IsSubmitted(quizzes[i], user.solutions)) &&
      (v == 4 <==> exists i :: (FirstWithId(quizzes, id, i) && !IsSubmitted(quizzes[i], user.solutions) &&
                                 quizzes[i].owner == user.Credentials()))
  {
    if NoQuizId(args) then 1
    else
      var id := ParseInt(args[3].value.value).value;
      FirstIdExists(id, quizzes);
      IsValidIdFindsFirst(id, quizzes);
      match IsValidId(id, quizzes)
      case None => 2
      case Some(quiz) =>
        var user := Login(args, users).value;
        if IsSubmitted(quiz, user.solutions) then 3
        else if quiz.owner == user.Credentials() then 4
        else 0
  }

  /** A stored id has a first quiz carrying it. */
  lemma {:induction false} FirstIdExists(id: int, quizzes: seq<Quiz>)
    ensures (exists i :: 0 <= i < |quizzes| && quizzes[i].id == id) ==>
      exists i :: FirstWithId(quizzes, id, i)
    decreases |quizzes|
  {
    if |quizzes| > 0 && quizzes[0].id != id {
      FirstIdExists(id, quizzes[1..]);
      if exists i :: 0 <= i < |quizzes| && quizzes[i].id == id {
        var i :| 0 <= i < |quizzes| && quizzes[i].id == id;
        assert quizzes[1..][i - 1].id == id;
        var k :| FirstWithId(quizzes[1..], id, k);
        assert FirstWithId(quizzes, id, k + 1);
      }
    } else if |quizzes| > 0 {
      assert FirstWithId(quizzes, id, 0);
    }
  }

  // ---- the store ----

  class Database {
    var users: seq<User>
    var questions: seq<Questions.Question>
    var quizzes: seq<Quiz>
    var noUsers: int
    var noQuestions: int
    var noQuizzes: int
    /** The lines appended to the store's files, oldest first. */
    var log: seq<Write>

    /**
     * Each count is the length of its list, and every stored user keeps its
     * own solution count.
     */
    ghost predicate Valid()
      reads this, users
    {
      noUsers == |users| && noQuestions == |questions| && noQuizzes == |quizzes| &&
      forall i :: 0 <= i < |users| ==> users[i].Valid()
    }

    /** `Database()`: all three lists empty, all counts 0, nothing written. */
    constructor ()
      ensures users == [] && questions == [] && quizzes == []
      ensures noUsers == 0 && noQuestions == 0 && noQuizzes == 0
      ensures log == []
      ensures Valid()
    {
      users, questions, quizzes := [], [], [];
      noUsers, noQuestions, noQuizzes := 0, 0, 0;
      log := [];
    }

    /** `addUser`: writes "username,password" to the users' file and appends the user. */
    method AddUser(user: User)
      requires Valid() && user.Valid()
      modifies this`users, this`noUsers, this`log
      ensures users == old(users) + [user] && noUsers == old(noUsers) + 1
      ensures log == old(log) + [Write(UsersFile, AccountToString(user.Credentials()))]
      ensures Valid()
    {
      log := log + [Write(UsersFile, AccountToString(user.Credentials()))];
      users := users + [user];
      noUsers := noUsers + 1;
    }

    /** `addQuestion`: writes the question's record and appends the question. */
    method AddQuestion(question: Questions.Question)
      requires Valid()
      modifies this`questions, this`noQuestions, this`log
      ensures questions == old(questions) + [question] && noQuestions == old(noQuestions) + 1
      ensures log == old(log) + [Write(QuestionsFile, Questions.ToString(question))]
      ensures Valid()
    {
      log := log + [Write(QuestionsFile, Questions.ToString(question))];
      questions := questions + [question];
      noQuestions := noQuestions + 1;
    }

    /** `addQuiz`: writes the quiz's record and appends the quiz. */
    method AddQuiz(quiz: Quiz)
      requires Valid() && Resolved(quiz)
      modifies this`quizzes, this`noQuizzes, this`log
      ensures quizzes == old(quizzes) + [quiz] && noQuizzes == old(noQuizzes) + 1
      ensures log == old(log) + [Write(QuizzesFile, Quizzes.ToString(quiz))]
      ensures Valid()
    {
      log := log + [Write(QuizzesFile, Quizzes.ToString(quiz))];
      quizzes := quizzes + [quiz];
      noQuizzes := noQuizzes + 1;
    }

    /** `addSolution`: writes "username,quizId,score"; the lists are untouched. */
    method AddSolution(user: User, solution: SolvedQuiz)
      modifies this`log
      ensures log == old(log) +
        [Write(SolutionsFile, Records.SolutionLine(
          Records.SolutionRecord(user.username, solution.quiz.id, solution.score)))]
    {
      log := log + [Write(SolutionsFile, Records.SolutionLine(
        Records.SolutionRecord(user.username, solution.quiz.id, solution.score)))];
    }

    /**
     * `readUsers`: one new user per line, appended in file order, with the
     * line's first two fields as its credentials and no solutions.
     */
    method ReadUsers(lines: seq<string>)
      requires Valid() && UserLines(lines)
      modifies this`users, this`noUsers
      ensures old(users) <= users && Accounts(users) == Accounts(old(users)) + UsersRead(lines)
      ensures forall i :: |old(users)| <= i < |users| ==> users[i].solutions == []
      ensures Valid()
    {
      var rest := lines;
      while rest != []
        invariant UserLines(rest) && old(users) <= users
        invariant Accounts(users) + UsersRead(rest) == Accounts(old(users)) + UsersRead(lines)
        invariant noUsers == |users|
        invariant forall i :: 0 <= i < |users| ==>
          users[i].Valid() && (|old(users)| <= i ==> users[i].solutions == [])
        decreases |rest|
      {
        var a := Records.ParseUserRecord(rest[0]).value;
        var user := new User(a.username, a.password);
        assert UsersRead(rest) == [a] + UsersRead(rest[1..]);
        ConcatAssoc(Accounts(users), [a], UsersRead(rest[1..]));
        assert Accounts(users + [user]) == Accounts(users) + [a];
        label added:
        users := users + [user];
        noUsers := noUsers + 1;
        forall i | 0 <= i < |users|
          ensures users[i].Valid() && (|old(users)| <= i ==> users[i].solutions == [])
        {
          if i < |users| - 1 {
            assert users[i] == old@added(users[i]);
          }
        }
        rest := rest[1..];
      }
    }

    /**
     * `readQuestions`: one question per line, appended in file order, with
     * answer ids numbered on across the whole file from 1.
     */
    method ReadQuestions(lines: seq<string>)
      requires Valid() && QuestionLines(lines)
      modifies this`questions, this`noQuestions
      ensures questions == old(questions) + QuestionsRead(lines, 1)
      ensures noQuestions == old(noQuestions) + |lines|
      ensures Valid()
    {
      var ansCount := 1;
      var rest := lines;
      while rest != []
        invariant QuestionsReading(questions, noQuestions, rest, ansCount, old(questions) + QuestionsRead(lines, 1))
        decreases |rest|
      {
        var (question, next) := Records.ParseQuestionRecord(rest[0], ansCount).value;
        assert QuestionsRead(rest, ansCount) == [question] + QuestionsRead(rest[1..], next);
        ConcatAssoc(questions, [question], QuestionsRead(rest[1..], next));
        questions := questions + [question];
        noQuestions := noQuestions + 1;
        ansCount := next;
        rest := rest[1..];
      }
    }

    /**
     * `readQuizzes`: one quiz per line, appended in file order, each question
     * id resolved against the stored questions.
     */
    method ReadQuizzes(lines: seq<string>)
      requires Valid() && QuizLines(lines, questions)
      modifies this`quizzes, this`noQuizzes
      ensures quizzes == old(quizzes) + QuizzesRead(lines, questions)
      ensures noQuizzes == old(noQuizzes) + |lines|
      ensures Valid()
    {
      var stored := questions;
      var rest := lines;
      while rest != []
        invariant QuizzesReading(quizzes, noQuizzes, rest, stored, old(quizzes) + QuizzesRead(lines, stored))
        decreases |rest|
      {
        var quiz := Records.ParseQuizRecord(rest[0], stored).value;
        assert QuizzesRead(rest, stored) == [quiz] + QuizzesRead(rest[1..], stored);
        ConcatAssoc(quizzes, [quiz], QuizzesRead(rest[1..], stored));
        quizzes := quizzes + [quiz];
        noQuizzes := noQuizzes + 1;
        rest := rest[1..];
      }
    }

    /**
     * `readSolutions`: each line's solution is appended to the first stored
     * user with the line's username; every other user is left as it was.
     */
    method ReadSolutions(lines: seq<string>)
      requires Valid() && SolutionLines(lines, users, quizzes)
      modifies users
      ensures forall u :: u in users ==>
        u.solutions == old(u.solutions) + ReadFor(u, users, lines, quizzes)
      ensures Valid()
    {
      ghost var before: map<User, seq<SolvedQuiz>> := map u: User | u in users :: u.solutions;
      ghost var current: map<User, seq<SolvedQuiz>> := before;
      var rest := lines;
      while rest != []
        invariant SolutionLines(rest, users, quizzes)
        invariant forall u :: u in users ==> u in before && before[u] == old(u.solutions)
        invariant forall u :: u in users ==> u in current && u.solutions == current[u] && u.Valid()
        invariant Distribute(current, users, rest, quizzes) == Distribute(before, users, lines, quizzes)
        decreases |rest|
      {
        var r := Records.ParseSolutionRecord(rest[0]).value;
        var user := UserAlreadyExists(r.username, users).value;
        var solution := SolutionOfLine(rest[0], quizzes);
        label step:
        current := current[user := current[user] + [solution]];
        user.AppendSolution(solution);
        forall u | u in users
          ensures u in current && u.solutions == current[u] && u.Valid()
        {
          if u != user {
            assert u.solutions == old@step(u.solutions) && u.solCount == old@step(u.solCount);
          }
        }
        rest := rest[1..];
      }
      forall u | u in users
        ensures u.solutions == old(u.solutions) + ReadFor(u, users, lines, quizzes)
      {
        DistributeReads(before, users, lines, quizzes, u);
      }
      assert forall i :: 0 <= i < |users| ==> users[i] in users;
    }
  }

  /** The credentials of the users, in order. */
  function Accounts(users: seq<User>): (r: seq<Account>)
    ensures |r| == |users| && forall i :: 0 <= i < |users| ==> r[i] == users[i].Credentials()
  {
    seq(|users|, i requires 0 <= i < |users| => users[i].Credentials())
  }

  /** Every line is a user record `readUsers` reads without throwing. */
  predicate UserLines(lines: seq<string>)
  {
    lines == [] || (Records.ParseUserRecord(lines[0]).Some? && UserLines(lines[1..]))
  }

  /** The credentials `readUsers` takes from the lines, in file order. */
  function UsersRead(lines: seq<string>): (r: seq<Account>)
    requires UserLines(lines)
    ensures |r| == |lines|
  {
    if lines == [] then [] else [Records.ParseUserRecord(lines[0]).value] + UsersRead(lines[1..])
  }

  /**
   * Part way through `readQuestions`: what is stored plus what the rest of
   * the lines give, numbered on from `next`, is the whole file's outcome.
   */
  ghost predicate QuestionsReading(questions: seq<Questions.Question>, count: int, rest: seq<string>,
                                   next: int, all: seq<Questions.Question>)
  {
    QuestionLines(rest) && questions + QuestionsRead(rest, next) == all && count == |questions|
  }

  /** Part way through `readQuizzes`: what is stored plus what the rest gives is the whole outcome. */
  ghost predicate QuizzesReading(quizzes: seq<Quiz>, count: int, rest: seq<string>,
                                 stored: seq<Questions.Question>, all: seq<Quiz>)
  {
    QuizLines(rest, stored) && quizzes + QuizzesRead(rest, stored) == all && count == |quizzes|
  }

  // ---- what the read loops build ----

  /** Every line is a question record `readQuestions` reads without throwing. */
  predicate QuestionLines(lines: seq<string>)
  {
    lines == [] || (Records.QuestionFieldsOk(Split(lines[0])) && QuestionLines(lines[1..]))
  }

  /**
   * The questions the lines describe, in file order, their answers numbered
   * on from `firstAnswerId` across the lines.
   */
  function QuestionsRead(lines: seq<string>, firstAnswerId: int): (r: seq<Questions.Question>)
    requires QuestionLines(lines)
    ensures |r| == |lines|
  {
    if lines == [] then []
    else
      var (question, next) := Records.ParseQuestionRecord(lines[0], firstAnswerId).value;
      [question] + QuestionsRead(lines[1..], next)
  }

  /** All the answers of the questions, in order. */
  function AllAnswers(questions: seq<Questions.Question>): seq<Answers.Answer>
  {
    if questions == [] then [] else questions[0].answers + AllAnswers(questions[1..])
  }

  /**
   * The answers read from a file carry the ids 1, 2, 3, ... in file order,
   * whatever the ids in the file's questions.
   */
  lemma {:induction false} AnswerIdsConsecutive(lines: seq<string>, firstAnswerId: int)
    requires QuestionLines(lines)
    ensures forall j :: 0 <= j < |AllAnswers(QuestionsRead(lines, firstAnswerId))| ==>
      AllAnswers(QuestionsRead(lines, firstAnswerId))[j].id == firstAnswerId + j
    decreases |lines|
  {
    if lines != [] {
      var (question, next) := Records.ParseQuestionRecord(lines[0], firstAnswerId).value;
      AnswerIdsConsecutive(lines[1..], next);
      var qs := QuestionsRead(lines, firstAnswerId);
      assert qs[0] == question && qs[1..] == QuestionsRead(lines[1..], next);
      assert AllAnswers(qs) == question.answers + AllAnswers(QuestionsRead(lines[1..], next));
    }
  }

  /** Every line is a quiz record `readQuizzes` reads without throwing. */
  predicate QuizLines(lines: seq<string>, stored: seq<Questions.Question>)
  {
    lines == [] || (Records.ParseQuizRecord(lines[0], stored).Some? && QuizLines(lines[1..], stored))
  }

  /**
   * The quizzes the lines describe, in file order, each question id
   * resolved against `stored`.
   */
  function QuizzesRead(lines: seq<string>, stored: seq<Questions.Question>): (r: seq<Quiz>)
    requires QuizLines(lines, stored)
    ensures |r| == |lines|
  {
    if lines == [] then []
    else [Records.ParseQuizRecord(lines[0], stored).value] + QuizzesRead(lines[1..], stored)
  }

  /** The `i`-th quiz read is the quiz the `i`-th line describes. */
  lemma {:induction false} QuizzesReadAt(lines: seq<string>, stored: seq<Questions.Question>, i: int)
    requires QuizLines(lines, stored) && 0 <= i < |lines|
    ensures Records.ParseQuizRecord(lines[i], stored).Some?
    ensures QuizzesRead(lines, stored)[i] == Records.ParseQuizRecord(lines[i], stored).value
    decreases i
  {
    var read := QuizzesRead(lines, stored);
    var rest := QuizzesRead(lines[1..], stored);
    assert read == [Records.ParseQuizRecord(lines[0], stored).value] + rest;
    if i > 0 {
      assert lines[1..][i - 1] == lines[i];
      QuizzesReadAt(lines[1..], stored, i - 1);
      assert read[i] == rest[i - 1];
    }
  }

  /** A solution line that parses and names a stored quiz. */
  predicate SolutionLineResolves(line: string, quizzes: seq<Quiz>)
  {
    Records.ParseSolutionRecord(line).Some? &&
    IsValidId(Records.ParseSolutionRecord(line).value.quizId, quizzes).Some?
  }

  /** Every line is a solution record naming a stored quiz. */
  predicate ResolvingLines(lines: seq<string>, quizzes: seq<Quiz>)
  {
    lines == [] || (SolutionLineResolves(lines[0], quizzes) && ResolvingLines(lines[1..], quizzes))
  }

  /**
   * Every line is a solution record `readSolutions` reads without throwing:
   * it names a stored user and a stored quiz.
   */
  predicate SolutionLines(lines: seq<string>, users: seq<User>, quizzes: seq<Quiz>)
  {
    lines == [] ||
    (SolutionLineResolves(lines[0], quizzes) &&
     UserAlreadyExists(Records.ParseSolutionRecord(lines[0]).value.username, users).Some? &&
     SolutionLines(lines[1..], users, quizzes))
  }

  /** Lines `readSolutions` reads all name stored quizzes. */
  lemma {:induction false} SolutionLinesResolve(lines: seq<string>, users: seq<User>, quizzes: seq<Quiz>)
    requires SolutionLines(lines, users, quizzes)
    ensures ResolvingLines(lines, quizzes)
    decreases |lines|
  {
    if lines != [] {
      SolutionLinesResolve(lines[1..], users, quizzes);
    }
  }

  /** The solution a resolving line describes. */
  function SolutionOfLine(line: string, quizzes: seq<Quiz>): SolvedQuiz
    requires SolutionLineResolves(line, quizzes)
  {
    var rec := Records.ParseSolutionRecord(line).value;
    SolvedQuiz(IsValidId(rec.quizId, quizzes).value, rec.score)
  }

  /** What one line gives the user named `username`: its solution if it names that user. */
  function LineSolutions(line: string, username: string, quizzes: seq<Quiz>): seq<SolvedQuiz>
    requires SolutionLineResolves(line, quizzes)
  {
    if Records.ParseSolutionRecord(line).value.username == username then [SolutionOfLine(line, quizzes)] else []
  }

  /** The solutions the lines give the user named `username`, in file order. */
  function SolutionsRead(lines: seq<string>, username: string, quizzes: seq<Quiz>): (r: seq<SolvedQuiz>)
    requires ResolvingLines(lines, quizzes)
    ensures |r| <= |lines|
  {
    if lines == [] then [] else LineSolutions(lines[0], username, quizzes) + SolutionsRead(lines[1..], username, quizzes)
  }

  /**
   * The solutions `readSolutions` gives to a stored user: those of the
   * lines with its username when it is the first user with that name,
   * none otherwise.
   */
  function ReadFor(u: User, users: seq<User>, lines: seq<string>, quizzes: seq<Quiz>): seq<SolvedQuiz>
    requires SolutionLines(lines, users, quizzes)
  {
    SolutionLinesResolve(lines, users, quizzes);
    if UserAlreadyExists(u.username, users) == Some(u) then SolutionsRead(lines, u.username, quizzes) else []
  }

  /**
   * Reading one line: the user it names gets its solution, every other
   * user nothing.
   */
  lemma ReadStep(lines: seq<string>, users: seq<User>, quizzes: seq<Quiz>, user: User, u: User)
    requires lines != [] && SolutionLines(lines, users, quizzes)
    requires UserAlreadyExists(Records.ParseSolutionRecord(lines[0]).value.username, users) == Some(user)
    ensures ReadFor(u, users, lines, quizzes) ==
      (if u == user then [SolutionOfLine(lines[0], quizzes)] else []) + ReadFor(u, users, lines[1..], quizzes)
  {
    SolutionLinesResolve(lines, users, quizzes);
    if u != user && UserAlreadyExists(u.username, users) == Some(u) {
      assert u.username != Records.ParseSolutionRecord(lines[0]).value.username;
    }
  }

  /**
   * What `readSolutions` does to the users' solutions, as a map from each
   * stored user to its solutions: line by line, the first user with the
   * line's username gets the line's solution appended.
   */
  ghost function Distribute(m: map<User, seq<SolvedQuiz>>, users: seq<User>, lines: seq<string>,
                            quizzes: seq<Quiz>): (r: map<User, seq<SolvedQuiz>>)
    requires SolutionLines(lines, users, quizzes) && forall u :: u in users ==> u in m
    ensures forall u :: u in users ==> u in r
    decreases |lines|
  {
    if lines == [] then m
    else
      var user := UserAlreadyExists(Records.ParseSolutionRecord(lines[0]).value.username, users).value;
      Distribute(m[user := m[user] + [SolutionOfLine(lines[0], quizzes)]], users, lines[1..], quizzes)
  }

  /** After the whole file, every user has what it had plus the solutions the file gives it. */
  lemma {:induction false} DistributeReads(m: map<User, seq<SolvedQuiz>>, users: seq<User>, lines: seq<string>,
                                           quizzes: seq<Quiz>, u: User)
    requires SolutionLines(lines, users, quizzes) && forall v :: v in users ==> v in m
    requires u in users
    ensures Distribute(m, users, lines, quizzes)[u] == m[u] + ReadFor(u, users, lines, quizzes)
    decreases |lines|
  {
    if lines != [] {
      var user := UserAlreadyExists(Records.ParseSolutionRecord(lines[0]).value.username, users).value;
      var sol := SolutionOfLine(lines[0], quizzes);
      var next := m[user := m[user] + [sol]];
      var gained: seq<SolvedQuiz> := if u == user then [sol] else [];
      assert next[u] == m[u] + gained;
      assert Distribute(m, users, lines, quizzes) == Distribute(next, users, lines[1..], quizzes);
      ReadStep(lines, users, quizzes, user, u);
      DistributeReads(next, users, lines[1..], quizzes, u);
      var later := ReadFor(u, users, lines[1..], quizzes);
      ConcatAssoc(m[u], gained, later);
    }
  }

  /** Two runs of resolving lines make one. */
  lemma {:induction false} ResolvingAppend(a: seq<string>, b: seq<string>, quizzes: seq<Quiz>)
    requires ResolvingLines(a, quizzes) && ResolvingLines(b, quizzes)
    ensures ResolvingLines(a + b, quizzes)
    decreases |a|
  {
    if a == [] {
      assert a + b == b;
    } else {
      assert (a + b)[0] == a[0] && (a + b)[1..] == a[1..] + b;
      ResolvingAppend(a[1..], b, quizzes);
    }
  }

  /** Reading two files' worth of lines one after the other: the solutions concatenate. */
  lemma {:induction false} SolutionsReadAppend(a: seq<string>, b: seq<string>, username: string, quizzes: seq<Quiz>)
    requires ResolvingLines(a, quizzes) && ResolvingLines(b, quizzes) && ResolvingLines(a + b, quizzes)
    ensures SolutionsRead(a + b, username, quizzes) == SolutionsRead(a, username, quizzes) + SolutionsRead(b, username, quizzes)
    decreases |a|
  {
    if a == [] {
      assert a + b == b;
    } else {
      var ab := a + b;
      assert ab[0] == a[0] && ab[1..] == a[1..] + b;
      var first := LineSolutions(a[0], username, quizzes);
      assert SolutionsRead(ab, username, quizzes) == first + SolutionsRead(a[1..] + b, username, quizzes);
      SolutionsReadAppend(a[1..], b, username, quizzes);
      ConcatAssoc(first, SolutionsRead(a[1..], username, quizzes), SolutionsRead(b, username, quizzes));
    }
  }

  /**
   * The line `addSolution` writes reads back as the same solution, for its
   * user and for no other.
   */
  lemma SolutionReadBack(username: string, other: string, quizzes: seq<Quiz>, quiz: Quiz, score: int)
    requires ',' !in username && MinInt <= quiz.id <= MaxInt && MinInt <= score <= MaxInt
    requires IsValidId(quiz.id, quizzes) == Some(quiz)
    ensures ResolvingLines([Records.SolutionLine(Records.SolutionRecord(username, quiz.id, score))], quizzes)
    ensures var line := Records.SolutionLine(Records.SolutionRecord(username, quiz.id, score));
      SolutionsRead([line], username, quizzes) == [SolvedQuiz(quiz, score)] &&
      (other != username ==> SolutionsRead([line], other, quizzes) == [])
  {
    var line := Records.SolutionLine(Records.SolutionRecord(username, quiz.id, score));
    Records.SolutionRecordRoundTrip(Records.SolutionRecord(username, quiz.id, score));
    assert [line][1..] == [];
  }

  /**
   * A solutions file that gains the line `addSolution` writes reads back
   * with that solution after the ones it had, for the user who submitted.
   */
  lemma LoggedSolutionReadBack(lines: seq<string>, username: string, quizzes: seq<Quiz>, quiz: Quiz, score: int)
    requires ResolvingLines(lines, quizzes)
    requires ',' !in username && MinInt <= quiz.id <= MaxInt && MinInt <= score <= MaxInt
    requires IsValidId(quiz.id, quizzes) == Some(quiz)
    ensures var line := Records.SolutionLine(Records.SolutionRecord(username, quiz.id, score));
      ResolvingLines(lines + [line], quizzes) &&
      SolutionsRead(lines + [line], username, quizzes) == SolutionsRead(lines, username, quizzes) + [SolvedQuiz(quiz, score)]
  {
    var line := Records.SolutionLine(Records.SolutionRecord(username, quiz.id, score));
    SolutionReadBack(username, username, quizzes, quiz, score);
    ResolvingAppend(lines, [line], quizzes);
    SolutionsReadAppend(lines, [line], username, quizzes);
  }
}
