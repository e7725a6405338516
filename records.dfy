/**
 * The per-line record formats of the store's files (Database.java): how
 * each read loop turns one line into an entity, and how each line is
 * written. Every parser is the inverse of the matching `toString` on
 * records whose fields carry no comma. A line that would make Java throw
 * (a missing field, a number that does not parse, an odd answer part)
 * parses to None.
 */
module Records {
  import opened Common
  import opened Text
  import opened Answers
  import opened Quizzes
  import Questions

  // ---- Users.csv: "username,password" ----

  /** The user part of `readUsers`: fields 0 and 1 of the line. */
  function ParseUserRecord(line: string): Option<Account>
  {
    var f := Split(line);
    if |f| < 2 then None else Some(Account(f[0], f[1]))
  }

  /** A user's record reads back as the same credentials. */
  lemma UserRecordRoundTrip(a: Account)
    requires ',' !in a.username && ',' !in a.password && a.password != ""
    ensures ParseUserRecord(AccountToString(a)) == Some(a)
  {
    assert AccountToString(a) == Join([a.username, a.password]);
    SplitJoin([a.username, a.password]);
  }

  // ---- Questions.csv: "id,text,type" then "text,flag" per answer ----

  /**
   * The inner loop of `readQuestions`: each step consumes a text field and
   * a flag field and builds one answer with the running answer id, which
   * moves on by one. So answer i comes from the fields 2i and 2i + 1 and
   * carries id `firstId + i`; its flag is true exactly when the field is
   * "true".
   */
  function AnswersFrom(fields: seq<string>, firstId: int): (answers: seq<Answer>)
    requires |fields| % 2 == 0
    ensures |answers| == |fields| / 2
    ensures forall i :: 0 <= i < |answers| ==>
      answers[i].id == firstId + i && answers[i].text == fields[2 * i] &&
      (answers[i].value <==> fields[2 * i + 1] == "true")
    decreases |fields|
  {
    if fields == [] then []
    else
      var tail := fields[2..];
      assert |tail| == |fields| - 2 && |tail| / 2 == |fields| / 2 - 1;
      var rest := AnswersFrom(tail, firstId + 1);
      var r := [Answer(firstId, fields[0], fields[1] == "true")] + rest;
      assert forall i :: 0 <= i < |r| ==>
        r[i].id == firstId + i && r[i].text == fields[2 * i] && (r[i].value <==> fields[2 * i + 1] == "true")
      by {
        forall i | 1 <= i < |r|
          ensures r[i].id == firstId + i && r[i].text == fields[2 * i] && (r[i].value <==> fields[2 * i + 1] == "true")
        {
          var j := i - 1;
          assert r[i] == rest[j];
          assert 2 * j + 2 == 2 * i;
          assert tail[2 * j] == fields[2 * i] && tail[2 * j + 1] == fields[2 * i + 1];
        }
      }
      r
  }

  /**
   * One line of `readQuestions`: the question and the answer id the next
   * line starts from (answer ids run on across the whole file).
   */
  function ParseQuestionRecord(line: string, firstAnswerId: int): (r: Option<(Questions.Question, int)>)
    ensures r.Some? <==> QuestionFieldsOk(Split(line))
    ensures r.Some? ==> r.value.1 == firstAnswerId + |r.value.0.answers|
    ensures r.Some? ==> forall i :: 0 <= i < |r.value.0.answers| ==> r.value.0.answers[i].id == firstAnswerId + i
  {
    QuestionOfFields(Split(line), firstAnswerId)
  }

  /**
   * The fields `readQuestions` reads without throwing: an id that parses,
   * a text, a type, and the answer part in pairs.
   */
  predicate QuestionFieldsOk(f: seq<string>)
  {
    |f| >= 3 && ParseInt(f[0]).Some? && (|f| - 3) % 2 == 0
  }

  /** The question a record's fields describe. */
  function QuestionOfFields(f: seq<string>, firstAnswerId: int): (r: Option<(Questions.Question, int)>)
    ensures r.Some? <==> QuestionFieldsOk(f)
    ensures r.Some? ==> r.value.1 == firstAnswerId + |r.value.0.answers|
    ensures r.Some? ==> forall i :: 0 <= i < |r.value.0.answers| ==> r.value.0.answers[i].id == firstAnswerId + i
  {
    if |f| < 3 then None
    else
      match ParseInt(f[0])
      case None => None
      case Some(id) =>
        if (|f| - 3) % 2 != 0 then None
        else
          var answers := AnswersFrom(f[3..], firstAnswerId);
          Some((Questions.Question(id, f[1], f[2], answers), firstAnswerId + |answers|))
  }

  /** The answers with their texts and flags kept and ids numbered on from `first`. */
  function Renumbered(answers: seq<Answer>, first: int): (r: seq<Answer>)
    ensures |r| == |answers|
    ensures forall i :: 0 <= i < |r| ==>
      r[i].id == first + i && r[i].text == answers[i].text && r[i].value == answers[i].value
  {
    seq(|answers|, i requires 0 <= i < |answers| => Answer(first + i, answers[i].text, answers[i].value))
  }

  /** Reading back the answer part of a record renumbers the answers and keeps the rest. */
  lemma AnswersFromFields(answers: seq<Answer>, first: int)
    ensures AnswersFrom(Questions.AnswerFields(answers), first) == Renumbered(answers, first)
  {
    var af := Questions.AnswerFields(answers);
    var r := AnswersFrom(af, first);
    forall i | 0 <= i < |answers|
      ensures r[i] == Renumbered(answers, first)[i]
    {
      assert af[2 * i + 1] == Questions.BoolToString(answers[i].value);
    }
  }

  /** The fields of a question's record. */
  function QuestionFields(q: Questions.Question): seq<string>
  {
    [IntToString(q.id), q.text, q.qtype] + Questions.AnswerFields(q.answers)
  }

  lemma QuestionFieldsShape(q: Questions.Question)
    requires ',' !in q.text && ',' !in q.qtype
    requires forall i :: 0 <= i < |q.answers| ==> ',' !in q.answers[i].text
    requires q.answers != [] || q.qtype != ""
    ensures CommaFree(QuestionFields(q))
    ensures QuestionFields(q)[|QuestionFields(q)| - 1] != ""
  {
    var af := Questions.AnswerFields(q.answers);
    var fields := QuestionFields(q);
    forall i | 3 <= i < |fields| ensures ',' !in fields[i] {
      var k := (i - 3) / 2;
      assert fields[i] == af[i - 3];
      if (i - 3) % 2 == 0 {
        assert af[2 * k] == q.answers[k].text;
      } else {
        assert af[2 * k + 1] == Questions.BoolToString(q.answers[k].value);
      }
    }
    if q.answers != [] {
      var k := |q.answers| - 1;
      assert |af| == 2 * k + 2;
      assert fields[|fields| - 1] == af[2 * k + 1] == Questions.BoolToString(q.answers[k].value);
    }
  }

  /**
   * A question's record reads back as the same question, except that its
   * answers are numbered from wherever the file has got to.
   */
  lemma QuestionRecordRoundTrip(q: Questions.Question, firstAnswerId: int)
    requires MinInt <= q.id <= MaxInt
    requires ',' !in q.text && ',' !in q.qtype
    requires forall i :: 0 <= i < |q.answers| ==> ',' !in q.answers[i].text
    requires q.answers != [] || q.qtype != ""
    ensures ParseQuestionRecord(Questions.ToString(q), firstAnswerId) ==
      Some((Questions.Question(q.id, q.text, q.qtype, Renumbered(q.answers, firstAnswerId)),
            firstAnswerId + |q.answers|))
  {
    SplitQuestionRecord(q);
    QuestionOfItsFields(q, firstAnswerId);
  }

  /** A question's record splits into exactly its fields. */
  lemma SplitQuestionRecord(q: Questions.Question)
    requires ',' !in q.text && ',' !in q.qtype
    requires forall i :: 0 <= i < |q.answers| ==> ',' !in q.answers[i].text
    requires q.answers != [] || q.qtype != ""
    ensures Split(Questions.ToString(q)) == QuestionFields(q)
  {
    var fields := QuestionFields(q);
    QuestionFieldsShape(q);
    SplitJoin(fields);
    DropTrailingEmptyOfNonEmptyLast(fields);
  }

  /** A question's fields describe the question, with its answers renumbered. */
  lemma QuestionOfItsFields(q: Questions.Question, firstAnswerId: int)
    requires MinInt <= q.id <= MaxInt
    ensures QuestionOfFields(QuestionFields(q), firstAnswerId) ==
      Some((Questions.Question(q.id, q.text, q.qtype, Renumbered(q.answers, firstAnswerId)),
            firstAnswerId + |q.answers|))
  {
    var fields := QuestionFields(q);
    ParseIntToString(q.id);
    assert fields[3..] == Questions.AnswerFields(q.answers);
    AnswersFromFields(q.answers, firstAnswerId);
  }

  // ---- Quizzes.csv: "id,username,password,name" then the question ids ----

  /** Index `i` holds the last stored question whose id is `id`. */
  ghost predicate LastWithIdAt(stored: seq<Questions.Question>, id: int, i: int)
  {
    0 <= i < |stored| && stored[i].id == id &&
    forall j :: i < j < |stored| ==> stored[j].id != id
  }

  /**
   * The inner scan of `readQuizzes`: every stored question with the id
   * overwrites the slot, so the last one wins; no match leaves it null.
   */
  function LastWithId(id: int, stored: seq<Questions.Question>): (r: Option<Questions.Question>)
    ensures r.None? <==> forall i :: 0 <= i < |stored| ==> stored[i].id != id
    ensures forall i :: LastWithIdAt(stored, id, i) ==> r == Some(stored[i])
    decreases |stored|
  {
    if |stored| == 0 then None
    else if stored[|stored| - 1].id == id then Some(stored[|stored| - 1])
    else
      var init := stored[..|stored| - 1];
      assert forall i :: LastWithIdAt(stored, id, i) ==> LastWithIdAt(init, id, i);
      LastWithId(id, init)
  }

  /** No two stored questions share an id. */
  ghost predicate UniqueIds(stored: seq<Questions.Question>)
  {
    forall i, j :: 0 <= i < j < |stored| ==> stored[i].id != stored[j].id
  }

  /** With unique ids, the last match and the first match are the same question. */
  lemma LastIsFirstWhenUnique(id: int, stored: seq<Questions.Question>)
    requires UniqueIds(stored)
    ensures LastWithId(id, stored) == Questions.IsValidId(id, stored)
  {
    Questions.IsValidIdFindsFirst(id, stored);
    if i :| 0 <= i < |stored| && stored[i].id == id {
      assert LastWithIdAt(stored, id, i);
      assert Questions.FirstWithId(stored, id, i);
    }
  }

  /**
   * The question-id part of a quiz record, each id resolved against the
   * stored questions; None when some field is not a number.
   */
  function ResolveIds(fields: seq<string>, stored: seq<Questions.Question>): (r: Option<seq<Option<Questions.Question>>>)
    ensures r.Some? <==> forall i :: 0 <= i < |fields| ==> ParseInt(fields[i]).Some?
    ensures r.Some? ==> |r.value| == |fields|
    ensures r.Some? ==>
      forall i :: 0 <= i < |fields| ==> r.value[i] == LastWithId(ParseInt(fields[i]).value, stored)
  {
    if fields == [] then Some([])
    else
      match ParseInt(fields[0])
      case None => None
      case Some(qid) =>
        var rest := ResolveIds(fields[1..], stored);
        assert forall i :: 1 <= i < |fields| ==> fields[1..][i - 1] == fields[i];
        if rest.None? then None else Some([LastWithId(qid, stored)] + rest.value)
  }

  /** One line of `readQuizzes`: the author as a fresh user, the name and the resolved slots. */
  function ParseQuizRecord(line: string, stored: seq<Questions.Question>): Option<Quiz>
  {
    QuizOfFields(Split(line), stored)
  }

  /** The quiz a record's fields describe. */
  function QuizOfFields(f: seq<string>, stored: seq<Questions.Question>): Option<Quiz>
  {
    if |f| < 4 then None
    else
      match ParseInt(f[0])
      case None => None
      case Some(id) =>
        match ResolveIds(f[4..], stored)
        case None => None
        case Some(slots) => Some(Quiz(id, Account(f[1], f[2]), f[3], slots))
  }

  /** The leading fields of a quiz's record: its id, its author's credentials and its name. */
  function QuizHeader(quiz: Quiz): seq<string>
  {
    [IntToString(quiz.id), quiz.owner.username, quiz.owner.password, quiz.name]
  }

  /**
   * A quiz's record is the join of its header and its question ids; with
   * no questions the record ends in a comma, that is, in one empty field.
   */
  lemma QuizRecordIsJoin(quiz: Quiz)
    requires Resolved(quiz)
    ensures var ids := QuestionIdFields(quiz.questions);
      Quizzes.ToString(quiz) == Join(QuizHeader(quiz) + if ids == [] then [""] else ids)
  {
    var header := QuizHeader(quiz);
    var ids := QuestionIdFields(quiz.questions);
    var tail := if ids == [] then [""] else ids;
    var u, p, n := quiz.owner.username, quiz.owner.password, quiz.name;
    assert header[1..] == [u, p, n];
    assert [u, p, n][1..] == [p, n];
    assert [p, n][1..] == [n];
    assert Join([p, n]) == p + "," + n;
    assert Join([u, p, n]) == u + "," + (p + "," + n);
    assert Join(header) == IntToString(quiz.id) + "," + AccountToString(quiz.owner) + "," + n;
    JoinAppend(header, tail);
  }

  /** A quiz's record splits into its header followed by its question ids. */
  lemma SplitQuizRecord(quiz: Quiz)
    requires Resolved(quiz)
    requires ',' !in quiz.owner.username && ',' !in quiz.owner.password && ',' !in quiz.name
    requires quiz.questions != [] || quiz.name != ""
    ensures Split(Quizzes.ToString(quiz)) == QuizHeader(quiz) + QuestionIdFields(quiz.questions)
  {
    var header := QuizHeader(quiz);
    var ids := QuestionIdFields(quiz.questions);
    var tail := if ids == [] then [""] else ids;
    var fields := header + tail;
    QuizRecordIsJoin(quiz);
    assert CommaFree(fields);
    SplitJoin(fields);
    if ids == [] {
      assert fields[..4] == header;
      assert header + ids == header;
    } else {
      DropTrailingEmptyOfNonEmptyLast(fields);
    }
  }

  /** Resolving the ids of a quiz's questions finds its questions again. */
  lemma ResolveOwnIds(quiz: Quiz, stored: seq<Questions.Question>)
    requires Resolved(quiz)
    requires forall i :: 0 <= i < |quiz.questions| ==>
      MinInt <= quiz.questions[i].value.id <= MaxInt && quiz.questions[i].value in stored
    requires UniqueIds(stored)
    ensures ResolveIds(QuestionIdFields(quiz.questions), stored) == Some(quiz.questions)
  {
    var ids := QuestionIdFields(quiz.questions);
    forall i | 0 <= i < |ids|
      ensures ParseInt(ids[i]) == Some(quiz.questions[i].value.id)
      ensures LastWithId(quiz.questions[i].value.id, stored) == quiz.questions[i]
    {
      ParseIntToString(quiz.questions[i].value.id);
      LastIsFirstWhenUnique(quiz.questions[i].value.id, stored);
      var j :| 0 <= j < |stored| && stored[j] == quiz.questions[i].value;
      assert Questions.FirstWithId(stored, quiz.questions[i].value.id, j);
    }
    var r := ResolveIds(ids, stored);
    assert r.Some?;
    assert r.value == quiz.questions;
  }

  /** A quiz's header and question ids describe the quiz itself. */
  lemma QuizOfItsFields(quiz: Quiz, stored: seq<Questions.Question>)
    requires Resolved(quiz) && MinInt <= quiz.id <= MaxInt
    requires forall i :: 0 <= i < |quiz.questions| ==>
      MinInt <= quiz.questions[i].value.id <= MaxInt && quiz.questions[i].value in stored
    requires UniqueIds(stored)
    ensures QuizOfFields(QuizHeader(quiz) + QuestionIdFields(quiz.questions), stored) == Some(quiz)
  {
    var f := QuizHeader(quiz) + QuestionIdFields(quiz.questions);
    ParseIntToString(quiz.id);
    ResolveOwnIds(quiz, stored);
    assert f[4..] == QuestionIdFields(quiz.questions);
  }

  /**
   * A quiz's record reads back as the same quiz, when its questions are
   * among the stored ones and no two stored questions share an id.
   */
  lemma QuizRecordRoundTrip(quiz: Quiz, stored: seq<Questions.Question>)
    requires Resolved(quiz) && MinInt <= quiz.id <= MaxInt
    requires forall i :: 0 <= i < |quiz.questions| ==>
      MinInt <= quiz.questions[i].value.id <= MaxInt && quiz.questions[i].value in stored
    requires ',' !in quiz.owner.username && ',' !in quiz.owner.password && ',' !in quiz.name
    requires quiz.questions != [] || quiz.name != ""
    requires UniqueIds(stored)
    ensures ParseQuizRecord(Quizzes.ToString(quiz), stored) == Some(quiz)
  {
    SplitQuizRecord(quiz);
    QuizOfItsFields(quiz, stored);
  }

  // ---- Solutions.csv: "username,quizId,score" ----

  datatype SolutionRecord = SolutionRecord(username: string, quizId: int, score: int)

  /** The line `Database.addSolution` writes for a user's solution. */
  function SolutionLine(r: SolutionRecord): string
  {
    r.username + "," + IntToString(r.quizId) + "," + IntToString(r.score)
  }

  /** One line of `readSolutions`: the username and the two numbers. */
  function ParseSolutionRecord(line: string): Option<SolutionRecord>
  {
    var f := Split(line);
    if |f| < 3 then None
    else
      match (ParseInt(f[1]), ParseInt(f[2]))
      case (Some(quizId), Some(score)) => Some(SolutionRecord(f[0], quizId, score))
      case _ => None
  }

  /** A solution's line reads back as the same record. */
  lemma SolutionRecordRoundTrip(r: SolutionRecord)
    requires ',' !in r.username
    requires MinInt <= r.quizId <= MaxInt && MinInt <= r.score <= MaxInt
    ensures ParseSolutionRecord(SolutionLine(r)) == Some(r)
  {
    var fields := [r.username, IntToString(r.quizId), IntToString(r.score)];
    JoinAppend([r.username], [IntToString(r.quizId), IntToString(r.score)]);
    assert SolutionLine(r) == Join(fields);
    SplitJoin(fields);
    DropTrailingEmptyOfNonEmptyLast(fields);
    ParseIntToString(r.quizId);
    ParseIntToString(r.score);
  }
}
