# Quiz tool core in Dafny

A model of the domain logic of a command-line quiz tool written in Java
(`com.example.project`). Users register with a username and password,
create multiple-choice questions and quizzes made of stored questions, and
submit quizzes for a partial-credit score. Everything lives in an
in-memory `Database` whose growable arrays are loaded from, and appended
to, four CSV files.

The model is organised by the program's own structure:

- `common.dfy` (`Common`): `Option`, and the command-line token `Arg(flag, spaced, value)`. The source reads a token in two ways, and the model keeps both:
  - the space view, `split(" ")`, gives the flag and whether a space follows it (`spaced`);
  - the quote view, `split("'")`, gives the flag and `split("'")[1]` as `value`.
  - The value is None when `split("'")` yields a single piece. Java drops trailing empty pieces, so `-u ''` is spaced but has no value.
- `text.dfy` (`Text`): the record level, namely comma joins, `String.split(",")`, decimal printing, `Integer.parseInt` and 32-bit `int` addition.
- `statics.dfy` (`Statics`): the static id counters `Answer.count`, `Question.count` and `Quiz.count`. They form one `Counters` object that the creating methods update.
- `answers.dfy`, `questions.dfy`, `quizzes.dfy` (`Answers`, `Questions`, `Quizzes`): the entities as values.
  - The counter-assigning constructors are methods.
  - The natural-key and id lookups are functions over the stored sequence.
  - The per-question score is an exact `real` formula.
- `solutions.dfy` (`Solutions`): the scans over a user's solutions and the quiz total of `addSolution`.
- `records.dfy` (`Records`): the per-line parsers of the `read*` methods. Each is proved to invert the matching `toString`.
- `commands.dfy` (`Commands`): the argument validators of `Command`. The answer loop and the nested duplicate scan of `answersValidity` are methods over an array, proved against a scan function.
- `store.dfy` (`Store`): the two classes with fields updated in place.
  - `User` has its `solutions` list and `solCount` field.
  - `Database` has three lists, their counts, and a log of the lines appended to the files.
  - The read loops are methods over a given sequence of lines.
- `actions.dfy` (`Actions`): the commands that change the store: `User.create`, `Question.create`, `Quiz.create`, `User.submitQuiz`/`scoreQuiz`. It also covers the verdict order of `Quiz.deleteQuiz`.

Java exceptions on malformed input become preconditions stated as exactly as the code requires. For example, an answer list with an odd number of tokens makes `answersValidity` read past the array, and a token without a quoted value makes `split("'")[1]` throw where the code reads it unchecked (`login`, `Question.create`, `Quiz.create`). Where the code checks for the value first, as `answersValidity` does, a missing value is a verdict and not a precondition: `-answer-1 ''` and `-answer-1-is-correct ''` are answered with -1. The messages the commands print are replaced by the verdicts they select.

`Question.create` takes the answer ids from `Answer.count` while it builds the answers. When the question text turns out to be taken, it gives back only the question id; the answer counter keeps the ids it used. The model does the same: `Actions.CreateQuestion` restores the question counter and not the answer counter.

`Quiz.create` means to give its id back in the same way when a question id is unknown, but does not (see Findings). `Actions.QuizCreation` is the code as written and `Actions.QuizCreationFixed` the corrected rule; `Actions.CreateQuiz` follows the corrected rule.

The "single" check of `answersValidity` sums the correctness values, while `Question.create` marks an answer correct only when its value is "1". So the check can accept a "single" question that ends up with two correct answers (see Findings). `Commands.QuestionCheckValidity` is the check as written; `Commands.QuestionCheckFixed` counts the values that are "1", as evidently intended.

## Model

| member | source | states |
|---|---|---|
| Statics.Counters.constructor | src/main/java/com/example/project/Answer.java:12 | every static id counter (also Question.java:15 and Quiz.java:17) starts at 1 |
| Answers.NewAnswer | src/main/java/com/example/project/Answer.java:26-28 | the new answer takes the counter's current value as its id, keeps the given text and flag, and the counter moves on by exactly one |
| Answers.IsChosen | src/main/java/com/example/project/Answer.java:73-81 | true exactly when the answer's id occurs among the chosen ids (so never for an empty list) |
| Questions.NewQuestion | src/main/java/com/example/project/Question.java:30-32 | the new question takes the counter's current value as its id and the counter moves on by one |
| Questions.AlreadyExists | src/main/java/com/example/project/Question.java:86-94 | 0 when no stored question has the same text (`equals` compares texts), otherwise the id of the first that has it |
| Questions.IsValidIdFindsFirst | src/main/java/com/example/project/Question.java:180-188 | the lookup finds nothing exactly when no stored question carries the id, and otherwise returns the first that does |
| Questions.CountsAddUp | src/main/java/com/example/project/Question.java:194-218 | every answer is counted either as correct or as wrong |
| Questions.CorrectCountPositive | src/main/java/com/example/project/Question.java:194-203 | the correct count is positive exactly when some answer is marked correct |
| Questions.WrongCountPositive | src/main/java/com/example/project/Question.java:209-218 | the wrong count is positive exactly when some answer is marked wrong |
| Questions.CorrectAnswerScore | src/main/java/com/example/project/Question.java:194-203 | with c correct answers the value is the reciprocal of c: positive, at most 1, and c times it is 1 |
| Questions.WrongAnswerScore | src/main/java/com/example/project/Question.java:209-218 | with w wrong answers the value is minus the reciprocal of w: negative, at least -1, and w times it is -1 |
| Questions.ScoreOfFormula | src/main/java/com/example/project/Question.java:229-242 | the loop over any run of the question's answers adds up to chosen-correct/c minus chosen-wrong/w over that run; unchosen answers add nothing |
| Questions.ScoreFormula | src/main/java/com/example/project/Question.java:229-242 | `getScore` is (chosen correct answers)/c minus (chosen wrong answers)/w; a count's reciprocal is only taken when that count is positive |
| Questions.ChosenAtMost | src/main/java/com/example/project/Question.java:229-242 | no more correct (wrong) answers are chosen than there are |
| Questions.AllCorrectChosen | src/main/java/com/example/project/Question.java:232-234 | all correct answers are counted as chosen exactly when each correct answer is chosen |
| Questions.NoWrongChosen | src/main/java/com/example/project/Question.java:235-236 | no wrong answer is counted as chosen exactly when none is chosen |
| Questions.ScoreBounds | src/main/java/com/example/project/Question.java:229-242 | the score of a question lies in [-1, 1] |
| Questions.PerfectScore | src/main/java/com/example/project/Question.java:229-242 | for a question with a correct answer, the score is 1 exactly when the chosen answers are precisely the correct ones |
| Questions.AnswerFields | src/main/java/com/example/project/Question.java:248-254 | the answer part of the record lists, per answer in order, its text and then "true" or "false" |
| Quizzes.NewQuiz | src/main/java/com/example/project/Quiz.java:32-34 | the new quiz takes the counter's current value as its id and the counter moves on by one |
| Quizzes.AlreadyExists | src/main/java/com/example/project/Quiz.java:87-95 | 0 when no stored quiz has the same name (`equals` compares names, lines 331-333), otherwise the id of the first that has it |
| Quizzes.IsValidIdFindsFirst | src/main/java/com/example/project/Quiz.java:222-230 | the lookup finds nothing exactly when no stored quiz carries the id, and otherwise returns the first that does |
| Quizzes.IsValidIdFindsId | src/main/java/com/example/project/Quiz.java:222-230 | a quiz found is a stored quiz carrying the id asked for |
| Quizzes.IsSubmitted | src/main/java/com/example/project/Quiz.java:237-249 | true exactly when some solution is of a quiz with the same name |
| Quizzes.QuestionIdFields | src/main/java/com/example/project/Quiz.java:313-324 | the question part of the quiz record is each question's id in decimal, in order |
| Solutions.IsQuizIdCompleted | src/main/java/com/example/project/User.java:163-175 | true exactly when some solution's quiz has the id |
| Solutions.GetPoints | src/main/java/com/example/project/User.java:291-299 | -1 when no solution is of a quiz with the same name; otherwise the score of the first such solution |
| Solutions.CompletedAfterAppend | src/main/java/com/example/project/User.java:280-281 | after a solution of a quiz is appended, that quiz's id counts as completed |
| Solutions.PointsAfterAppend | src/main/java/com/example/project/User.java:280-281 | appending a solution to a quiz not yet submitted makes `getPoints` report its score, and leaves the points of quizzes with other names unchanged |
| Solutions.Round | src/main/java/com/example/project/User.java:279 | `Math.round` lands within half a point of its argument (floor of x + 1/2) |
| Solutions.FinalScore | src/main/java/com/example/project/User.java:264-279 | the stored score of a quiz is an integer from 0 to 100 |
| Solutions.RawBounds | src/main/java/com/example/project/User.java:270-273 | after k questions the running score lies within k times the marks per question of 0 |
| Solutions.FullMarks | src/main/java/com/example/project/User.java:264-279 | a quiz whose every question is answered perfectly scores 100 |
| Solutions.PerfectRaw | src/main/java/com/example/project/User.java:270-273 | with every question answered perfectly, the running score after k questions is k times the marks per question |
| Solutions.NoCredit | src/main/java/com/example/project/User.java:275-279 | when no question scores above 0, the negative total is clamped and the stored score is 0 |
| Solutions.NonPositiveRaw | src/main/java/com/example/project/User.java:270-273 | when no question scores above 0, the running score never rises above 0 |
| Text.SplitJoin | src/main/java/com/example/project/Database.java:99 | splitting a joined record of comma-free fields at its commas gives the fields back, less the trailing empty ones `split` drops |
| Text.ParseIntToString | src/main/java/com/example/project/Database.java:100 | every Java int printed in decimal parses back to itself |
| Text.Add32 | src/main/java/com/example/project/Command.java:245 | Java `int` addition: the exact sum when it fits in 32 bits, otherwise the sum wrapped by 2^32 |
| Records.UserRecordRoundTrip | src/main/java/com/example/project/Database.java:75-77 | the line `User.toString` writes reads back as the same username and password |
| Records.AnswersFrom | src/main/java/com/example/project/Database.java:102-110 | consuming one text field and one flag field per step while the answer id runs on, answer i takes its text from field 2i, is correct exactly when field 2i+1 is "true", and carries the running id plus i; there is one answer per pair |
| Records.ParseQuestionRecord | src/main/java/com/example/project/Database.java:99-111 | a question line parses exactly when its fields are well formed; its answers take consecutive ids from the running id, which moves on by their number |
| Records.AnswersFromFields | src/main/java/com/example/project/Database.java:105-110 | the answer part of a question record reads back as the same answers, renumbered from the running id |
| Records.SplitQuestionRecord | src/main/java/com/example/project/Question.java:248-254 | splitting the record of a question without commas in its texts gives its fields back |
| Records.QuestionOfItsFields | src/main/java/com/example/project/Database.java:99-111 | the fields of a question describe the same question with renumbered answers |
| Records.QuestionRecordRoundTrip | src/main/java/com/example/project/Database.java:99-111 | the line `Question.toString` writes reads back as the same id, text, type and answers (texts and flags, ids renumbered) |
| Records.LastWithId | src/main/java/com/example/project/Database.java:139-143 | the scan of the stored questions keeps the last match: None when no question carries the id, else the last that does |
| Records.LastIsFirstWhenUnique | src/main/java/com/example/project/Database.java:139-143 | when the stored ids are unique, the last match the read loop keeps is the question `isValidID` finds |
| Records.ResolveIds | src/main/java/com/example/project/Database.java:136-144 | the question ids of a quiz line all parse, or the line is refused; each id becomes its last match among the stored questions, or an empty slot |
| Records.QuizRecordIsJoin | src/main/java/com/example/project/Quiz.java:313-324 | the quiz record is the comma join of id, username, password, name and the question ids |
| Records.SplitQuizRecord | src/main/java/com/example/project/Quiz.java:313-324 | splitting a quiz record gives its header fields and the question ids |
| Records.ResolveOwnIds | src/main/java/com/example/project/Database.java:136-144 | the ids a quiz writes resolve back to its own questions when they are stored with unique ids |
| Records.QuizOfItsFields | src/main/java/com/example/project/Database.java:132-145 | the fields of a quiz describe the same quiz |
| Records.QuizRecordRoundTrip | src/main/java/com/example/project/Database.java:132-145 | the line `Quiz.toString` writes reads back as the same quiz |
| Records.SolutionRecordRoundTrip | src/main/java/com/example/project/Database.java:166-169 | the line "username,quizId,score" that `addSolution` writes parses back to the same three values |
| Commands.UserCheckValidity | src/main/java/com/example/project/Command.java:124-154 | 1 for the command alone; with one token, 2 for "-u", 1 for "-p", 0 otherwise; with two, 1 exactly when the first token is not "-u" followed by a space, else 2 exactly when the second is not "-p" followed by a space (an empty quote passes); 0 beyond |
| Commands.CorrectSum | src/main/java/com/example/project/Command.java:245 | the correct count is a 32-bit int |
| Commands.ReadAnswers | src/main/java/com/example/project/Command.java:229-246 | the loop stops incomplete exactly when the scan finds a malformed pair; when complete, the array holds the answer texts in order and the count is their correctness values summed in 32 bits |
| Commands.HasRepeat | src/main/java/com/example/project/Command.java:252-258 | the nested scan finds two equal texts among the first n exactly when they are not all distinct |
| Commands.AnswersValidity | src/main/java/com/example/project/Command.java:225-261 | the verdict is -1 for a malformed pair, 5 for a "single" question whose correctness values sum (with 32-bit wrap) to more than 1 (checked before duplicates), 6 for a repeated text, else 0 |
| Commands.ScanCharacterised | src/main/java/com/example/project/Command.java:231-246 | the scan completes exactly when the tokens after the type are a run of well-numbered text and flag pairs, and then reads exactly their texts and flags |
| Commands.QuestionCheckValidity | src/main/java/com/example/project/Command.java:198-218 | 1 exactly for 5 arguments, 2 exactly for 6 or 7, 3 exactly for more than 15, 4 exactly when otherwise argument 3 is not "-text" followed by a space; the answer check decides the rest |
| Commands.QuestionAccepted | src/main/java/com/example/project/Command.java:198-261 | the question check answers 0 exactly for a text, a type and 2 to 5 well-numbered answers whose correctness values are numbers summing (with 32-bit wrap) to at most 1 when the type is "single", with no repeated text |
| Commands.MarkedCorrectTwice | src/main/java/com/example/project/Question.java:110-113 | more than one correctness value is counted as marked exactly when two positions carry "1", the value `create` builds as a correct answer |
| Commands.QuestionAcceptedFixed | src/main/java/com/example/project/Command.java:221-250 | the corrected check answers 0 exactly for a well-numbered question with numeric values, no repeated text and, when "single", no two values "1"; it answers 5 exactly for a well-numbered "single" question with two values "1" |
| Commands.EmptyAnswerTextRefused | src/main/java/com/example/project/Command.java:232-235 | an answer text token without a quoted value (such as `-answer-1 ''`) is within the check's domain and answered with -1 |
| Commands.EmptyCorrectFlagRefused | src/main/java/com/example/project/Command.java:239-243 | a correctness token without a quoted value (such as `-answer-1-is-correct ''`) after a good text token is within the check's domain and answered with -1 |
| Commands.QuizCheckValidity | src/main/java/com/example/project/Command.java:287-294 | 0 exactly when at most ten question ids follow, else 1 |
| Store.User.constructor | src/main/java/com/example/project/User.java:29-31 | a new user has the given credentials and no solutions |
| Store.User.AppendSolution | src/main/java/com/example/project/Database.java:175-177 | the user's solutions grow by the one solution at the end, and the count keeps up with them |
| Store.User.AddSolution | src/main/java/com/example/project/User.java:264-284 | the user gains exactly one solution at the end, with the quiz's final score; the store logs "username,quizId,score"; the quiz id is then completed, and a quiz not submitted before reports that score |
| Store.UserAlreadyExists | src/main/java/com/example/project/User.java:92-99 | None exactly when no stored user has the username, whatever the password; otherwise the first that has it |
| Store.UserIsValid | src/main/java/com/example/project/User.java:124-132 | None exactly when no stored user matches both username and password (`equals`, lines 338-340); otherwise the first that does |
| Store.Login | src/main/java/com/example/project/User.java:141-156 | a user exactly when there are more than two arguments, the flags are "-u" and "-p", and a stored user has those credentials; that stored user |
| Store.CheckAttempt | src/main/java/com/example/project/User.java:214-233 | 1 exactly when there is no argument 3 or it has no space after its flag; otherwise 2 exactly for an unknown id, 3 exactly when the user already submitted that quiz, 4 exactly when it is their own quiz not yet submitted, else 0 |
| Store.Database.constructor | src/main/java/com/example/project/Database.java:21-28 | the store starts with no users, questions or quizzes, all counts 0 |
| Store.Database.AddUser | src/main/java/com/example/project/Database.java:204-209 | writes "username,password" to the users' file, appends the user at the end and bumps its count |
| Store.Database.AddQuestion | src/main/java/com/example/project/Database.java:215-220 | writes the question's record, appends it at the end and bumps its count |
| Store.Database.AddQuiz | src/main/java/com/example/project/Database.java:226-231 | writes the quiz's record, appends it at the end and bumps its count |
| Store.Database.AddSolution | src/main/java/com/example/project/Database.java:238-241 | writes "username,quizId,score" to the solutions' file and changes no list |
| Store.Database.ReadUsers | src/main/java/com/example/project/Database.java:68-85 | appends one user per line, in file order, with the line's credentials and no solutions; every count still matches its list |
| Store.Database.ReadQuestions | src/main/java/com/example/project/Database.java:91-119 | appends the questions the lines describe, in file order, with answer ids consecutive from 1 across the file |
| Store.Database.ReadQuizzes | src/main/java/com/example/project/Database.java:125-153 | appends the quizzes the lines describe, in file order, each question id resolved against the stored questions |
| Store.Database.ReadSolutions | src/main/java/com/example/project/Database.java:159-183 | every stored user gains, in file order, the solutions of the lines naming it (only the first user with that name gains them); the counts keep up |
| Store.AnswerIdsConsecutive | src/main/java/com/example/project/Database.java:97-110 | the answers of all questions read take consecutive ids from the first, across lines |
| Store.QuizzesReadAt | src/main/java/com/example/project/Database.java:131-147 | the i-th quiz read is the one the i-th line describes |
| Store.ReadStep | src/main/java/com/example/project/Database.java:166-177 | one line gives its solution to the user it names and nothing to any other |
| Store.DistributeReads | src/main/java/com/example/project/Database.java:165-178 | line by line, each user ends with what it had plus the solutions the file gives it |
| Store.SolutionsReadAppend | src/main/java/com/example/project/Database.java:165-178 | reading two runs of lines one after the other gives a user the concatenation of their solutions |
| Store.SolutionReadBack | src/main/java/com/example/project/Database.java:238-240 | the line `addSolution` writes reads back as the same solution, for its user and no other |
| Store.LoggedSolutionReadBack | src/main/java/com/example/project/Database.java:238-240 | a solutions file that gains that line reads back with the solution after the ones it had |
| Actions.CreateUser | src/main/java/com/example/project/User.java:107-117 | creates exactly when no stored user has the username: then appends a fresh user with the credentials and no solutions and logs it; otherwise changes nothing |
| Actions.CreateQuestion | src/main/java/com/example/project/Question.java:102-126 | builds (n-5)/2 answers in argument order, flagged correct exactly when the value is "1", with ids from the answer counter; stores the question exactly when `alreadyExists` is not positive, that is when no stored question has its text or the first that has it carries an id of 0 or less; otherwise gives the question id back and changes nothing else |
| Actions.SingleAcceptsTwoCorrect | src/main/java/com/example/project/Command.java:245-250 | as written: a "single" question with values "1", "1", "-1" passes the check (sum 1) and `create` builds two correct answers; the corrected check refuses it with 5 |
| Actions.SingleStoresOneCorrect | src/main/java/com/example/project/Question.java:110-113 | under the corrected check, a "single" question that is accepted is built with at most one correct answer |
| Actions.ResolvedInOrder | src/main/java/com/example/project/Quiz.java:114-124 | all question ids resolve exactly when each id names a stored question, and then the questions are those looked up, in argument order |
| Actions.StopsAtFirstUnknown | src/main/java/com/example/project/Quiz.java:116-122 | an unresolved id is reported by the position of the first id that names no stored question |
| Actions.QuizCreationOutcomes | src/main/java/com/example/project/Quiz.java:103-129 | a taken name is reported first, then the first unknown question id (by its position), and only otherwise is a quiz stored, with the owner, name, counter id and questions in argument order |
| Actions.QuizCounterLeaks | src/main/java/com/example/project/Quiz.java:114-122 | as written, an unknown first question id stores nothing yet moves the quiz counter from 1 to 2 |
| Actions.QuizCounterCountsStoredQuizzes | src/main/java/com/example/project/Quiz.java:107-122 | the corrected rule always moves the counter on exactly when a quiz is stored; the code as written keeps that rule exactly when no question id is unknown, and there it agrees with the corrected rule in full |
| Actions.CreateQuiz | src/main/java/com/example/project/Quiz.java:103-129 | the verdict, the quiz counter and the store are those of the corrected specification: nothing is stored or written unless the quiz is added, and then it is appended with its record; the questions are looked up one by one into an array |
| Actions.ScoreQuiz | src/main/java/com/example/project/User.java:241-254 | the answer ids are parsed in argument order; the user gains the quiz's solution with their score, the store logs it, no other user changes, and the quiz then counts as submitted |
| Actions.SubmitQuiz | src/main/java/com/example/project/User.java:182-207 | a failed login or a nonzero `checkAttempt` code changes nothing and is reported; otherwise the quiz is scored, the points reported are the stored score, and a repeat attempt is refused with 3 |
| Actions.DeleteQuizOutcomes | src/main/java/com/example/project/Quiz.java:257-275 | not authenticated first, then no id (three arguments), then an unknown id, then a quiz the user does not own; deletion exactly otherwise |
| Actions.DeletableIsNotSubmittable | src/main/java/com/example/project/Quiz.java:257-275 | a quiz its owner may delete (by an id token with a space after its flag) is one `checkAttempt` refuses them with 3 or 4 |

## Left out

- File I/O. The writes of `Database.write` are a log of (file, line) pairs. The `read*` methods take the file's lines as a sequence. The missing-file early return and the `IOException` message are not modelled.
- JSON output. The messages the commands print, and `find`, `findAll`, `getDetails` and `showSolutions`, are not modelled. The commands return the verdict they print instead.
- Dispatch. `Tema1.main`, `Command.interpreter` and the `*Action` wrappers only route commands.
- Deletion. `Quiz.delete`, `SolvedQuiz.remove`, every `clean()` and `Database.cleanup` rewrite the files in place. Only the verdict order of `deleteQuiz` is modelled.
- Floating point. Scores are exact `real` values: `100f / n` and the `double` sums carry no rounding error, and `Math.round` is floor(x + 1/2).
- Token parsing. An argument is abstracted as `Arg(flag, spaced, value)`, with one flag for both views. The model does not cover tokens where the two views disagree on the flag, such as a quote before the first space (`-u'x'`) or a flag that contains a space.
- Ids and counters. They are unbounded integers: the counters never wrap. Only the correct-answer sum of `answersValidity` is added with 32-bit wrap-around.
- Default constructors. The no-argument `Answer()` is the constant `Answers.Unknown`. `Question()`, `Quiz()`, `User()` and `SolvedQuiz()` are never used by the modelled code.
- Store.Database.ReadSolutions: requires every line to name a stored user and a stored quiz. Java throws on an unknown user, but for an unknown quiz id it stores a solution with a null quiz, which later scans would dereference.
- Store.Database.ReadQuizzes: a question id matching no stored question leaves an empty slot (`None`), as in the source. Scoring and writing a quiz require all its slots filled.
- Actions.ScoreQuiz: takes the user that `login` finds and the quiz that `isValidID` finds as parameters, instead of repeating the two lookups on the arguments.
- Actions.CreateQuiz: gives the quiz counter back when a question id is unknown, following the corrected rule rather than the code as written (see Findings).
- Actions.SubmitQuiz: the points are those of `getPoints` right after the solution is added. The printed JSON is not modelled.

## Findings

| source | as written | input that shows it | evidently intended | confidence | as-written member | corrected member |
|---|---|---|---|---|---|---|
| src/main/java/com/example/project/Quiz.java:115-121 | on an unknown question id, `count--` decrements the local loop index declared at line 115, not the static quiz counter, so the counter stays moved on although no quiz is stored | an empty store and the arguments `-u 'alice' -p 'pw' -name 'q' -question-1 '7'`: refused at position 1, counter goes from 1 to 2 | give the id back as the taken-name path does (line 110), so the counter moves on exactly when a quiz is stored | not executed | Actions.QuizCounterLeaks | Actions.QuizCounterCountsStoredQuizzes |
| src/main/java/com/example/project/Command.java:245-250 | the "single" check sums the parsed correctness values, while `Question.create` (Question.java:112) marks an answer correct only for the value "1" | `-type 'single'` with answers whose correctness values are `'1'`, `'1'`, `'-1'`: the sum is 1, the check answers 0, and two correct answers are built | refuse with 5 when more than one answer is marked correct, as the method's documentation at lines 221-222 says | not executed | Actions.SingleAcceptsTwoCorrect | Actions.SingleStoresOneCorrect |
