/**
 * Command.java: the argument checks of the create-user, create-question
 * and create-quiz commands. Each returns a verdict code; 0 means the
 * arguments are acceptable.
 */
module Commands {
  import opened Common
  import opened Text

  // ---- -create-user ----

  /**
   * `userCheckValidity`: 1 when the username is missing, 2 when the
   * password is missing, 0 otherwise.
   */
  function UserCheckValidity(args: seq<Arg>): (v: int)
    requires |args| >= 1
    ensures v == 0 || v == 1 || v == 2
    ensures |args| == 1 ==> v == 1
    ensures |args| == 2 ==>
      v == (if args[1].flag == "-u" then 2 else if args[1].flag == "-p" then 1 else 0)
    ensures |args| == 3 ==>
      (v == 1 <==> !SpacedFlag(args[1], "-u")) &&
      (v == 2 <==> SpacedFlag(args[1], "-u") && !SpacedFlag(args[2], "-p"))
    ensures |args| > 3 ==> v == 0
  {
    if |args| == 1 then 1
    else if |args| == 2 then
      if args[1].flag == "-u" then 2
      else if args[1].flag == "-p" then 1
      else 0
    else if |args| == 3 then
      if !SpacedFlag(args[1], "-u") then 1
      else if !SpacedFlag(args[2], "-p") then 2
      else 0
    else 0
  }

  // ---- -create-question ----

  /** The flag of the k-th answer's text (k from 1). */
  function AnswerFlag(k: int): string
  {
    "-answer-" + IntToString(k)
  }

  /** The flag of the k-th answer's correctness (k from 1). */
  function CorrectFlag(k: int): string
  {
    "-answer-" + IntToString(k) + "-is-correct"
  }

  /** Pair `k` is the text token and the correctness token of answer k + 1, each with a value. */
  predicate Flagged(args: seq<Arg>, k: nat)
    requires 5 + 2 * k < |args|
  {
    HasFlag(args[5 + 2 * k], AnswerFlag(k + 1)) &&
    6 + 2 * k < |args| && HasFlag(args[6 + 2 * k], CorrectFlag(k + 1))
  }

  /**
   * The answer loop of `answersValidity` runs from pair `k` (answer k + 1,
   * at argument 5 + 2k) to its end without running off the arguments or
   * the five-slot array: a correctness token follows every well-flagged
   * text token, and a sixth answer is never stored.
   */
  predicate ScanDefined(args: seq<Arg>, k: nat)
    decreases |args| - (5 + 2 * k)
  {
    5 + 2 * k >= |args| ||
    !HasFlag(args[5 + 2 * k], AnswerFlag(k + 1)) ||
    (k < 5 && 6 + 2 * k < |args| &&
     (!HasFlag(args[6 + 2 * k], CorrectFlag(k + 1)) || ScanDefined(args, k + 1)))
  }

  /**
   * How the answer loop ends: `complete` is false when it stopped at a
   * malformed pair (verdict -1); `texts` and `flags` are the values of the
   * answer tokens and of the correctness tokens it read, in order.
   */
  datatype Scan = Scan(complete: bool, texts: seq<string>, flags: seq<string>)

  /** The answer loop from the pair after the `texts` read so far. */
  function ScanAnswers(args: seq<Arg>, texts: seq<string>, flags: seq<string>): (r: Scan)
    requires ScanDefined(args, |texts|) && |flags| == |texts|
    decreases |args| - (5 + 2 * |texts|)
  {
    var k := |texts|;
    if 5 + 2 * k >= |args| then Scan(true, texts, flags)
    else if !Flagged(args, k) then Scan(false, texts, flags)
    else ScanAnswers(args, texts + [args[5 + 2 * k].value.value], flags + [args[6 + 2 * k].value.value])
  }

  /** Every correctness value is a number `Integer.parseInt` accepts. */
  predicate AllNumbers(flags: seq<string>)
  {
    forall i :: 0 <= i < |flags| ==> ParseInt(flags[i]).Some?
  }

  /** `correctCount`: the correctness values summed with Java's 32-bit `int` addition. */
  function CorrectSum(flags: seq<string>): (sum: int)
    requires AllNumbers(flags)
    ensures MinInt <= sum <= MaxInt
  {
    if flags == [] then 0
    else
      assert AllNumbers(flags[..|flags| - 1]);
      Add32(CorrectSum(flags[..|flags| - 1]), ParseInt(flags[|flags| - 1]).value)
  }

  /**
   * `answersValidity` runs without an exception: argument 4 holds the
   * type, the loop stays within the arguments and the array, and every
   * correctness value it reads is a number.
   */
  predicate AnswersDefined(args: seq<Arg>)
  {
    |args| >= 5 && args[4].value.Some? && ScanDefined(args, 0) &&
    AllNumbers(ScanAnswers(args, [], []).flags)
  }

  /** No text occurs twice. */
  predicate Distinct(texts: seq<string>)
  {
    forall p, q :: 0 <= p < q < |texts| ==> texts[p] != texts[q]
  }

  /**
   * The verdict of `answersValidity`: -1 for a malformed answer pair, 5
   * for a "single" question whose correctness values sum to more than 1,
   * then 6 for a repeated answer text, else 0.
   */
  function AnswersVerdict(args: seq<Arg>): int
    requires AnswersDefined(args)
  {
    var scan := ScanAnswers(args, [], []);
    if !scan.complete then -1
    else if args[4].value.value == "single" && CorrectSum(scan.flags) > 1 then 5
    else if !Distinct(scan.texts) then 6
    else 0
  }

  /**
   * One more correctness value that the loop reads is a number, and the
   * running count moves on by it with 32-bit addition.
   */
  lemma SumStep(flags: seq<string>, flag: string, all: seq<string>)
    requires flags + [flag] <= all && AllNumbers(all)
    ensures AllNumbers(flags) && AllNumbers(flags + [flag]) && ParseInt(flag).Some?
    ensures CorrectSum(flags + [flag]) == Add32(CorrectSum(flags), ParseInt(flag).value)
  {
    var f := flags + [flag];
    forall j | 0 <= j < |f| ensures ParseInt(f[j]).Some? {
      assert f[j] == all[j];
    }
    forall j | 0 <= j < |flags| ensures ParseInt(flags[j]).Some? {
      assert flags[j] == f[j];
    }
    assert f[|f| - 1] == flag;
    assert f[..|f| - 1] == flags;
  }

  /** The loop only ever adds to the values it has read. */
  lemma {:induction false} ScanExtends(args: seq<Arg>, texts: seq<string>, flags: seq<string>)
    requires ScanDefined(args, |texts|) && |flags| == |texts|
    ensures flags <= ScanAnswers(args, texts, flags).flags
    decreases |args| - (5 + 2 * |texts|)
  {
    var k := |texts|;
    if 5 + 2 * k < |args| && Flagged(args, k) {
      ScanExtends(args, texts + [args[5 + 2 * k].value.value], flags + [args[6 + 2 * k].value.value]);
    }
  }

  /**
   * The state of the answer loop after it has read the pairs giving
   * `texts` and `flags`: from there it reads what it reads from the start.
   */
  ghost predicate Reading(args: seq<Arg>, texts: seq<string>, flags: seq<string>)
  {
    AnswersDefined(args) && |flags| == |texts| <= 5 && ScanDefined(args, |texts|) &&
    ScanAnswers(args, [], []) == ScanAnswers(args, texts, flags)
  }

  /**
   * The pair at argument `i`: without its answer token or its correctness
   * token the loop is malformed; with both, the pair is read and its value
   * counted.
   */
  lemma ReadPair(args: seq<Arg>, texts: seq<string>, flags: seq<string>, i: nat)
    requires Reading(args, texts, flags) && i == 5 + 2 * |texts| && i < |args| && AllNumbers(flags)
    ensures !HasFlag(args[i], AnswerFlag(|texts| + 1)) ==> !ScanAnswers(args, [], []).complete
    ensures HasFlag(args[i], AnswerFlag(|texts| + 1)) ==> i + 1 < |args| && |texts| < 5
    ensures HasFlag(args[i], AnswerFlag(|texts| + 1)) && i + 1 < |args| ==>
      if HasFlag(args[i + 1], CorrectFlag(|texts| + 1)) then
        ParseInt(args[i + 1].value.value).Some? &&
        Reading(args, texts + [args[i].value.value], flags + [args[i + 1].value.value]) &&
        AllNumbers(flags + [args[i + 1].value.value]) &&
        CorrectSum(flags + [args[i + 1].value.value]) ==
          Add32(CorrectSum(flags), ParseInt(args[i + 1].value.value).value)
      else
        !ScanAnswers(args, [], []).complete
  {
    if HasFlag(args[i], AnswerFlag(|texts| + 1)) && HasFlag(args[i + 1], CorrectFlag(|texts| + 1)) {
      var texts', flags' := texts + [args[i].value.value], flags + [args[i + 1].value.value];
      assert ScanAnswers(args, texts, flags) == ScanAnswers(args, texts', flags');
      ScanExtends(args, texts', flags');
      SumStep(flags, args[i + 1].value.value, ScanAnswers(args, [], []).flags);
    }
  }

  /**
   * An answer text token without a quoted value, such as `-answer-1 ''`
   * (Java's `split("'")` keeps one piece), is a malformed pair: the check
   * is defined and answers -1.
   */
  lemma EmptyAnswerTextRefused(args: seq<Arg>)
    requires |args| >= 6 && args[4].value.Some? && args[5].value.None?
    ensures AnswersDefined(args) && AnswersVerdict(args) == -1
  {
    assert !Flagged(args, 0);
  }

  /**
   * A correctness token without a quoted value, such as
   * `-answer-1-is-correct ''`, after a well-flagged text token, is a
   * malformed pair as well: the check is defined and answers -1.
   */
  lemma EmptyCorrectFlagRefused(args: seq<Arg>)
    requires |args| >= 7 && args[4].value.Some? && HasFlag(args[5], AnswerFlag(1)) && args[6].value.None?
    ensures AnswersDefined(args) && AnswersVerdict(args) == -1
  {
    assert !Flagged(args, 0);
  }

  /**
   * `answersValidity`: the answer pairs are read into a five-slot array,
   * then the "single" check and the duplicate scan decide the verdict.
   */
  method AnswersValidity(args: seq<Arg>) returns (v: int)
    requires AnswersDefined(args)
    ensures v == AnswersVerdict(args)
  {
    var qtype := args[4].value.value;
    var answers := new string[5];
    var complete, ansCount, correctCount := ReadAnswers(args, answers);
    if !complete {
      return -1;
    }
    if qtype == "single" && correctCount > 1 {
      return 5;
    }
    var repeated := HasRepeat(answers, ansCount);
    if repeated {
      return 6;
    }
    return 0;
  }

  /**
   * The answer loop of `answersValidity`: it stores the text of each
   * well-flagged pair and adds up the correctness values, and stops at
   * the first malformed pair, where the source answers -1.
   */
  method ReadAnswers(args: seq<Arg>, answers: array<string>) returns (complete: bool, ansCount: int, correctCount: int)
    requires AnswersDefined(args) && answers.Length == 5
    modifies answers
    ensures complete == ScanAnswers(args, [], []).complete
    ensures complete ==> 0 <= ansCount <= 5 && answers[..ansCount] == ScanAnswers(args, [], []).texts
    ensures complete ==> correctCount == CorrectSum(ScanAnswers(args, [], []).flags)
  {
    ansCount := 0;
    correctCount := 0;
    ghost var texts: seq<string> := [];
    ghost var flags: seq<string> := [];
    var i := 5;
    while i < |args|
      invariant Reading(args, texts, flags) && AllNumbers(flags) && correctCount == CorrectSum(flags)
      invariant i == 5 + 2 * ansCount && 0 <= ansCount == |texts| <= 5 && answers[..ansCount] == texts
      decreases |args| - i
    {
      ReadPair(args, texts, flags, i);
      if !HasFlag(args[i], AnswerFlag(ansCount + 1)) {
        return false, ansCount, correctCount;
      }
      var text := args[i].value.value;
      answers[ansCount] := text;
      if !HasFlag(args[i + 1], CorrectFlag(ansCount + 1)) {
        return false, ansCount + 1, correctCount;
      }
      var flag := args[i + 1].value.value;
      correctCount := Add32(correctCount, ParseInt(flag).value);
      assert answers[..ansCount + 1] == texts + [text];
      texts, flags := texts + [text], flags + [flag];
      ansCount := ansCount + 1;
      i := i + 2;
    }
    return true, ansCount, correctCount;
  }

  /** The nested scan of `answersValidity` for two equal texts among the first `n`. */
  method HasRepeat(answers: array<string>, n: int) returns (found: bool)
    requires 0 <= n <= answers.Length
    ensures found <==> !Distinct(answers[..n])
  {
    var p := 0;
    while p < n - 1
      invariant 0 <= p && (n > 0 ==> p <= n - 1)
      invariant forall a, b :: 0 <= a < p && a < b < n ==> answers[a] != answers[b]
    {
      var q := p + 1;
      while q < n
        invariant p + 1 <= q <= n
        invariant forall b :: p < b < q ==> answers[p] != answers[b]
      {
        if answers[p] == answers[q] {
          assert answers[..n][p] == answers[..n][q];
          return true;
        }
        q := q + 1;
      }
      p := p + 1;
    }
    return false;
  }

  // An independent account of a well-formed answer list, pair by pair.

  /** The first `n` pairs are well flagged. */
  predicate PairsFlagged(args: seq<Arg>, n: nat)
  {
    5 + 2 * n <= |args| &&
    forall k :: 0 <= k < n ==> Flagged(args, k)
  }

  /** The texts of the first `n` answers. */
  function AnswerTexts(args: seq<Arg>, n: nat): (texts: seq<string>)
    requires PairsFlagged(args, n)
    ensures |texts| == n
  {
    seq(n, k requires 0 <= k < n => assert Flagged(args, k); args[5 + 2 * k].value.value)
  }

  /** The correctness values of the first `n` answers. */
  function FlagTexts(args: seq<Arg>, n: nat): (flags: seq<string>)
    requires PairsFlagged(args, n)
    ensures |flags| == n
  {
    seq(n, k requires 0 <= k < n => assert Flagged(args, k); args[6 + 2 * k].value.value)
  }

  /** The number of whole answer pairs the arguments hold. */
  function PairCount(args: seq<Arg>): nat
  {
    if |args| <= 5 then 0 else (|args| - 5) / 2
  }

  /** One more well-flagged pair extends a well-flagged prefix, its texts and its values. */
  lemma ExtendPairs(args: seq<Arg>, k: nat)
    requires PairsFlagged(args, k) && 5 + 2 * k < |args| && Flagged(args, k)
    ensures PairsFlagged(args, k + 1)
    ensures AnswerTexts(args, k + 1) == AnswerTexts(args, k) + [args[5 + 2 * k].value.value]
    ensures FlagTexts(args, k + 1) == FlagTexts(args, k) + [args[6 + 2 * k].value.value]
  {
    assert PairsFlagged(args, k + 1);
  }

  /** A pair that is not well flagged rules out every longer well-flagged prefix. */
  lemma NotFlaggedBeyond(args: seq<Arg>, k: nat)
    requires 5 + 2 * k < |args| && !Flagged(args, k)
    ensures forall n :: k < n ==> !PairsFlagged(args, n)
  {
    forall n | k < n ensures !PairsFlagged(args, n) {
      if 5 + 2 * n <= |args| {
        assert !Flagged(args, k);
      }
    }
  }

  /**
   * From a point where the answers so far are well flagged, the loop gets
   * through to the end exactly when the arguments are an exact run of
   * well-flagged pairs, and then it has read every text and every
   * correctness value.
   */
  lemma {:induction false} ScanCharacterised(args: seq<Arg>, texts: seq<string>, flags: seq<string>)
    requires ScanDefined(args, |texts|) && |flags| == |texts|
    requires PairsFlagged(args, |texts|)
    requires texts == AnswerTexts(args, |texts|) && flags == FlagTexts(args, |texts|)
    ensures ScanAnswers(args, texts, flags).complete <==>
      |args| == 5 + 2 * PairCount(args) && PairsFlagged(args, PairCount(args))
    ensures ScanAnswers(args, texts, flags).complete ==>
      ScanAnswers(args, texts, flags) ==
        Scan(true, AnswerTexts(args, PairCount(args)), FlagTexts(args, PairCount(args)))
    decreases |args| - (5 + 2 * |texts|)
  {
    var k := |texts|;
    if 5 + 2 * k >= |args| {
      assert k == PairCount(args);
    } else if !Flagged(args, k) {
      NotFlaggedBeyond(args, k);
      if |args| == 5 + 2 * PairCount(args) {
        assert PairCount(args) > k;
      }
    } else {
      ExtendPairs(args, k);
      ScanCharacterised(args, texts + [args[5 + 2 * k].value.value], flags + [args[6 + 2 * k].value.value]);
    }
  }

  /**
   * `questionCheckValidity` returns without an exception: at least three
   * arguments, and the answer check runs without one whenever it is
   * reached.
   */
  predicate QuestionCheckDefined(args: seq<Arg>)
  {
    |args| >= 3 &&
    (|args| == 5 || |args| == 6 || |args| == 7 || |args| > 15 || |args| == 3 ||
     !SpacedFlag(args[3], "-text") || AnswersDefined(args))
  }

  /**
   * `questionCheckValidity`: 1 with no answer, 2 with one answer, 3 with
   * more than five, 4 without a question text, then the answer check.
   */
  function QuestionCheckValidity(args: seq<Arg>): (v: int)
    requires QuestionCheckDefined(args)
    ensures v == 1 <==> |args| == 5
    ensures v == 2 <==> |args| == 6 || |args| == 7
    ensures v == 3 <==> |args| > 15
    ensures v == 4 <==> (|args| == 3 || |args| == 4 || 8 <= |args| <= 15) && (|args| == 3 || !SpacedFlag(args[3], "-text"))
    ensures 8 <= |args| <= 15 && SpacedFlag(args[3], "-text") ==> v == AnswersVerdict(args)
    ensures v == -1 || 0 <= v <= 6
  {
    if |args| == 5 then 1
    else if |args| == 6 || |args| == 7 then 2
    else if |args| > 15 then 3
    else if |args| == 3 || !SpacedFlag(args[3], "-text") then 4
    else AnswersVerdict(args)
  }

  /**
   * A text, a type, and two to five answers, each given as its text token
   * and its correctness token, numbered in order.
   */
  predicate FlaggedQuestion(args: seq<Arg>)
  {
    9 <= |args| <= 15 && |args| == 5 + 2 * PairCount(args) &&
    SpacedFlag(args[3], "-text") && args[4].value.Some? &&
    PairsFlagged(args, PairCount(args))
  }

  /**
   * A question the create-question check accepts: a flagged question whose
   * correctness values are numbers, whose values sum (with 32-bit wrap) to
   * at most 1 when the type is "single", and with no answer text twice.
   * The sum is not the number of correct answers: `Question.create` marks
   * an answer correct only for the value "1" (see `SingleAcceptsTwoCorrect`).
   */
  predicate WellFormedQuestion(args: seq<Arg>)
  {
    FlaggedQuestion(args) &&
    AllNumbers(FlagTexts(args, PairCount(args))) &&
    !(args[4].value.value == "single" && CorrectSum(FlagTexts(args, PairCount(args))) > 1) &&
    Distinct(AnswerTexts(args, PairCount(args)))
  }

  /** The create-question check accepts exactly the well-formed questions. */
  lemma QuestionAccepted(args: seq<Arg>)
    requires QuestionCheckDefined(args)
    ensures QuestionCheckValidity(args) == 0 <==> WellFormedQuestion(args)
  {
    if 8 <= |args| <= 15 && SpacedFlag(args[3], "-text") {
      ScanCharacterised(args, [], []);
    }
  }

  // The "single" check as evidently intended: `Question.create` marks an
  // answer correct exactly when its correctness value is "1", so the check
  // counts those values instead of summing them.

  /** The number of correctness values `Question.create` marks correct. */
  function MarkedCorrect(flags: seq<string>): (n: nat)
    ensures n <= |flags|
  {
    if flags == [] then 0
    else MarkedCorrect(flags[..|flags| - 1]) + (if flags[|flags| - 1] == "1" then 1 else 0)
  }

  /** Two positions carry the value "1". */
  predicate TwoMarked(flags: seq<string>)
  {
    exists p, q :: 0 <= p < q < |flags| && flags[p] == "1" && flags[q] == "1"
  }

  /** Some value is marked correct exactly when some position carries "1". */
  lemma {:induction false} MarkedCorrectSome(flags: seq<string>)
    ensures MarkedCorrect(flags) > 0 <==> exists p :: 0 <= p < |flags| && flags[p] == "1"
    decreases |flags|
  {
    if flags != [] {
      var n := |flags| - 1;
      var init := flags[..n];
      MarkedCorrectSome(init);
      if MarkedCorrect(init) > 0 {
        var p :| 0 <= p < |init| && init[p] == "1";
        assert flags[p] == "1";
      }
      if exists p :: 0 <= p < |flags| && flags[p] == "1" {
        var p :| 0 <= p < |flags| && flags[p] == "1";
        if p < n {
          assert init[p] == "1";
        }
      }
    }
  }

  /** More than one value is marked correct exactly when two positions carry "1". */
  lemma {:induction false} MarkedCorrectTwice(flags: seq<string>)
    ensures MarkedCorrect(flags) > 1 <==> TwoMarked(flags)
    decreases |flags|
  {
    if flags != [] {
      var n := |flags| - 1;
      var init := flags[..n];
      MarkedCorrectTwice(init);
      MarkedCorrectSome(init);
      if MarkedCorrect(flags) > 1 {
        if flags[n] == "1" {
          var p :| 0 <= p < |init| && init[p] == "1";
          assert flags[p] == "1" && flags[n] == "1";
        } else {
          var p, q :| 0 <= p < q < |init| && init[p] == "1" && init[q] == "1";
          assert flags[p] == "1" && flags[q] == "1";
        }
      }
      if TwoMarked(flags) {
        var p, q :| 0 <= p < q < |flags| && flags[p] == "1" && flags[q] == "1";
        assert init[p] == "1";
        if q < n {
          assert init[q] == "1";
        }
      }
    }
  }

  /**
   * The answer check as evidently intended: 5 for a "single" question with
   * more than one answer marked correct, otherwise as `AnswersVerdict`.
   */
  function AnswersVerdictFixed(args: seq<Arg>): int
    requires AnswersDefined(args)
  {
    var scan := ScanAnswers(args, [], []);
    if !scan.complete then -1
    else if args[4].value.value == "single" && MarkedCorrect(scan.flags) > 1 then 5
    else if !Distinct(scan.texts) then 6
    else 0
  }

  /** `questionCheckValidity` with the corrected answer check. */
  function QuestionCheckFixed(args: seq<Arg>): (v: int)
    requires QuestionCheckDefined(args)
    ensures !(8 <= |args| <= 15 && SpacedFlag(args[3], "-text")) ==> v == QuestionCheckValidity(args)
  {
    if 8 <= |args| <= 15 && SpacedFlag(args[3], "-text") then AnswersVerdictFixed(args)
    else QuestionCheckValidity(args)
  }

  /** A question the corrected check accepts: at most one answer marked correct when "single". */
  predicate WellFormedQuestionFixed(args: seq<Arg>)
  {
    FlaggedQuestion(args) &&
    AllNumbers(FlagTexts(args, PairCount(args))) &&
    !(args[4].value.value == "single" && TwoMarked(FlagTexts(args, PairCount(args)))) &&
    Distinct(AnswerTexts(args, PairCount(args)))
  }

  /**
   * The corrected check accepts exactly the questions that mark at most one
   * answer correct when "single", and refuses with 5 exactly the flagged
   * "single" questions with two answers marked correct.
   */
  lemma QuestionAcceptedFixed(args: seq<Arg>)
    requires QuestionCheckDefined(args)
    ensures QuestionCheckFixed(args) == 0 <==> WellFormedQuestionFixed(args)
    ensures QuestionCheckFixed(args) == 5 <==>
      FlaggedQuestion(args) && args[4].value.value == "single" && TwoMarked(FlagTexts(args, PairCount(args)))
  {
    if 8 <= |args| <= 15 && SpacedFlag(args[3], "-text") {
      ScanCharacterised(args, [], []);
      MarkedCorrectTwice(ScanAnswers(args, [], []).flags);
    }
  }

  // ---- -create-quiz ----

  /** `quizCheckValidity`: 1 when more than ten question ids follow the credentials and the name. */
  function QuizCheckValidity(args: seq<Arg>): (v: int)
    ensures v == 0 <==> |args| - 4 <= 10
    ensures v == 0 || v == 1
  {
    if |args| > 14 then 1 else 0
  }
}
