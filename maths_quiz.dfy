/** The maths quiz: ten addition or subtraction questions at one of three
    difficulty levels, ten points for a first-try answer and five for a
    second-try one, and a letter rank for the final percentage. */
module MathsQuiz {
  import opened Options
  import opened Text

  const TotalQuestions := 10
  const PtsFirst := 10
  const PtsSecond := 5

  /** The best possible score: every question right at the first try. */
  const TotalPossible := TotalQuestions * PtsFirst

  /** `DIFFICULTY_BOUNDS`: the range both operands are drawn from. */
  function LevelBounds(level: int): (bounds: (int, int))
    requires 1 <= level <= 3
    ensures 1 <= bounds.0 <= bounds.1
  {
    if level == 1 then (1, 9) else if level == 2 then (10, 99) else (1000, 9999)
  }

  datatype Rank = APlus | A | B | C | D | F

  /** Position of a rank from worst (F) to best (A+). */
  function RankOrder(r: Rank): nat {
    match r
    case F => 0
    case D => 1
    case C => 2
    case B => 3
    case A => 4
    case APlus => 5
  }

  /** `rank_from_percentage`: the band of ten points the percentage falls in. */
  function RankFromPercentage(pct: int): (r: Rank)
    ensures r == APlus <==> pct >= 90
    ensures r == A <==> 80 <= pct < 90
    ensures r == B <==> 70 <= pct < 80
    ensures r == C <==> 60 <= pct < 70
    ensures r == D <==> 50 <= pct < 60
    ensures r == F <==> pct < 50
  {
    if pct >= 90 then APlus
    else if pct >= 80 then A
    else if pct >= 70 then B
    else if pct >= 60 then C
    else if pct >= 50 then D
    else F
  }

  /** A higher percentage never earns a lower rank. */
  lemma RankMonotone(p: int, q: int)
    requires p <= q
    ensures RankOrder(RankFromPercentage(p)) <= RankOrder(RankFromPercentage(q))
  {
  }

  /** The percentage of the results report, `round(score / 100 * 100)`, in
      exact arithmetic: the score is already out of 100. */
  function ResultPercent(score: int): (pct: int)
    ensures pct * TotalPossible == score * 100
  {
    score * 100 / TotalPossible
  }

  /** The results of a run with at most ten questions scored, ten points
      per first-try answer and five per second-try answer: the percentage
      lies in [0, 100], it is 100 exactly when every question was right at
      the first try, and the rank is A+ exactly when twice the first-try
      answers plus the second-try answers reach 18. */
  lemma ResultsOfRun(first: int, second: int)
    requires 0 <= first && 0 <= second && first + second <= TotalQuestions
    ensures var pct := ResultPercent(PtsFirst * first + PtsSecond * second);
      && 0 <= pct <= 100
      && (pct == 100 <==> first == TotalQuestions)
      && (RankFromPercentage(pct) == APlus <==> 2 * first + second >= 18)
  {
  }

  /** `compute`: the sum for "+", the difference for any other operator. */
  function Compute(a: int, op: string, b: int): (r: int)
    ensures op == "+" ==> r == a + b
    ensures op != "+" ==> r == a - b
  {
    if op == "+" then a + b else a - b
  }

  /** The swap in `next_question`: on the easy and moderate levels a
      subtraction puts the larger operand first. */
  function OrderOperands(level: int, op: string, a: int, b: int): (pair: (int, int))
    ensures pair == (a, b) || pair == (b, a)
    ensures op == "-" && level != 3 ==> pair.0 >= pair.1
    ensures op != "-" || level == 3 ==> pair == (a, b)
  {
    if op == "-" && level != 3 && a < b then (b, a) else (a, b)
  }

  /** What `randomInt` and `decideOperation` can hand to a question. */
  predicate Drawn(level: int, a: int, b: int, op: string)
    requires 1 <= level <= 3
  {
    var (lo, hi) := LevelBounds(level);
    lo <= a <= hi && lo <= b <= hi && (op == "+" || op == "-")
  }

  /** On the easy and moderate levels every question posed has an answer
      that is not negative. */
  lemma EasyAnswersNonNegative(level: int, a: int, b: int, op: string)
    requires level == 1 || level == 2
    requires Drawn(level, a, b, op)
    ensures var (x, y) := OrderOperands(level, op, a, b); Compute(x, op, y) >= 0
  {
  }

  /** How `submit_answer` answers the player. */
  datatype Feedback =
    | EmptyAnswer
    | NotAWholeNumber
    | Correct
    | TryAgain
    | AnswerWas(answer: int)

  /** The quiz controller's assessment state. */
  class QuizApp {
    var level: int
    var qIndex: int
    var score: int
    var attempt: int
    var firstTryCorrect: int
    var secondTryCorrect: int
    var a: int
    var b: int
    var op: string

    /** The score is what the two counters earned and the attempt is the
        first or the second. */
    ghost predicate Scoring()
      reads this
    {
      && 1 <= level <= 3
      && score == PtsFirst * firstTryCorrect + PtsSecond * secondTryCorrect
      && (attempt == 1 || attempt == 2)
      && 0 <= firstTryCorrect && 0 <= secondTryCorrect
    }

    /** ... and no more questions were scored than were posed. */
    ghost predicate Valid()
      reads this
    {
      Scoring() && firstTryCorrect + secondTryCorrect <= qIndex
    }

    constructor ()
      ensures Valid()
      ensures level == 1 && qIndex == 0 && score == 0 && attempt == 1
      ensures firstTryCorrect == 0 && secondTryCorrect == 0
      ensures a == 0 && b == 0 && op == "+"
    {
      level, qIndex, score, attempt := 1, 0, 0, 1;
      firstTryCorrect, secondTryCorrect := 0, 0;
      a, b, op := 0, 0, "+";
    }

    /** `reset_for_new_play`: a fresh run with nothing scored; the level and
        the last question are kept. */
    method ResetForNewPlay()
      modifies this
      requires Valid()
      ensures Valid()
      ensures qIndex == 0 && score == 0 && attempt == 1
      ensures firstTryCorrect == 0 && secondTryCorrect == 0
      ensures level == old(level) && a == old(a) && b == old(b) && op == old(op)
    {
      qIndex, score, attempt := 0, 0, 1;
      firstTryCorrect, secondTryCorrect := 0, 0;
    }

    /** `next_question`: the question counter advances; past the tenth
        question the quiz is over and nothing else changes, otherwise the
        drawn question (larger operand first for an easy subtraction) is
        posed at its first attempt. */
    method NextQuestion(drawnA: int, drawnB: int, drawnOp: string) returns (posed: bool)
      modifies this
      requires Scoring() && Drawn(level, drawnA, drawnB, drawnOp)
      requires firstTryCorrect + secondTryCorrect <= qIndex + 1
      ensures Valid()
      ensures qIndex == old(qIndex) + 1
      ensures posed <==> qIndex <= TotalQuestions
      ensures score == old(score) && level == old(level)
      ensures firstTryCorrect == old(firstTryCorrect) && secondTryCorrect == old(secondTryCorrect)
      ensures posed ==> (a, b) == OrderOperands(level, drawnOp, drawnA, drawnB) && op == drawnOp && attempt == 1
      ensures posed && level != 3 ==> Compute(a, op, b) >= 0
      ensures !posed ==> a == old(a) && b == old(b) && op == old(op) && attempt == old(attempt)
    {
      qIndex := qIndex + 1;
      if qIndex > TotalQuestions {
        return false;
      }
      var pair := OrderOperands(level, drawnOp, drawnA, drawnB);
      if level != 3 {
        EasyAnswersNonNegative(level, drawnA, drawnB, drawnOp);
      }
      a, b, op := pair.0, pair.1, drawnOp;
      attempt := 1;
      posed := true;
    }

    /** `start_quiz`: a fresh run at the chosen level, with its first
        question posed. */
    method StartQuiz(newLevel: int, drawnA: int, drawnB: int, drawnOp: string) returns (posed: bool)
      modifies this
      requires Valid() && 1 <= newLevel <= 3 && Drawn(newLevel, drawnA, drawnB, drawnOp)
      ensures Valid() && posed
      ensures level == newLevel && qIndex == 1 && score == 0 && attempt == 1
      ensures firstTryCorrect == 0 && secondTryCorrect == 0
      ensures (a, b) == OrderOperands(newLevel, drawnOp, drawnA, drawnB) && op == drawnOp
    {
      level := newLevel;
      ResetForNewPlay();
      posed := NextQuestion(drawnA, drawnB, drawnOp);
    }

    /** `submit_answer`, with the question that follows drawn in advance.
        Text that is not a whole number changes nothing. A right answer
        scores ten points at the first attempt and five at the second, then
        moves on; a wrong first answer allows a second attempt at the same
        question; a wrong second answer moves on. `over` tells that moving on
        found the quiz finished. */
    method SubmitAnswer(text: string, drawnA: int, drawnB: int, drawnOp: string) returns (feedback: Feedback, over: bool)
      modifies this
      requires Valid() && Drawn(level, drawnA, drawnB, drawnOp)
      ensures Valid()
      ensures level == old(level)
      ensures ParseInt(Strip(text)).None? ==>
        && feedback == (if Strip(text) == [] then EmptyAnswer else NotAWholeNumber) && !over
        && qIndex == old(qIndex) && score == old(score) && attempt == old(attempt)
        && firstTryCorrect == old(firstTryCorrect) && secondTryCorrect == old(secondTryCorrect)
        && a == old(a) && b == old(b) && op == old(op)
      ensures ParseInt(Strip(text)).Some? ==>
        var right := ParseInt(Strip(text)).value == Compute(old(a), old(op), old(b));
        && (right ==> feedback == Correct)
        && (right && old(attempt) == 1 ==>
              score == old(score) + PtsFirst && firstTryCorrect == old(firstTryCorrect) + 1
              && secondTryCorrect == old(secondTryCorrect))
        && (right && old(attempt) == 2 ==>
              score == old(score) + PtsSecond && secondTryCorrect == old(secondTryCorrect) + 1
              && firstTryCorrect == old(firstTryCorrect))
        && (!right ==>
              score == old(score) && firstTryCorrect == old(firstTryCorrect)
              && secondTryCorrect == old(secondTryCorrect))
        && (!right && old(attempt) == 1 ==>
              feedback == TryAgain && !over && attempt == 2 && qIndex == old(qIndex)
              && a == old(a) && b == old(b) && op == old(op))
        && (!right && old(attempt) == 2 ==> feedback == AnswerWas(Compute(old(a), old(op), old(b))))
        && (right || old(attempt) == 2 ==>
              && qIndex == old(qIndex) + 1 && (over <==> qIndex > TotalQuestions)
              && (!over ==> attempt == 1 && (a, b) == OrderOperands(level, drawnOp, drawnA, drawnB) && op == drawnOp)
              && (over ==> attempt == old(attempt) && a == old(a) && b == old(b) && op == old(op)))
    {
      var txt := Strip(text);
      var parsed := ParseInt(txt);
      if parsed.None? {
        feedback := if txt == [] then EmptyAnswer else NotAWholeNumber;
        return feedback, false;
      }
      var correct := Compute(a, op, b);
      if parsed.value == correct {
        if attempt == 1 {
          score := score + PtsFirst;
          firstTryCorrect := firstTryCorrect + 1;
        } else {
          score := score + PtsSecond;
          secondTryCorrect := secondTryCorrect + 1;
        }
        var posed := NextQuestion(drawnA, drawnB, drawnOp);
        return Correct, !posed;
      }
      if attempt == 1 {
        attempt := 2;
        return TryAgain, false;
      }
      var posed := NextQuestion(drawnA, drawnB, drawnOp);
      return AnswerWas(correct), !posed;
    }
  }
}
