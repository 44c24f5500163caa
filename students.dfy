/** One student's marks: three coursework components out of 20 and an exam
    out of 100, giving a total out of 160, a percentage and a letter grade. */
module Students {
  import opened Options
  import opened Text

  datatype LetterGrade = A | B | C | D | F

  datatype Student = Student(code: int, name: string, cw1: int, cw2: int, cw3: int, exam: int)
  {
    /** Coursework total, out of 60 for a record within the ranges. */
    function CwTotal(): (t: int)
      ensures InRange() ==> 0 <= t <= 60
    {
      cw1 + cw2 + cw3
    }

    /** Overall total, out of 160 for a record within the ranges. */
    function Total(): (t: int)
      ensures InRange() ==> 0 <= t <= 160
    {
      CwTotal() + exam
    }

    /** The total as a percentage of 160, in exact arithmetic: five
        eighths of the total, and within [0, 100] for a record within the
        ranges. */
    function Percent(): (p: real)
      ensures p * 8.0 == (Total() * 5) as real
      ensures InRange() ==> 0.0 <= p <= 100.0
    {
      (Total() as real / 160.0) * 100.0
    }

    /** The letter grade is a step function of the total out of 160. */
    function Grade(): (g: LetterGrade)
      ensures g == A <==> Total() >= 112
      ensures g == B <==> 96 <= Total() < 112
      ensures g == C <==> 80 <= Total() < 96
      ensures g == D <==> 64 <= Total() < 80
      ensures g == F <==> Total() < 64
    {
      var p := Percent();
      if p >= 70.0 then A
      else if p >= 60.0 then B
      else if p >= 50.0 then C
      else if p >= 40.0 then D
      else F
    }

    /** The ranges the edit dialog enforces on a record it produces. */
    predicate InRange() {
      && 0 <= cw1 <= 20 && 0 <= cw2 <= 20 && 0 <= cw3 <= 20
      && 0 <= exam <= 100
    }
  }

  /** The percentage is strictly increasing in the total, so ordering or
      comparing records by percentage is the same as doing so by total. */
  lemma PercentOrder(s: Student, t: Student)
    ensures s.Percent() < t.Percent() <==> s.Total() < t.Total()
    ensures s.Percent() == t.Percent() <==> s.Total() == t.Total()
  {
  }

  /** The sum of the percentages of a list of records. */
  function SumPercent(students: seq<Student>): real
  {
    if |students| == 0 then 0.0
    else SumPercent(students[..|students| - 1]) + students[|students| - 1].Percent()
  }

  /** The class average of the percentages; 0 for an empty list. */
  function AveragePercent(students: seq<Student>): (avg: real)
    ensures |students| == 0 ==> avg == 0.0
    ensures |students| > 0 ==> avg * (|students| as real) == SumPercent(students)
  {
    if |students| > 0 then SumPercent(students) / (|students| as real) else 0.0
  }

  lemma {:induction false} SumPercentBounds(students: seq<Student>, lo: real, hi: real)
    requires forall i :: 0 <= i < |students| ==> lo <= students[i].Percent() <= hi
    ensures (|students| as real) * lo <= SumPercent(students) <= (|students| as real) * hi
  {
    if |students| > 0 {
      SumPercentBounds(students[..|students| - 1], lo, hi);
    }
  }

  /** The average lies between the lowest and the highest percentage; in
      particular it is a percentage when every record is within range. */
  lemma AverageBetween(students: seq<Student>, lo: real, hi: real)
    requires |students| > 0
    requires forall i :: 0 <= i < |students| ==> lo <= students[i].Percent() <= hi
    ensures lo <= AveragePercent(students) <= hi
  {
    var n := |students| as real;
    SumPercentBounds(students, lo, hi);
    var avg := AveragePercent(students);
    assert avg * n == SumPercent(students);
  }

  /** The field of the edit dialog that a range check rejected. */
  datatype ScoreField = Cw1 | Cw2 | Cw3 | Exam

  /** Why the edit dialog refused its input. */
  datatype FieldError =
    | NotAnInteger
    | CodeOutOfRange
    | EmptyName
    | ScoreOutOfRange(field: ScoreField, lo: int, hi: int)

  datatype Validation = Valid(student: Student) | Invalid(error: FieldError)

  /** A record the edit dialog accepts: a four-digit code, a non-empty
      stripped name and scores within their ranges. */
  predicate Acceptable(s: Student) {
    1000 <= s.code <= 9999 && s.name != [] && IsStripped(s.name) && s.InRange()
  }

  /** The dialog's `int(entry.strip())` conversions and `name.strip()`: a
      record when all five numbers parse, nothing otherwise. */
  function ReadFields(code: string, name: string, cw1: string, cw2: string, cw3: string, exam: string): (r: Option<Student>)
    ensures r.Some? ==> r.value.name == Strip(name) && IsStripped(r.value.name)
  {
    var c, c1, c2, c3, ex := ParseInt(Strip(code)), ParseInt(Strip(cw1)), ParseInt(Strip(cw2)), ParseInt(Strip(cw3)), ParseInt(Strip(exam));
    if c.Some? && c1.Some? && c2.Some? && c3.Some? && ex.Some? then
      Some(Student(c.value, Strip(name), c1.value, c2.value, c3.value, ex.value))
    else
      None
  }

  /** The checks of the edit dialog's Save button after the conversions, in
      the order it makes them: the code range, then a non-empty name, then
      each score range in turn. */
  function CheckRecord(read: Option<Student>): (r: Validation)
    requires read.Some? ==> IsStripped(read.value.name)
    ensures r.Valid? <==> read.Some? && Acceptable(read.value)
    ensures r.Valid? ==> r.student == read.value
    ensures read.None? ==> r == Invalid(NotAnInteger)
    ensures read.Some? ==> var s := read.value;
      && (!(1000 <= s.code <= 9999) ==> r == Invalid(CodeOutOfRange))
      && (1000 <= s.code <= 9999 && s.name == [] ==> r == Invalid(EmptyName))
      && (1000 <= s.code <= 9999 && s.name != [] ==>
          && (!(0 <= s.cw1 <= 20) ==> r == Invalid(ScoreOutOfRange(Cw1, 0, 20)))
          && (0 <= s.cw1 <= 20 && !(0 <= s.cw2 <= 20) ==> r == Invalid(ScoreOutOfRange(Cw2, 0, 20)))
          && (0 <= s.cw1 <= 20 && 0 <= s.cw2 <= 20 && !(0 <= s.cw3 <= 20) ==> r == Invalid(ScoreOutOfRange(Cw3, 0, 20)))
          && (0 <= s.cw1 <= 20 && 0 <= s.cw2 <= 20 && 0 <= s.cw3 <= 20 && !(0 <= s.exam <= 100) ==>
              r == Invalid(ScoreOutOfRange(Exam, 0, 100))))
  {
    match read
    case None => Invalid(NotAnInteger)
    case Some(s) =>
      if !(1000 <= s.code <= 9999) then Invalid(CodeOutOfRange)
      else if s.name == [] then Invalid(EmptyName)
      else if !(0 <= s.cw1 <= 20) then Invalid(ScoreOutOfRange(Cw1, 0, 20))
      else if !(0 <= s.cw2 <= 20) then Invalid(ScoreOutOfRange(Cw2, 0, 20))
      else if !(0 <= s.cw3 <= 20) then Invalid(ScoreOutOfRange(Cw3, 0, 20))
      else if !(0 <= s.exam <= 100) then Invalid(ScoreOutOfRange(Exam, 0, 100))
      else Valid(s)
  }

  /** The whole Save button: all five numbers must parse before any range is
      checked. The dialog produces a record exactly when the fields read as
      an acceptable one. */
  function ValidateFields(code: string, name: string, cw1: string, cw2: string, cw3: string, exam: string): (r: Validation)
    ensures var read := ReadFields(code, name, cw1, cw2, cw3, exam);
      && (r.Valid? <==> read.Some? && Acceptable(read.value))
      && (r.Valid? ==> r.student == read.value)
      && (read.None? ==> r == Invalid(NotAnInteger))
      && (read.Some? ==> var s := read.value;
        && (!(1000 <= s.code <= 9999) ==> r == Invalid(CodeOutOfRange))
        && (1000 <= s.code <= 9999 && s.name == [] ==> r == Invalid(EmptyName))
        && (1000 <= s.code <= 9999 && s.name != [] ==>
            && (!(0 <= s.cw1 <= 20) ==> r == Invalid(ScoreOutOfRange(Cw1, 0, 20)))
            && (0 <= s.cw1 <= 20 && !(0 <= s.cw2 <= 20) ==> r == Invalid(ScoreOutOfRange(Cw2, 0, 20)))
            && (0 <= s.cw1 <= 20 && 0 <= s.cw2 <= 20 && !(0 <= s.cw3 <= 20) ==> r == Invalid(ScoreOutOfRange(Cw3, 0, 20)))
            && (0 <= s.cw1 <= 20 && 0 <= s.cw2 <= 20 && 0 <= s.cw3 <= 20 && !(0 <= s.exam <= 100) ==>
                r == Invalid(ScoreOutOfRange(Exam, 0, 100)))))
  {
    CheckRecord(ReadFields(code, name, cw1, cw2, cw3, exam))
  }

  /** Fields that are already stripped and read as an acceptable record
      pass the dialog's checks as that record. */
  lemma StrippedFieldsAccepted(code: string, name: string, cw1: string, cw2: string, cw3: string, exam: string, s: Student)
    requires Acceptable(s)
    requires Strip(code) == code && Strip(cw1) == cw1 && Strip(cw2) == cw2 && Strip(cw3) == cw3 && Strip(exam) == exam
    requires Strip(name) == name && name == s.name
    requires ParseInt(code) == Some(s.code) && ParseInt(cw1) == Some(s.cw1) && ParseInt(cw2) == Some(s.cw2)
    requires ParseInt(cw3) == Some(s.cw3) && ParseInt(exam) == Some(s.exam)
    ensures ValidateFields(code, name, cw1, cw2, cw3, exam) == Valid(s)
  {
    assert ReadFields(code, name, cw1, cw2, cw3, exam) == Some(s);
  }

  /** A number field filled in with `str(n)` is stripped and reads as `n`. */
  lemma NumberField(n: int)
    ensures Strip(IntToString(n)) == IntToString(n)
    ensures ParseInt(IntToString(n)) == Some(n)
  {
    IntToStringChars(n);
    StripStripped(IntToString(n));
    ParseIntToString(n);
  }

  /** Opening the edit dialog on an acceptable record pre-fills its fields
      with that record, and saving them unchanged gives the record back. */
  lemma PrefilledDialogAccepts(s: Student)
    requires Acceptable(s)
    ensures ValidateFields(IntToString(s.code), s.name, IntToString(s.cw1), IntToString(s.cw2),
                           IntToString(s.cw3), IntToString(s.exam)) == Valid(s)
  {
    NumberField(s.code);
    NumberField(s.cw1);
    NumberField(s.cw2);
    NumberField(s.cw3);
    NumberField(s.exam);
    StripStripped(s.name);
    StrippedFieldsAccepted(IntToString(s.code), s.name, IntToString(s.cw1), IntToString(s.cw2),
                           IntToString(s.cw3), IntToString(s.exam), s);
  }
}
