/** The roster's text file, `studentMarks.txt`, one line at a time: a leading
    line with the number of records, then one `code,name,cw1,cw2,cw3,exam`
    line per record. Writing renders every record; reading is permissive
    and skips every line it cannot read as a record. */
module StudentFile {
  import opened Options
  import opened Text
  import opened Students

  /** A name that comes back unchanged from a row: it has no comma (the
      field separator), no whitespace at either end (fields are stripped
      on reading) and no line break (the file is read back with
      `splitlines`, so a break would cut the row in two). */
  predicate CleanName(name: string) {
    && ',' !in name && IsStripped(name)
    && forall i :: 0 <= i < |name| ==> !IsLineBreak(name[i])
  }

  /** The six fields of a record's row, as `str` renders them. */
  function RowFields(s: Student): seq<string> {
    [IntToString(s.code), s.name, IntToString(s.cw1), IntToString(s.cw2), IntToString(s.cw3), IntToString(s.exam)]
  }

  /** The row `f"{code},{name},{cw1},{cw2},{cw3},{exam}"`: the six fields
      joined by commas, splitting back into them when the name is clean. */
  function RowText(s: Student): (line: string)
    ensures CleanName(s.name) ==> Split(line, ',') == RowFields(s)
  {
    var line := Join(RowFields(s), ',');
    if CleanName(s.name) then
      RowFieldsCommaFree(s);
      SplitJoin(RowFields(s), ',');
      line
    else
      line
  }

  lemma RowFieldsCommaFree(s: Student)
    requires CleanName(s.name)
    ensures forall i :: 0 <= i < 6 ==> ',' !in RowFields(s)[i] && IsStripped(RowFields(s)[i])
  {
    IntToStringChars(s.code);
    IntToStringChars(s.cw1);
    IntToStringChars(s.cw2);
    IntToStringChars(s.cw3);
    IntToStringChars(s.exam);
  }

  /** The lines `save_students` writes: the record count, then one row per
      record in roster order. */
  function SaveLines(students: seq<Student>): (lines: seq<string>)
    ensures |lines| == |students| + 1
    ensures ParseInt(lines[0]) == Some(|students|)
    ensures forall i :: 0 <= i < |students| ==> lines[i + 1] == RowText(students[i])
  {
    ParseIntToString(|students|);
    [IntToString(|students|)] + seq(|students|, i requires 0 <= i < |students| => RowText(students[i]))
  }

  /** The stripped, comma-separated, individually stripped fields of a line. */
  function Fields(raw: string): seq<string> {
    StripAll(Split(Strip(raw), ','))
  }

  /** What `load_students` makes of the line at position `index`: nothing for
      a blank line, for a digits-only first line (the count line), for a line
      without exactly six fields or with a non-integer number field; otherwise
      the record its fields spell, whatever their ranges. A blank line reads
      as nothing, and a record read has a name with no comma and no
      surrounding whitespace. */
  function ParseRow(index: nat, raw: string): (r: Option<Student>)
    ensures Strip(raw) == [] ==> r == None
    ensures r.Some? ==> ',' !in r.value.name && IsStripped(r.value.name)
  {
    var line := Strip(raw);
    if line == [] then None
    else if index == 0 && IsDigits(line) && ',' !in line then None
    else
      var parts := Fields(raw);
      if |parts| != 6 then None
      else
        var code, c1, c2, c3, ex := ParseInt(parts[0]), ParseInt(parts[2]), ParseInt(parts[3]), ParseInt(parts[4]), ParseInt(parts[5]);
        if code.Some? && c1.Some? && c2.Some? && c3.Some? && ex.Some? then
          assert ',' !in Split(line, ',')[1];
          Some(Student(code.value, parts[1], c1.value, c2.value, c3.value, ex.value))
        else
          None
  }

  /** The lines the reader skips, and what a record it reads is made of: its
      name is the stripped second field and its numbers are the other
      fields'. */
  lemma ParseRowCases(index: nat, raw: string)
    ensures Strip(raw) == [] ==> ParseRow(index, raw) == None
    ensures index == 0 && IsDigits(Strip(raw)) ==> ParseRow(index, raw) == None
    ensures |Fields(raw)| != 6 ==> ParseRow(index, raw) == None
    ensures ParseRow(index, raw).Some? ==>
      var s := ParseRow(index, raw).value;
      && |Fields(raw)| == 6 && s.name == Fields(raw)[1]
      && ParseInt(Fields(raw)[0]) == Some(s.code) && ParseInt(Fields(raw)[2]) == Some(s.cw1)
      && ParseInt(Fields(raw)[3]) == Some(s.cw2) && ParseInt(Fields(raw)[4]) == Some(s.cw3)
      && ParseInt(Fields(raw)[5]) == Some(s.exam)
  {
  }

  /** What each line of a file reads as, position by position. */
  function ReadRows(lines: seq<string>): (rows: seq<Option<Student>>)
    ensures |rows| == |lines|
    ensures forall i :: 0 <= i < |lines| ==> rows[i] == ParseRow(i, lines[i])
  {
    ReadLines(lines, ParseRow)
  }

  /** The records of a whole file: those of the readable lines, in file
      order. Each one is what some line reads as, and every line that reads
      as a record contributes it. */
  function Parse(lines: seq<string>): (students: seq<Student>)
    ensures |students| <= |lines|
    ensures forall s :: s in students ==> exists i :: 0 <= i < |lines| && ParseRow(i, lines[i]) == Some(s)
    ensures forall i :: 0 <= i < |lines| && ParseRow(i, lines[i]).Some? ==> ParseRow(i, lines[i]).value in students
  {
    var rows := ReadRows(lines);
    var r := Present(rows);
    PresentMember(rows);
    r
  }

  /** Two lines that both read as records contribute them in file order. */
  lemma ParseOrder(lines: seq<string>, i: int, j: int)
    requires 0 <= i < j < |lines| && ParseRow(i, lines[i]).Some? && ParseRow(j, lines[j]).Some?
    ensures exists p, q ::
      0 <= p < q < |Parse(lines)| && Parse(lines)[p] == ParseRow(i, lines[i]).value && Parse(lines)[q] == ParseRow(j, lines[j]).value
  {
    var rows := ReadRows(lines);
    assert rows[i] == ParseRow(i, lines[i]) && rows[j] == ParseRow(j, lines[j]);
    PresentOrder(rows, i, j);
    var p, q :| 0 <= p < q < |Present(rows)| && Present(rows)[p] == rows[i].value && Present(rows)[q] == rows[j].value;
    assert Parse(lines) == Present(rows);
  }

  /** `load_students`: no records when the file is missing, otherwise the
      records of every readable line, in file order. */
  method LoadStudents(file: Option<seq<string>>) returns (students: seq<Student>)
    ensures file.None? ==> students == []
    ensures file.Some? ==> students == Parse(file.value)
  {
    if file.None? {
      return [];
    }
    students := ReadEach(file.value, ParseRow);
  }

  /** Every line whose six fields spell a record reads as that record, at
      any position, whatever whitespace surrounds the line or its fields:
      six fields mean the line has a comma, so it is neither blank nor the
      count line. */
  lemma FieldsSpellRecord(index: nat, raw: string, s: Student)
    requires var f := Fields(raw);
      && |f| == 6 && f[1] == s.name
      && ParseInt(f[0]) == Some(s.code) && ParseInt(f[2]) == Some(s.cw1)
      && ParseInt(f[3]) == Some(s.cw2) && ParseInt(f[4]) == Some(s.cw3)
      && ParseInt(f[5]) == Some(s.exam)
    ensures ParseRow(index, raw) == Some(s)
  {
    var line := Strip(raw);
    assert ',' in line by {
      if ',' !in line {
        assert Split(line, ',') == [line];
      }
    }
  }

  /** A rendered row with a clean name has no whitespace at its ends and a
      comma after its first field, so it is not all digits. */
  lemma RowTextShape(s: Student)
    requires CleanName(s.name)
    ensures IsStripped(RowText(s)) && RowText(s) != [] && !IsDigits(RowText(s))
  {
    var line := RowText(s);
    RowFieldsCommaFree(s);
    var f := RowFields(s);
    var rest := Join(f[1..], ',');
    assert line == Join(f, ',') == f[0] + [','] + rest;
    JoinEnds(f, ',');
    assert line[0] == f[0][0];
    assert line[|line| - 1] == f[5][|f[5]| - 1];
    assert line[|f[0]|] == ',';
  }

  /** A rendered row with a clean name is a stripped line, not all digits,
      whose fields are exactly the rendered fields. */
  lemma RowTextFields(s: Student)
    requires CleanName(s.name)
    ensures var line := RowText(s);
      Strip(line) == line && line != [] && !IsDigits(line) && Fields(line) == RowFields(s)
  {
    var line := RowText(s);
    RowTextShape(s);
    StripStripped(line);
    RowFieldsCommaFree(s);
    StripAllStripped(RowFields(s));
  }

  /** A rendered row reads back as the record it renders, at any position. */
  lemma ParseRowText(index: nat, s: Student)
    requires CleanName(s.name)
    ensures ParseRow(index, RowText(s)) == Some(s)
  {
    RowTextFields(s);
    ParseIntToString(s.code);
    ParseIntToString(s.cw1);
    ParseIntToString(s.cw2);
    ParseIntToString(s.cw3);
    ParseIntToString(s.exam);
    FieldsSpellRecord(index, RowText(s), s);
  }

  /** A first line of digits only is skipped as the count line. */
  lemma DigitsLineSkipped(line: string)
    requires IsDigits(line)
    ensures ParseRow(0, line) == None
  {
    assert IsDigit(line[0]) && IsDigit(line[|line| - 1]);
    StripStripped(line);
    assert ',' !in line by {
      forall i | 0 <= i < |line| ensures line[i] != ',' {
        assert IsDigit(line[i]);
      }
    }
  }

  /** The count line is never read as a record. */
  lemma CountLineSkipped(n: nat)
    ensures ParseRow(0, IntToString(n)) == None
  {
    DigitsLineSkipped(IntToString(n));
  }

  /** Reading what `save_students` wrote gives back the same records in the
      same order, duplicates and out-of-range scores included, provided
      every name is clean. */
  lemma LoadAfterSave(students: seq<Student>)
    requires forall i :: 0 <= i < |students| ==> CleanName(students[i].name)
    ensures Parse(SaveLines(students)) == students
  {
    SavedRows(students);
    PresentAfterNone(ReadRows(SaveLines(students)), students);
  }

  /** Line by line, a saved file reads as the count line and then each record. */
  lemma SavedRows(students: seq<Student>)
    requires forall i :: 0 <= i < |students| ==> CleanName(students[i].name)
    ensures ReadRows(SaveLines(students))[0] == None
    ensures forall i :: 0 <= i < |students| ==> ReadRows(SaveLines(students))[i + 1] == Some(students[i])
  {
    CountLineSkipped(|students|);
    forall i | 0 <= i < |students| ensures ReadRows(SaveLines(students))[i + 1] == Some(students[i]) {
      SavedRow(students, i);
    }
  }

  lemma SavedRow(students: seq<Student>, i: int)
    requires 0 <= i < |students| && CleanName(students[i].name)
    ensures ReadRows(SaveLines(students))[i + 1] == Some(students[i])
  {
    var lines := SaveLines(students);
    assert lines[i + 1] == RowText(students[i]);
    ParseRowText(i + 1, students[i]);
  }
}
