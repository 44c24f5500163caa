# Assessment scripts: roster store, maths quiz and joke teller

A Dafny model of the logic inside three small Tkinter scripts. The widget
code is dropped. What remains is modelled and proved:

- **Student manager** (`03_student_manager.py`), the main part.
  - A student record out of 160 marks, with its coursework total, total,
    percentage and letter grade.
  - The `studentMarks.txt` format: a count line, then one
    `code,name,cw1,cw2,cw3,exam` row per record.
    - Writing it is `StudentFile.SaveLines`.
    - Reading it is the permissive line loop of `load_students`
      (`StudentFile.LoadStudents`).
    - Reading back what was written gives the same records in the same
      order, for names with no comma, no line break and no whitespace at
      either end (`StudentFile.LoadAfterSave`).
  - The roster, as the class `Roster.StudentStore`, whose menu actions
    search, rank, sort, add, delete and update. Each edit rewrites the
    data file.
  - The checks of the edit dialog (`Students.ValidateFields`).
- **Maths quiz** (`01_maths_quiz.py`).
  - The rank table and the arithmetic of a question.
  - The operand swap that keeps easy subtractions non-negative.
  - The two-attempt scoring controller, as the class
    `MathsQuiz.QuizApp`. Its invariant: the score is 10 points per
    first-try answer plus 5 per second-try answer, and no more questions
    are scored than were posed.
- **Joke teller** (`02_alexa_joke.py`).
  - The `setup?punchline` line parser, with its fallback joke.
  - The idle → setup shown → punchline shown stage machine, as the class
    `Jokes.JokeApp`.

Layout:

| File | Contents |
|---|---|
| `options.dfy` | `Option`, the filter `Present` that every "append when readable" loop computes, and the loop itself (`ReadEach`) |
| `text.dfy` | The Python string operations used: `strip`, `split`, `join`, `isdigit`, `int`, `str`, `lower`, `in` |
| `students.dfy` | The record and the edit dialog |
| `student_file.dfy` | The data file |
| `roster.dfy` | The roster store |
| `maths_quiz.dfy` | The quiz |
| `jokes.dfy` | The joke teller |

Choices the model makes:

- Percentages are exact reals. `Students.Student.Percent` states that a
  percentage is five eighths of the total. Every comparison of
  percentages is therefore one of totals.
- A file is a sequence of lines, and `None` is a missing file.
- User choices, dialog results and random draws are parameters.
  - The chosen joke is an arbitrary index (`:|`).
  - The quiz's operands and operator are given to the method that poses
    the question.

Two details of the code that the model keeps:

- `load_students` skips the count line only when it is line 0 of the
  file (`i == 0`). A digits-only line anywhere else is read like any
  other line, and is then skipped for not having six fields.
- `sort_records` reorders the roster but never calls `save_students`.
  Add, delete and update do save.

## Model

| member | source | states |
|---|---|---|
| Students.Student.CwTotal | Assessment_1/03_student_manager.py:18 | For a record within the dialog's ranges the coursework total is between 0 and 60 |
| Students.Student.Total | Assessment_1/03_student_manager.py:20 | For a record within the ranges the total is between 0 and 160 |
| Students.Student.Grade | Assessment_1/03_student_manager.py:23-26 | The grade is a step function of the total out of 160: A iff total ≥ 112, B iff 96 ≤ total < 112, C iff 80 ≤ total < 96, D iff 64 ≤ total < 80, F iff total < 64 |
| Students.Student.Percent | Assessment_1/03_student_manager.py:21-22 | The percentage times 8 is the total times 5, and it lies in [0, 100] for a record within the ranges |
| Students.PercentOrder | Assessment_1/03_student_manager.py:22 | Percentages compare (both < and =) exactly as totals do |
| Students.AveragePercent | Assessment_1/03_student_manager.py:59 | 0 for an empty list; otherwise average × count equals the sum of the percentages |
| Students.SumPercentBounds | Assessment_1/03_student_manager.py:59 | When every percentage lies in [lo, hi], the sum lies between count × lo and count × hi |
| Students.AverageBetween | Assessment_1/03_student_manager.py:59 | The average of a non-empty list lies between any lower and upper bound of its percentages |
| Students.ReadFields | Assessment_1/03_student_manager.py:212-216 | The record read from the dialog has the stripped name entry, which has no surrounding whitespace |
| Students.CheckRecord | Assessment_1/03_student_manager.py:217-221 | A record read from the fields passes iff its code is 1000-9999, its name is non-empty and its scores are in range. Otherwise the first failing check is reported: a parse failure, then the code range, then an empty name, then CW1, CW2, CW3 and the exam in turn, each with its range |
| Students.ValidateFields | Assessment_1/03_student_manager.py:211-221 | The dialog produces a record iff all five numbers parse and the record read is acceptable, and then it is that record. Otherwise it reports the first failing check in the same order: not an integer, the code range, an empty name, then CW1, CW2, CW3 and the exam, each with its range |
| Students.StrippedFieldsAccepted | Assessment_1/03_student_manager.py:211-221 | Stripped fields that read as an acceptable record are accepted as exactly that record |
| Students.NumberField | Assessment_1/03_student_manager.py:207-209 | A field pre-filled with `str(n)` is already stripped and `int` reads it back as n |
| Students.PrefilledDialogAccepts | Assessment_1/03_student_manager.py:206-221 | Saving the dialog unchanged on an acceptable record returns that very record |
| Text.Strip | Assessment_1/03_student_manager.py:36 | The stripped string has no whitespace at either end |
| Text.StripBlank | Assessment_1/03_student_manager.py:36-37 | A line strips to nothing iff every character is whitespace |
| Text.Split | Assessment_1/03_student_manager.py:40 | There is at least one piece, no piece contains the separator, and joining the pieces gives the input back |
| Text.SplitJoin | Assessment_1/03_student_manager.py:40 | Splitting a join of separator-free pieces returns those pieces |
| Text.ParseInt | Assessment_1/03_student_manager.py:43-44 | A string parses iff it is digits with an optional sign in front. Digits parse to their decimal value, "-" and digits to the negated value, "+" and digits to the value |
| Text.ParseIntToString | Assessment_1/03_student_manager.py:43-44 | `int(str(n)) == n` for every integer |
| Text.IntToString | Assessment_1/03_student_manager.py:53 | `str(n)` is the digits of n, preceded by a minus sign exactly when n is negative |
| Text.ContainsAt | Assessment_1/03_student_manager.py:113 | The substring test `q in name` holds iff the query occurs in the name at some position |
| Text.IntToStringChars | Assessment_1/03_student_manager.py:53 | The rendering of a number has no surrounding whitespace and no comma |
| StudentFile.RowText | Assessment_1/03_student_manager.py:53 | A rendered row splits at its commas back into the six rendered fields when the name is clean |
| StudentFile.SaveLines | Assessment_1/03_student_manager.py:53 | n records give n + 1 lines. The first reads as n, and line i + 1 is the row of record i |
| StudentFile.ParseRow | Assessment_1/03_student_manager.py:36-47 | A blank line reads as nothing, and a record read has a name with no comma and no whitespace at either end. Which lines become which records is stated by `ParseRowCases` and `FieldsSpellRecord` |
| StudentFile.ParseRowCases | Assessment_1/03_student_manager.py:36-47 | A blank line, a digits-only line at index 0 and a line without six fields are skipped. A record read has the stripped second field as its name and the integers of the other fields |
| StudentFile.FieldsSpellRecord | Assessment_1/03_student_manager.py:36-47 | Conversely, any line whose six stripped fields spell a record reads as that record, at any index and whatever whitespace surrounds the line or its fields |
| StudentFile.ReadRows | Assessment_1/03_student_manager.py:35-47 | One reading per line, each the reading of that line at its index |
| StudentFile.Parse | Assessment_1/03_student_manager.py:35-48 | No more records than lines. Each record is what some line reads as, and every line that reads as a record contributes it |
| StudentFile.ParseOrder | Assessment_1/03_student_manager.py:35-47 | Two lines that read as records contribute them in file order |
| StudentFile.LoadStudents | Assessment_1/03_student_manager.py:29-48 | A missing file gives no records; otherwise the loop's result is the records of the readable lines, in file order |
| StudentFile.ParseRowText | Assessment_1/03_student_manager.py:40-47 | A row rendered from a record with a clean name reads back as that record, at any line index |
| StudentFile.DigitsLineSkipped | Assessment_1/03_student_manager.py:38-39 | A digits-only line at index 0 is skipped |
| StudentFile.CountLineSkipped | Assessment_1/03_student_manager.py:38-39 | The written count line is skipped on reading |
| StudentFile.SavedRows | Assessment_1/03_student_manager.py:35-47 | Reading a saved file line by line gives nothing for the count line and then each record in turn |
| StudentFile.LoadAfterSave | Assessment_1/03_student_manager.py:35-53 | Reading what `save_students` wrote gives back the same records in the same order, duplicates and out-of-range scores included, when every name is clean |
| Options.ReadEach | Assessment_1/03_student_manager.py:35-47 | The append-when-readable loop returns exactly the present readings of the lines, in order |
| Options.PresentMember | Assessment_1/03_student_manager.py:35-47 | A value is kept iff it is present somewhere in the list of readings |
| Options.PresentAppend | Assessment_1/03_student_manager.py:35-47 | Filtering a concatenation is concatenating the filtered parts |
| Options.PresentOrder | Assessment_1/03_student_manager.py:35-47 | Two present values come out in the order of their positions |
| Options.PresentEmpty | Assessment_1/02_alexa_joke.py:18-21 | The filtered list is empty iff no line was readable |
| Options.PresentAfterNone | Assessment_1/03_student_manager.py:35-47 | A skipped first line followed by readable lines filters to those lines' values |
| Roster.IndexOfCode | Assessment_1/03_student_manager.py:161-162 | -1 iff no record has the code; otherwise the record there has the code and none before it does |
| Roster.MatchingNames | Assessment_1/03_student_manager.py:113 | The name matches are no more than the records; their contents are stated by `MatchingNamesExactly` |
| Roster.MatchingNamesExactly | Assessment_1/03_student_manager.py:113 | The name matches are exactly the records whose lower-cased name contains the query |
| Roster.CodeHitAt | Assessment_1/03_student_manager.py:112 | The loop meeting the first record whose code a digits-only query spells is a code hit at that index |
| Roster.Search | Assessment_1/03_student_manager.py:110-113 | A digits-only query spelling a code in use finds just the first record with it; otherwise the result is every name match in roster order |
| Roster.StudentStore.FindStudents | Assessment_1/03_student_manager.py:107-113 | An empty roster or an empty query finds nothing; otherwise the search runs on the stripped, lower-cased query |
| Roster.StudentStore.Highest | Assessment_1/03_student_manager.py:120-121 | Nothing iff the roster is empty; otherwise the first record with the highest total |
| Roster.StudentStore.Lowest | Assessment_1/03_student_manager.py:125-126 | Nothing iff the roster is empty; otherwise the first record with the lowest total |
| Roster.InsertPermutes | Assessment_1/03_student_manager.py:132 | Insertion adds the record and loses none |
| Roster.InsertSorted | Assessment_1/03_student_manager.py:132 | Insertion into a sorted list keeps it sorted |
| Roster.InsertWithPercent | Assessment_1/03_student_manager.py:132 | The inserted record goes ahead of every record with its percentage, and the others keep their order |
| Roster.InsertUnique | Assessment_1/03_student_manager.py:132 | Inserting a record with a new code keeps codes unique |
| Roster.StableSort | Assessment_1/03_student_manager.py:132 | The sorted roster is a permutation of the roster |
| Roster.SortIsSorted | Assessment_1/03_student_manager.py:132 | Percentages are non-decreasing when ascending and non-increasing when descending |
| Roster.SortIsStable | Assessment_1/03_student_manager.py:132 | For every percentage, the records with it keep their relative order, in both directions |
| Roster.SortKeepsUnique | Assessment_1/03_student_manager.py:132 | Sorting keeps codes unique |
| Roster.SortSorted | Assessment_1/03_student_manager.py:132 | Sorting an already sorted roster leaves it unchanged |
| Roster.SortIdempotent | Assessment_1/03_student_manager.py:132 | Sorting twice in the same direction equals sorting once |
| Roster.StudentStore.SortByPercent | Assessment_1/03_student_manager.py:129-132 | The roster becomes its stable sort; the data file is untouched |
| Roster.UniqueAppend | Assessment_1/03_student_manager.py:138-140 | Appending a record with a code not in use keeps codes unique |
| Roster.StudentStore.AddStudent | Assessment_1/03_student_manager.py:135-140 | Rejected iff the code is in use, with roster and file unchanged. Otherwise appended at the end and saved. Unique codes stay unique |
| Roster.RemoveCode | Assessment_1/03_student_manager.py:149 | The deletion is no longer than the roster; what it keeps is stated by `RemoveCodeExactly` |
| Roster.RemoveCodeExactly | Assessment_1/03_student_manager.py:149 | After deletion no record has the code, every remaining record was there, every record with another code remains, and unique codes stay unique |
| Roster.RemoveCodeAppend | Assessment_1/03_student_manager.py:149 | Deletion works piece by piece over a concatenation, so the remaining records keep their relative order |
| Roster.RemoveAbsentCode | Assessment_1/03_student_manager.py:149 | Deleting a code that is not in use changes nothing |
| Roster.StudentStore.DeleteStudent | Assessment_1/03_student_manager.py:144-149 | An empty roster changes nothing. Otherwise the roster becomes the deletion and is saved, and unique codes stay unique |
| Roster.ReplaceFirst | Assessment_1/03_student_manager.py:161-162 | Same length. Without the old code nothing changes; otherwise only the first position with it changes, to the new record |
| Roster.ReplaceKeepsUnique | Assessment_1/03_student_manager.py:159-162 | Replacing keeps codes unique when the new code is the old one or is not in use |
| Roster.StudentStore.UpdateStudent | Assessment_1/03_student_manager.py:153-163 | An empty roster changes nothing. A changed code already in use is rejected, with nothing changed. Otherwise the update is never refused as "no records": the loop replaces the first record with the old code in place and saves. Unique codes stay unique |
| Roster.StudentStore.Save | Assessment_1/03_student_manager.py:50-54 | The data file becomes the saved lines and reads back as the roster when names are clean |
| Roster.StudentStore.constructor | Assessment_1/03_student_manager.py:65 | The roster starts as what the data file reads as, or empty without a file |
| MathsQuiz.LevelBounds | Assessment_1/01_maths_quiz.py:9 | Each level's operand range is a non-empty range of positive numbers |
| MathsQuiz.RankFromPercentage | Assessment_1/01_maths_quiz.py:22-34 | A+ iff ≥ 90, A iff 80-89, B iff 70-79, C iff 60-69, D iff 50-59, F iff < 50 |
| MathsQuiz.RankMonotone | Assessment_1/01_maths_quiz.py:22-34 | A higher percentage never earns a lower rank |
| MathsQuiz.ResultPercent | Assessment_1/01_maths_quiz.py:93-94 | The results percentage times the 100 possible points is the score times 100 |
| MathsQuiz.ResultsOfRun | Assessment_1/01_maths_quiz.py:93-95 | For at most ten scored questions the percentage lies in [0, 100]. It is 100 iff all ten were right at the first try, and the rank is A+ iff twice the first-try answers plus the second-try answers reach 18 |
| MathsQuiz.Compute | Assessment_1/01_maths_quiz.py:37-39 | a + b for "+", a - b for any other operator |
| MathsQuiz.OrderOperands | Assessment_1/01_maths_quiz.py:253-255 | The pair is the drawn pair or its swap. On levels 1 and 2 a subtraction has the larger operand first; otherwise nothing is swapped |
| MathsQuiz.EasyAnswersNonNegative | Assessment_1/01_maths_quiz.py:250-255 | On levels 1 and 2 every question posed has a non-negative answer |
| MathsQuiz.QuizApp.constructor | Assessment_1/01_maths_quiz.py:129-138 | The initial state: level 1, nothing posed or scored, first attempt |
| MathsQuiz.QuizApp.ResetForNewPlay | Assessment_1/01_maths_quiz.py:228-234 | Counter, score and both tallies go to 0 and the attempt to 1; level and question are kept; the invariant holds |
| MathsQuiz.QuizApp.NextQuestion | Assessment_1/01_maths_quiz.py:240-260 | The counter advances. Past the tenth question nothing else changes and no question is posed. Otherwise the drawn question, swapped as required, is posed at attempt 1; on levels 1-2 its answer is non-negative |
| MathsQuiz.QuizApp.StartQuiz | Assessment_1/01_maths_quiz.py:219-226 | A fresh run at the chosen level with question 1 posed |
| MathsQuiz.QuizApp.SubmitAnswer | Assessment_1/01_maths_quiz.py:262-295 | A blank or non-integer answer changes nothing and gets its own message. A right answer scores 10 at attempt 1 or 5 at attempt 2, bumps that tally and moves on. A wrong first answer allows attempt 2 at the same question. A wrong second answer returns the feedback that gives the answer and moves on. When moving on ends the quiz, attempt and question are left as they were. The invariant is kept |
| Jokes.ParseJokeLine | Assessment_1/02_alexa_joke.py:13-17 | A line gives a joke iff its stripped form contains "?". The setup is then stripped text ending in its only "?", and the punchline is stripped. Which text goes where is stated by `ParseJokeLineSplit` |
| Jokes.ParseJokeLineSplit | Assessment_1/02_alexa_joke.py:13-17 | A line `u?v` with no "?" in u reads as the joke with setup `u` stripped plus "?" and punchline `v` stripped |
| Jokes.ParseJokeLineRoundTrip | Assessment_1/02_alexa_joke.py:13-17 | A well-formed joke written as one line reads back as itself |
| Jokes.JokeRows | Assessment_1/02_alexa_joke.py:12-17 | One reading per line, each the parse of that line |
| Jokes.ParseJokes | Assessment_1/02_alexa_joke.py:12-17 | Every joke is what some line reads as, and every line whose stripped form contains "?" contributes its joke |
| Jokes.ParseJokesOrder | Assessment_1/02_alexa_joke.py:12-17 | Two such lines contribute their jokes in file order |
| Jokes.ParseJokesWellFormed | Assessment_1/02_alexa_joke.py:12-17 | Every parsed joke is well formed |
| Jokes.ParseJokesEmpty | Assessment_1/02_alexa_joke.py:14-18 | No joke is parsed iff no stripped line contains "?" |
| Jokes.FallbackWellFormed | Assessment_1/02_alexa_joke.py:21 | The chicken joke is well formed |
| Jokes.JokesFrom | Assessment_1/02_alexa_joke.py:6-21 | The list is never empty and all its jokes are well formed. It is the fallback alone when the file is missing or yields nothing, and otherwise the parsed jokes |
| Jokes.LoadJokes | Assessment_1/02_alexa_joke.py:9-21 | The loading loop computes `JokesFrom` |
| Jokes.JokeApp.constructor | Assessment_1/02_alexa_joke.py:26 | Starts idle with no joke and with the loaded jokes |
| Jokes.JokeApp.NewJoke | Assessment_1/02_alexa_joke.py:58-65 | Some loaded joke is on screen, its setup is shown, and the stage is "setup shown" |
| Jokes.JokeApp.ShowPunch | Assessment_1/02_alexa_joke.py:67-74 | Without a joke nothing happens; otherwise its punchline is shown and the stage is "punchline shown" |
| Jokes.JokeApp.OnStart | Assessment_1/02_alexa_joke.py:47-56 | With a setup shown, the same joke's punchline is revealed. Otherwise the stripped, lower-cased phrase brings a new setup from the loaded jokes, and any other input changes neither stage nor joke. The jokes stay non-empty and a joke on screen is always a loaded one |

## Left out

- **Widgets.** All Tkinter code is left out: windows, tables, labels,
  status texts, message boxes, key bindings and `main`. The list chooser
  and the dialog become parameters, so delete and update receive the
  chosen record's code.
- **Files.** File access is left out: `data_path`, `Path.exists`, reading
  and writing with their encoding options, `splitlines` and
  `"\n".join`. A file is its sequence of lines, or `None` when missing.
- **Randomness and time.** These are left out: `randomInt`,
  `decideOperation`, `random.choice` and the elapsed time of the
  results. Drawn values are parameters, and the joke is an arbitrary
  index.
- **Float formatting.** `fmt_percent`, `student_to_row`, the summary
  strings and `f"{elapsed:.1f}s"` are left out. Percentages and the
  average are exact reals, and the results percentage is exact integer
  arithmetic.
- **Feedback lifetime.** `SubmitAnswer` returns the feedback that
  `isCorrect` sets. When the quiz moves on, posing the next question
  clears that text in the same handler (`displayProblem` with
  `clear_feedback=True`). So "Correct" and "The answer was N" stay on
  screen only after the tenth question. The model does not track what is
  on screen.
- MathsQuiz.ResultsOfRun: stated for at most ten scored questions. The
  quiz invariant bounds the two tallies only by the question counter,
  which reaches 11 when the results are due. Enter is bound to the whole
  window, so an answer can be submitted before a run starts or after it
  ends.
- **Quiz results.** `displayResults` and `displayMenu` beyond the
  percentage and the rank are left out: the results dialog, "play again"
  and closing the window. `NextQuestion` reports that the quiz is over
  and the caller decides.
- **Text operations.** These are ASCII only.
  - `strip` removes the ASCII whitespace set. It does not remove
    Unicode spaces.
  - `lower` folds only A-Z.
  - `isdigit` accepts only 0-9.
  - `int` accepts an optional sign followed by ASCII digits. It does
    not accept underscores between digits or Unicode digits.
- Text.Lower: its contract states only that the length is kept. The
  character-by-character folding is in its definition, and no property
  of the model depends on more.
- Options.Present: its contract states only a length bound. Its
  membership, order, emptiness and loop-step properties are the separate
  lemmas `PresentMember`, `PresentAppend`, `PresentOrder`, `PresentEmpty`
  and `PresentSnoc`.
- Jokes.ParseJokeLine: its contract states when a line gives a joke and
  the joke's shape. Which text becomes the setup and which the punchline
  is stated by `Jokes.ParseJokeLineSplit`.
- Roster.MatchingNames: its contract states only a length bound. Which
  records match is stated by `Roster.MatchingNamesExactly`.
- Roster.RemoveCode: its contract states only a length bound. What
  deletion keeps and removes is stated by `Roster.RemoveCodeExactly`.
- Roster.StudentStore.FindStudents: when several records match, the
  source shows a chooser and then a summary. The model returns the list
  of matches.
- **Name checks in the dialog.** The dialog accepts a name containing a
  comma or a line break. Such a record does not read back from the file
  as itself: `splitlines` cuts the row at a line break and `split(",")`
  at a comma. The round trip assumes clean names
  (`StudentFile.CleanName`). No other edit action checks names either.
