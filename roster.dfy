/** The in-memory roster of the student manager: the list of records the
    menu actions search, rank, sort and edit, and the data file that every
    edit rewrites. */
module Roster {
  import opened Options
  import opened Text
  import opened Students
  import opened StudentFile

  /** No two records share a code: what adding and updating keep. Loading
      does not enforce it. */
  predicate UniqueCodes(s: seq<Student>) {
    forall i, j :: 0 <= i < j < |s| ==> s[i].code != s[j].code
  }

  /** Python's `any(st.code == code for st in students)`. */
  predicate HasCode(s: seq<Student>, code: int) {
    exists i :: 0 <= i < |s| && s[i].code == code
  }

  /** The position of the first record with the given code, or -1. */
  function IndexOfCode(s: seq<Student>, code: int): (k: int)
    ensures -1 <= k < |s|
    ensures k == -1 <==> !HasCode(s, code)
    ensures k >= 0 ==> s[k].code == code && forall j :: 0 <= j < k ==> s[j].code != code
  {
    if |s| == 0 then -1
    else if s[0].code == code then 0
    else
      var k := IndexOfCode(s[1..], code);
      assert forall j :: 1 <= j < |s| ==> s[j] == s[1..][j - 1];
      if k == -1 then -1 else k + 1
  }

  // ---------------------------------------------------------------------
  // Searching

  /** A name query matches a record when it occurs in the lower-cased name. */
  predicate NameMatches(s: Student, q: string) {
    Contains(Lower(s.name), q)
  }

  /** The records whose names match, in roster order. */
  function MatchingNames(s: seq<Student>, q: string): (r: seq<Student>)
    ensures |r| <= |s|
  {
    if |s| == 0 then []
    else
      var init := MatchingNames(s[..|s| - 1], q);
      var last := s[|s| - 1];
      if NameMatches(last, q) then init + [last] else init
  }

  /** The name search returns exactly the records whose names match. */
  lemma {:induction false} MatchingNamesExactly(s: seq<Student>, q: string)
    ensures forall x :: x in MatchingNames(s, q) ==> x in s && NameMatches(x, q)
    ensures forall i :: 0 <= i < |s| && NameMatches(s[i], q) ==> s[i] in MatchingNames(s, q)
  {
    if |s| > 0 {
      MatchingNamesExactly(s[..|s| - 1], q);
      assert forall i :: 0 <= i < |s| - 1 ==> s[i] == s[..|s| - 1][i];
    }
  }

  /** The name search over one more record. */
  lemma MatchingNamesStep(s: seq<Student>, i: int, q: string)
    requires 0 <= i < |s|
    ensures MatchingNames(s[..i + 1], q) == MatchingNames(s[..i], q) + (if NameMatches(s[i], q) then [s[i]] else [])
  {
    assert s[..i + 1][..i] == s[..i];
  }

  /** A query of digits only that names the code of some record. */
  predicate CodeHit(s: seq<Student>, q: string) {
    IsDigits(q) && HasCode(s, DigitsValue(q))
  }

  /** The search loop meets the record at `i` with the code the query spells
      after none before it: that is the first such record. */
  lemma CodeHitAt(s: seq<Student>, q: string, i: int)
    requires IsDigits(q) && 0 <= i < |s| && s[i].code == DigitsValue(q)
    requires forall j :: 0 <= j < i ==> s[j].code != DigitsValue(q)
    ensures CodeHit(s, q) && IndexOfCode(s, DigitsValue(q)) == i
  {
  }

  /** The search loop of "View individual": a query of digits only stops at
      the first record with that code; otherwise, or when no record has it,
      the records whose names contain the query, in roster order. */
  method Search(all: seq<Student>, q: string) returns (found: seq<Student>)
    ensures CodeHit(all, q) ==> found == [all[IndexOfCode(all, DigitsValue(q))]]
    ensures !CodeHit(all, q) ==> found == MatchingNames(all, q)
  {
    var isCode := IsDigits(q);
    var code := if isCode then DigitsValue(q) else 0;
    found := [];
    var i := 0;
    while i < |all|
      invariant 0 <= i <= |all|
      invariant found == MatchingNames(all[..i], q)
      invariant isCode ==> forall j :: 0 <= j < i ==> all[j].code != code
    {
      if isCode && code == all[i].code {
        break;
      }
      MatchingNamesStep(all, i, q);
      if NameMatches(all[i], q) {
        found := found + [all[i]];
      }
      i := i + 1;
    }
    if i < |all| {
      CodeHitAt(all, q, i);
      found := [all[i]];
    } else {
      assert all[..i] == all;
    }
  }

  // ---------------------------------------------------------------------
  // Ranking

  /** `k` is where `max(students, key=total)` stops: a highest total, and
      the first record that has it. */
  predicate IsFirstHighest(s: seq<Student>, k: int) {
    && 0 <= k < |s|
    && (forall j :: 0 <= j < |s| ==> s[j].Total() <= s[k].Total())
    && (forall j :: 0 <= j < k ==> s[j].Total() < s[k].Total())
  }

  /** `k` is where `min(students, key=total)` stops: a lowest total, and
      the first record that has it. */
  predicate IsFirstLowest(s: seq<Student>, k: int) {
    && 0 <= k < |s|
    && (forall j :: 0 <= j < |s| ==> s[k].Total() <= s[j].Total())
    && (forall j :: 0 <= j < k ==> s[k].Total() < s[j].Total())
  }

  // ---------------------------------------------------------------------
  // Sorting: `students.sort(key=percent, reverse=not ascending)`

  /** `x` must come strictly before `y` in the requested direction. */
  predicate Before(x: Student, y: Student, ascending: bool) {
    if ascending then x.Percent() < y.Percent() else x.Percent() > y.Percent()
  }

  /** Percentages are non-decreasing (ascending) or non-increasing
      (descending) along the list. */
  predicate SortedBy(s: seq<Student>, ascending: bool) {
    forall i, j :: 0 <= i < j < |s| ==> !Before(s[j], s[i], ascending)
  }

  /** The records with percentage `p`, in list order. */
  function WithPercent(s: seq<Student>, p: real): seq<Student> {
    if |s| == 0 then []
    else (if s[0].Percent() == p then [s[0]] else []) + WithPercent(s[1..], p)
  }

  /** Puts `x` in front of the first record it does not have to follow, so
      that it stays ahead of every record with the same percentage. */
  function Insert(x: Student, r: seq<Student>, ascending: bool): seq<Student> {
    if |r| == 0 then [x]
    else if !Before(r[0], x, ascending) then [x] + r
    else [r[0]] + Insert(x, r[1..], ascending)
  }

  /** Inserting adds `x` and loses nothing. */
  lemma {:induction false} InsertPermutes(x: Student, r: seq<Student>, ascending: bool)
    ensures multiset(Insert(x, r, ascending)) == multiset(r) + multiset{x}
  {
    if |r| > 0 && Before(r[0], x, ascending) {
      InsertPermutes(x, r[1..], ascending);
      assert r == [r[0]] + r[1..];
    }
  }

  /** Inserting into a sorted list keeps it sorted. */
  lemma {:induction false} InsertSorted(x: Student, r: seq<Student>, ascending: bool)
    requires SortedBy(r, ascending)
    ensures SortedBy(Insert(x, r, ascending), ascending)
  {
    if |r| > 0 && Before(r[0], x, ascending) {
      var tail := Insert(x, r[1..], ascending);
      assert SortedBy(r[1..], ascending);
      InsertSorted(x, r[1..], ascending);
      InsertPermutes(x, r[1..], ascending);
      var res := [r[0]] + tail;
      forall j | 1 <= j < |res| ensures !Before(res[j], res[0], ascending) {
        assert res[j] in multiset(tail);
      }
    }
  }

  /** `x` lands ahead of every record with its percentage and the others
      keep their order. */
  lemma {:induction false} InsertWithPercent(x: Student, r: seq<Student>, ascending: bool, p: real)
    ensures WithPercent(Insert(x, r, ascending), p) == (if x.Percent() == p then [x] else []) + WithPercent(r, p)
  {
    var res := Insert(x, r, ascending);
    var xs := if x.Percent() == p then [x] else [];
    if |r| == 0 {
      assert res == [x] && res[1..] == [];
      assert WithPercent(res, p) == xs + WithPercent([], p);
    } else if !Before(r[0], x, ascending) {
      assert res == [x] + r && res[1..] == r;
      assert WithPercent(res, p) == xs + WithPercent(r, p);
    } else {
      var tail := Insert(x, r[1..], ascending);
      InsertWithPercent(x, r[1..], ascending, p);
      var r0s := if r[0].Percent() == p then [r[0]] else [];
      var w := WithPercent(r[1..], p);
      assert res == [r[0]] + tail && res[1..] == tail;
      assert WithPercent(res, p) == r0s + WithPercent(tail, p);
      assert WithPercent(r, p) == r0s + w;
      if r0s == [] {
        assert WithPercent(res, p) == xs + w;
      } else {
        assert xs == [];
        assert WithPercent(res, p) == r0s + w;
      }
    }
  }

  /** A record can go in front of a list with unique codes when its code
      is new to the list. */
  lemma UniqueConsIntro(x: Student, r: seq<Student>)
    requires UniqueCodes(r) && forall y :: y in r ==> y.code != x.code
    ensures UniqueCodes([x] + r)
  {
    var xr := [x] + r;
    forall i, j | 0 <= i < j < |xr| ensures xr[i].code != xr[j].code {
      assert xr[j] == r[j - 1];
      if i > 0 {
        assert xr[i] == r[i - 1];
      }
    }
  }

  /** The front record of a list with unique codes has a code the rest does
      not, and the rest has unique codes. */
  lemma UniqueConsElim(x: Student, r: seq<Student>)
    requires UniqueCodes([x] + r)
    ensures UniqueCodes(r) && forall y :: y in r ==> y.code != x.code
  {
    var xr := [x] + r;
    forall i, j | 0 <= i < j < |r| ensures r[i].code != r[j].code {
      assert xr[i + 1] == r[i] && xr[j + 1] == r[j];
    }
    assert xr[0] == x;
    forall i | 0 <= i < |r| ensures r[i].code != x.code {
      assert xr[i + 1] == r[i];
    }
  }

  /** A record whose code is new can go at the end of a list with unique
      codes. */
  lemma UniqueAppend(r: seq<Student>, x: Student)
    requires UniqueCodes(r) && !HasCode(r, x.code)
    ensures UniqueCodes(r + [x])
  {
    var rx := r + [x];
    forall i, j | 0 <= i < j < |rx| ensures rx[i].code != rx[j].code {
      assert rx[i] == r[i];
      if j < |r| {
        assert rx[j] == r[j];
      }
    }
  }

  /** Inserting a record whose code is new keeps codes unique. */
  lemma {:induction false} InsertUnique(x: Student, r: seq<Student>, ascending: bool)
    requires UniqueCodes([x] + r)
    ensures UniqueCodes(Insert(x, r, ascending))
  {
    if |r| > 0 && Before(r[0], x, ascending) {
      var r0, r1 := r[0], r[1..];
      assert r == [r0] + r1;
      UniqueConsElim(x, r);
      UniqueConsElim(r0, r1);
      UniqueConsIntro(x, r1);
      InsertUnique(x, r1, ascending);
      var tail := Insert(x, r1, ascending);
      InsertPermutes(x, r1, ascending);
      forall y | y in tail ensures y.code != r0.code {
        assert y in multiset(tail);
      }
      UniqueConsIntro(r0, tail);
    }
  }

  /** Python's `list.sort` by percentage, `reverse` meaning descending: a
      stable insertion sort. Its result is a permutation of the roster. */
  function StableSort(s: seq<Student>, ascending: bool): (r: seq<Student>)
    ensures multiset(r) == multiset(s)
  {
    if |s| == 0 then []
    else
      assert s == [s[0]] + s[1..];
      InsertPermutes(s[0], StableSort(s[1..], ascending), ascending);
      Insert(s[0], StableSort(s[1..], ascending), ascending)
  }

  /** The sorted roster is in the requested order. */
  lemma {:induction false} SortIsSorted(s: seq<Student>, ascending: bool)
    ensures SortedBy(StableSort(s, ascending), ascending)
  {
    if |s| > 0 {
      SortIsSorted(s[1..], ascending);
      InsertSorted(s[0], StableSort(s[1..], ascending), ascending);
    }
  }

  /** Stability: the records of any one percentage appear in the sorted
      roster in the order they had before. */
  lemma {:induction false} SortIsStable(s: seq<Student>, ascending: bool, p: real)
    ensures WithPercent(StableSort(s, ascending), p) == WithPercent(s, p)
  {
    if |s| > 0 {
      SortIsStable(s[1..], ascending, p);
      InsertWithPercent(s[0], StableSort(s[1..], ascending), ascending, p);
    }
  }

  /** Sorting keeps codes unique. */
  lemma {:induction false} SortKeepsUnique(s: seq<Student>, ascending: bool)
    requires UniqueCodes(s)
    ensures UniqueCodes(StableSort(s, ascending))
  {
    if |s| > 0 {
      var rest := StableSort(s[1..], ascending);
      assert UniqueCodes(s[1..]);
      SortKeepsUnique(s[1..], ascending);
      UniqueConsElim(s[0], s[1..]);
      forall y | y in rest ensures y.code != s[0].code {
        assert y in multiset(s[1..]);
      }
      UniqueConsIntro(s[0], rest);
      InsertUnique(s[0], rest, ascending);
    }
  }

  /** Sorting a list that is already in order leaves it as it is. */
  lemma {:induction false} SortSorted(s: seq<Student>, ascending: bool)
    requires SortedBy(s, ascending)
    ensures StableSort(s, ascending) == s
  {
    if |s| > 0 {
      var rest := s[1..];
      assert SortedBy(rest, ascending) by {
        forall i, j | 0 <= i < j < |rest| ensures !Before(rest[j], rest[i], ascending) {
          assert rest[i] == s[i + 1] && rest[j] == s[j + 1];
        }
      }
      SortSorted(rest, ascending);
      assert StableSort(s, ascending) == Insert(s[0], rest, ascending);
      if |rest| > 0 {
        assert !Before(rest[0], s[0], ascending) by {
          assert rest[0] == s[1];
        }
      }
      assert [s[0]] + rest == s;
    }
  }

  /** Sorting twice in the same direction is the same as sorting once. */
  lemma SortIdempotent(s: seq<Student>, ascending: bool)
    ensures StableSort(StableSort(s, ascending), ascending) == StableSort(s, ascending)
  {
    SortIsSorted(s, ascending);
    SortSorted(StableSort(s, ascending), ascending);
  }

  // ---------------------------------------------------------------------
  // Editing

  /** `[x for x in s if x.code != code]`. */
  function RemoveCode(s: seq<Student>, code: int): (r: seq<Student>)
    ensures |r| <= |s|
  {
    if |s| == 0 then []
    else
      var init := RemoveCode(s[..|s| - 1], code);
      var last := s[|s| - 1];
      if last.code != code then init + [last] else init
  }

  /** Deleting removes every record with the code and only those, and keeps
      codes unique. */
  lemma {:induction false} RemoveCodeExactly(s: seq<Student>, code: int)
    ensures !HasCode(RemoveCode(s, code), code)
    ensures forall x :: x in RemoveCode(s, code) ==> x in s
    ensures forall i :: 0 <= i < |s| && s[i].code != code ==> s[i] in RemoveCode(s, code)
    ensures UniqueCodes(s) ==> UniqueCodes(RemoveCode(s, code))
  {
    if |s| > 0 {
      var init, last := s[..|s| - 1], s[|s| - 1];
      RemoveCodeExactly(init, code);
      var ri := RemoveCode(init, code);
      assert forall i :: 0 <= i < |init| ==> init[i] == s[i];
      if last.code != code {
        assert RemoveCode(s, code) == ri + [last];
        if UniqueCodes(s) {
          forall j | 0 <= j < |ri| ensures ri[j].code != last.code {
            assert ri[j] in init;
          }
          UniqueAppend(ri, last);
        }
      } else {
        assert RemoveCode(s, code) == ri;
      }
    }
  }

  /** Removing keeps the remaining records in their relative order: it
      works piece by piece over a concatenation. */
  lemma {:induction false} RemoveCodeAppend(a: seq<Student>, b: seq<Student>, code: int)
    ensures RemoveCode(a + b, code) == RemoveCode(a, code) + RemoveCode(b, code)
    decreases |b|
  {
    if |b| > 0 {
      var b' := b[..|b| - 1];
      assert (a + b)[..|a + b| - 1] == a + b';
      RemoveCodeAppend(a, b', code);
    } else {
      assert a + b == a;
    }
  }

  /** Removing an absent code changes nothing. */
  lemma {:induction false} RemoveAbsentCode(s: seq<Student>, code: int)
    requires !HasCode(s, code)
    ensures RemoveCode(s, code) == s
  {
    if |s| > 0 {
      var init, last := s[..|s| - 1], s[|s| - 1];
      assert !HasCode(init, code) by {
        forall i | 0 <= i < |init| ensures init[i].code != code {
          assert init[i] == s[i];
        }
      }
      RemoveAbsentCode(init, code);
      assert last.code != code;
      assert RemoveCode(s, code) == RemoveCode(init, code) + [last];
      assert init + [last] == s;
    }
  }

  /** The update loop: the first record with `oldCode` is replaced by `x`
      in place; without one, nothing changes. Codes stay unique when the new
      code is the old one or is not in use. */
  function ReplaceFirst(s: seq<Student>, oldCode: int, x: Student): (r: seq<Student>)
    ensures |r| == |s|
    ensures !HasCode(s, oldCode) ==> r == s
    ensures HasCode(s, oldCode) ==>
      var k := IndexOfCode(s, oldCode);
      r[k] == x && forall j :: 0 <= j < |s| && j != k ==> r[j] == s[j]
  {
    var k := IndexOfCode(s, oldCode);
    if k < 0 then s else s[k := x]
  }

  /** Replacing keeps codes unique when the new code is the old one or is
      not in use. */
  lemma ReplaceKeepsUnique(s: seq<Student>, oldCode: int, x: Student)
    requires UniqueCodes(s) && (x.code == oldCode || !HasCode(s, x.code))
    ensures UniqueCodes(ReplaceFirst(s, oldCode, x))
  {
    var r := ReplaceFirst(s, oldCode, x);
    if HasCode(s, oldCode) {
      var k := IndexOfCode(s, oldCode);
      forall i, j | 0 <= i < j < |r| ensures r[i].code != r[j].code {
        if i == k {
          assert r[j] == s[j];
        } else if j == k {
          assert r[i] == s[i];
        }
      }
    }
  }

  /** What an edit action reports. */
  datatype EditResult = Saved | DuplicateCode | NoRecords

  /** The student manager's roster and its data file (`None` while there is
      no file). */
  class StudentStore {
    var students: seq<Student>
    var dataFile: Option<seq<string>>

    /** Startup: the roster is whatever `load_students` reads. */
    constructor (file: Option<seq<string>>)
      ensures dataFile == file
      ensures file.None? ==> students == []
      ensures file.Some? ==> students == Parse(file.value)
    {
      var rows := LoadStudents(file);
      students := rows;
      dataFile := file;
    }

    /** `save_students`: the file is rewritten with the current roster, and
      reads back as that roster while its names are clean. */
    method Save()
      modifies this`dataFile
      ensures dataFile == Some(SaveLines(students))
      ensures (forall i :: 0 <= i < |students| ==> CleanName(students[i].name)) ==> Parse(dataFile.value) == students
    {
      dataFile := Some(SaveLines(students));
      if forall i :: 0 <= i < |students| ==> CleanName(students[i].name) {
        LoadAfterSave(students);
      }
    }

    /** "View individual": nothing for an empty roster or an empty query;
      otherwise the search for the stripped lower-cased query. */
    method FindStudents(query: string) returns (found: seq<Student>)
      ensures students == [] || query == [] ==> found == []
      ensures students != [] && query != [] ==>
        var q := Lower(Strip(query));
        if CodeHit(students, q) then found == [students[IndexOfCode(students, DigitsValue(q))]]
        else found == MatchingNames(students, q)
    {
      if students == [] || query == [] {
        return [];
      }
      found := Search(students, Lower(Strip(query)));
    }

    /** "Show highest": the first record with the highest total. */
    method Highest() returns (best: Option<Student>)
      ensures best.None? <==> students == []
      ensures best.Some? ==> exists k :: IsFirstHighest(students, k) && students[k] == best.value
    {
      if students == [] {
        return None;
      }
      var k := 0;
      var i := 1;
      while i < |students|
        invariant 1 <= i <= |students|
        invariant 0 <= k < i
        invariant forall j :: 0 <= j < i ==> students[j].Total() <= students[k].Total()
        invariant forall j :: 0 <= j < k ==> students[j].Total() < students[k].Total()
      {
        if students[i].Total() > students[k].Total() {
          k := i;
        }
        i := i + 1;
      }
      best := Some(students[k]);
    }

    /** "Show lowest": the first record with the lowest total. */
    method Lowest() returns (worst: Option<Student>)
      ensures worst.None? <==> students == []
      ensures worst.Some? ==> exists k :: IsFirstLowest(students, k) && students[k] == worst.value
    {
      if students == [] {
        return None;
      }
      var k := 0;
      var i := 1;
      while i < |students|
        invariant 1 <= i <= |students|
        invariant 0 <= k < i
        invariant forall j :: 0 <= j < i ==> students[k].Total() <= students[j].Total()
        invariant forall j :: 0 <= j < k ==> students[k].Total() < students[j].Total()
      {
        if students[i].Total() < students[k].Total() {
          k := i;
        }
        i := i + 1;
      }
      worst := Some(students[k]);
    }

    /** "Sort": the roster is stably sorted by percentage in place. The data
      file is not rewritten. */
    method SortByPercent(ascending: bool)
      modifies this`students
      ensures students == StableSort(old(students), ascending)
    {
      if students == [] {
        return;
      }
      students := StableSort(students, ascending);
    }

    /** "Add": rejected when the code is taken, otherwise appended at the
      end and saved. */
    method AddStudent(s: Student) returns (result: EditResult)
      modifies this
      ensures result != NoRecords
      ensures result == DuplicateCode <==> HasCode(old(students), s.code)
      ensures result == DuplicateCode ==> students == old(students) && dataFile == old(dataFile)
      ensures result == Saved ==> students == old(students) + [s] && dataFile == Some(SaveLines(students))
      ensures UniqueCodes(old(students)) ==> UniqueCodes(students)
    {
      if HasCode(students, s.code) {
        return DuplicateCode;
      }
      if UniqueCodes(students) {
        UniqueAppend(students, s);
      }
      students := students + [s];
      Save();
      result := Saved;
    }

    /** "Delete": every record with the code is removed, the rest keep their
      order, and the file is saved. An empty roster offers nothing to delete. */
    method DeleteStudent(code: int) returns (result: EditResult)
      modifies this
      ensures old(students) == [] ==> result == NoRecords && students == old(students) && dataFile == old(dataFile)
      ensures old(students) != [] ==> result == Saved
      ensures result == Saved ==> students == RemoveCode(old(students), code) && dataFile == Some(SaveLines(students))
      ensures UniqueCodes(old(students)) ==> UniqueCodes(students)
    {
      if students == [] {
        return NoRecords;
      }
      RemoveCodeExactly(students, code);
      students := RemoveCode(students, code);
      Save();
      result := Saved;
    }

    /** "Update": rejected when the edited code differs from the old one and
      is taken; otherwise the first record with the old code is replaced in
      place and the file is saved. An empty roster offers nothing to update. */
    method UpdateStudent(oldCode: int, s: Student) returns (result: EditResult)
      modifies this
      ensures old(students) == [] ==> result == NoRecords
      ensures old(students) != [] ==> result != NoRecords
      ensures old(students) != [] ==> (result == DuplicateCode <==> s.code != oldCode && HasCode(old(students), s.code))
      ensures result != Saved ==> students == old(students) && dataFile == old(dataFile)
      ensures result == Saved ==> students == ReplaceFirst(old(students), oldCode, s) && dataFile == Some(SaveLines(students))
      ensures UniqueCodes(old(students)) ==> UniqueCodes(students)
    {
      if students == [] {
        return NoRecords;
      }
      if s.code != oldCode && HasCode(students, s.code) {
        return DuplicateCode;
      }
      var i := 0;
      while i < |students| && students[i].code != oldCode
        invariant 0 <= i <= |students|
        invariant forall j :: 0 <= j < i ==> students[j].code != oldCode
      {
        i := i + 1;
      }
      ghost var before := students;
      if UniqueCodes(before) {
        ReplaceKeepsUnique(before, oldCode, s);
      }
      if i < |students| {
        assert i == IndexOfCode(before, oldCode);
        students := students[i := s];
      } else {
        assert !HasCode(before, oldCode);
      }
      assert students == ReplaceFirst(before, oldCode, s);
      Save();
      result := Saved;
    }
  }
}
