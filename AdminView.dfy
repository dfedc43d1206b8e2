/** The read-only projections of the admin page: the student roster and the
    attendance overview narrowed by the filter record, and the option lists
    of the year and branch selectors.  They are recomputed from the current
    roster, overview and filters and change nothing. */
module AdminView {
  import opened JsText
  import opened Lists

  /** One roster row as the roster endpoint returns it.  `year` is held in its
      string form, which is all the filter compares. */
  datatype Student = Student(rollNo: int, name: string, branch: string, year: string)

  /** One row of the attendance overview.  The percentage is computed by the
      attendance service; here it is only compared with the threshold. */
  datatype AttendanceRecord = AttendanceRecord(
    rollNo: int,
    totalClasses: int,
    presentCount: int,
    attendancePercentage: real)

  /** The filter record of the admin page. */
  datatype Filters = Filters(name: string, year: string, branch: string, rollNo: string, below75: bool)

  /** The value that matches every year or every branch in the selectors. */
  const All: string := "all"

  /** The attendance percentage below which a record is flagged. */
  const Threshold: real := 75.0

  /** The filter record on page load and after a reset. */
  const DefaultFilters: Filters := Filters("", All, All, "", false)

  // ---------------------------------------------------------------------
  // The student roster

  predicate NameMatch(f: Filters, s: Student) {
    Contains(Lower(s.name), Lower(f.name))
  }

  predicate YearMatch(f: Filters, s: Student) {
    f.year == All || s.year == f.year
  }

  predicate BranchMatch(f: Filters, s: Student) {
    f.branch == All || s.branch == f.branch
  }

  predicate StudentMatches(f: Filters, s: Student) {
    NameMatch(f, s) && YearMatch(f, s) && BranchMatch(f, s)
  }

  function ByName(f: Filters): Student -> bool {
    s => NameMatch(f, s)
  }

  function ByYear(f: Filters): Student -> bool {
    s => YearMatch(f, s)
  }

  function ByBranch(f: Filters): Student -> bool {
    s => BranchMatch(f, s)
  }

  function ByStudentFilters(f: Filters): Student -> bool {
    s => StudentMatches(f, s)
  }

  /** The roster rows the student table shows under filters `f`. */
  function FilteredStudents(students: seq<Student>, f: Filters): (r: seq<Student>)
    ensures |r| <= |students|
    ensures IsSubsequence(r, students)
    ensures forall s :: s in r <==>
      && s in students
      && Contains(Lower(s.name), Lower(f.name))
      && (f.year == All || s.year == f.year)
      && (f.branch == All || s.branch == f.branch)
    ensures forall s :: multiset(r)[s] == if StudentMatches(f, s) then multiset(students)[s] else 0
  {
    FilterIsSubsequence(ByStudentFilters(f), students);
    Filter(ByStudentFilters(f), students)
  }

  /** With the name box empty and both selectors on "all", the table shows
      the whole roster in its original order. */
  lemma UnfilteredRoster(students: seq<Student>, f: Filters)
    requires f.name == "" && f.year == All && f.branch == All
    ensures FilteredStudents(students, f) == students
  {
    forall s | s in students ensures StudentMatches(f, s) {
      ContainsEmpty(Lower(s.name));
    }
    FilterKeepsAll(ByStudentFilters(f), students);
  }

  /** Typing the name query in a different letter case shows the same rows. */
  lemma NameQueryIgnoresCase(students: seq<Student>, f: Filters, query: string)
    requires SameUpToCase(f.name, query)
    ensures FilteredStudents(students, f.(name := query)) == FilteredStudents(students, f)
  {
    LowerIgnoresCase(f.name, query);
    FilterCongruent(ByStudentFilters(f.(name := query)), ByStudentFilters(f), students);
  }

  /** The three criteria compose: narrowing by name, then by year, then by
      branch gives the same rows, in the same order, as narrowing once. */
  lemma StudentCriteriaCompose(students: seq<Student>, f: Filters)
    ensures Filter(ByBranch(f), Filter(ByYear(f), Filter(ByName(f), students)))
         == FilteredStudents(students, f)
  {
    FilterFuse(ByName(f), ByYear(f), students);
    FilterFuse(Both(ByName(f), ByYear(f)), ByBranch(f), students);
    FilterCongruent(Both(Both(ByName(f), ByYear(f)), ByBranch(f)), ByStudentFilters(f), students);
  }

  // ---------------------------------------------------------------------
  // The attendance overview

  predicate RollNoMatch(f: Filters, r: AttendanceRecord) {
    f.rollNo == "" || Contains(IntToString(r.rollNo), f.rollNo)
  }

  predicate PercentageMatch(f: Filters, r: AttendanceRecord) {
    !f.below75 || r.attendancePercentage < Threshold
  }

  predicate RecordMatches(f: Filters, r: AttendanceRecord) {
    RollNoMatch(f, r) && PercentageMatch(f, r)
  }

  function ByRecordFilters(f: Filters): AttendanceRecord -> bool {
    a => RecordMatches(f, a)
  }

  /** The overview rows the attendance table shows under filters `f`. */
  function FilteredAttendance(records: seq<AttendanceRecord>, f: Filters): (r: seq<AttendanceRecord>)
    ensures |r| <= |records|
    ensures IsSubsequence(r, records)
    ensures forall a :: a in r <==>
      && a in records
      && (f.rollNo == "" || Contains(IntToString(a.rollNo), f.rollNo))
      && (!f.below75 || a.attendancePercentage < Threshold)
    ensures forall a :: multiset(r)[a] == if RecordMatches(f, a) then multiset(records)[a] else 0
  {
    FilterIsSubsequence(ByRecordFilters(f), records);
    Filter(ByRecordFilters(f), records)
  }

  /** With the "below 75%" box ticked, every row shown is below the threshold,
      and every row below the threshold whose roll number matches is shown. */
  lemma Below75Exact(records: seq<AttendanceRecord>, f: Filters)
    requires f.below75
    ensures forall a :: a in FilteredAttendance(records, f) ==> a.attendancePercentage < Threshold
    ensures forall a :: a in records && a.attendancePercentage < Threshold && RollNoMatch(f, a) ==>
      a in FilteredAttendance(records, f)
  {
  }

  /** The test for an empty roll-number query is a shortcut: the empty query
      occurs in every printed roll number anyway. */
  lemma RollNoShortcutRedundant(f: Filters, a: AttendanceRecord)
    ensures RollNoMatch(f, a) <==> Contains(IntToString(a.rollNo), f.rollNo)
  {
    if f.rollNo == "" {
      ContainsEmpty(IntToString(a.rollNo));
    }
  }

  /** Typing a student's full roll number keeps that student's row (unless the
      threshold box hides it), and keeps no row of a roll number printed the same. */
  lemma FullRollNoQueryKeepsRecord(records: seq<AttendanceRecord>, f: Filters, a: AttendanceRecord)
    requires a in records && f.rollNo == IntToString(a.rollNo) && !f.below75
    ensures a in FilteredAttendance(records, f)
  {
    ContainsSelf(IntToString(a.rollNo));
  }

  /** With the default filters the overview is shown whole and in order. */
  lemma UnfilteredOverview(records: seq<AttendanceRecord>, f: Filters)
    requires f.rollNo == "" && !f.below75
    ensures FilteredAttendance(records, f) == records
  {
    FilterKeepsAll(ByRecordFilters(f), records);
  }

  /** The filter record the page starts with and returns to on a reset hides
      nothing: both tables show all their rows, in order. */
  lemma DefaultFiltersShowEverything(students: seq<Student>, records: seq<AttendanceRecord>)
    ensures FilteredStudents(students, DefaultFilters) == students
    ensures FilteredAttendance(records, DefaultFilters) == records
  {
    UnfilteredRoster(students, DefaultFilters);
    UnfilteredOverview(records, DefaultFilters);
  }

  // ---------------------------------------------------------------------
  // Selector options

  /** `students.map(s => s.year)`: the year of every roster row, nothing else. */
  function Years(students: seq<Student>): (r: seq<string>)
    ensures |r| == |students|
    ensures forall y :: y in r <==> exists s :: s in students && s.year == y
  {
    var r := seq(|students|, i requires 0 <= i < |students| => students[i].year);
    assert forall y :: y in r <==> exists s :: s in students && s.year == y by {
      forall y ensures y in r <==> exists s :: s in students && s.year == y {
        if y in r {
          var i :| 0 <= i < |r| && r[i] == y;
          assert students[i] in students;
        }
        if s :| s in students && s.year == y {
          var i :| 0 <= i < |students| && students[i] == s;
          assert r[i] == y;
        }
      }
    }
    r
  }

  /** `students.map(s => s.branch)`: the branch of every roster row, nothing else. */
  function Branches(students: seq<Student>): (r: seq<string>)
    ensures |r| == |students|
    ensures forall b :: b in r <==> exists s :: s in students && s.branch == b
  {
    var r := seq(|students|, i requires 0 <= i < |students| => students[i].branch);
    assert forall b :: b in r <==> exists s :: s in students && s.branch == b by {
      forall b ensures b in r <==> exists s :: s in students && s.branch == b {
        if b in r {
          var i :| 0 <= i < |r| && r[i] == b;
          assert students[i] in students;
        }
        if s :| s in students && s.branch == b {
          var i :| 0 <= i < |students| && students[i] == s;
          assert r[i] == b;
        }
      }
    }
    r
  }

  /** The options of the year selector: every year of the roster, once, in
      ascending order. */
  function UniqueYears(students: seq<Student>): (r: seq<string>)
    ensures Distinct(r)
    ensures StrictlySorted(r)
    ensures forall y :: y in r <==> exists s :: s in students && s.year == y
  {
    SortedDistinct(Years(students))
  }

  /** The options of the branch selector: every branch of the roster, once,
      in ascending order. */
  function UniqueBranches(students: seq<Student>): (r: seq<string>)
    ensures Distinct(r)
    ensures StrictlySorted(r)
    ensures forall b :: b in r <==> exists s :: s in students && s.branch == b
  {
    SortedDistinct(Branches(students))
  }

  /** The year options depend only on which years occur, not on the order or
      multiplicity of the roster rows. */
  lemma UniqueYearsDependOnlyOnYearSet(a: seq<Student>, b: seq<Student>)
    requires (set s | s in a :: s.year) == (set s | s in b :: s.year)
    ensures UniqueYears(a) == UniqueYears(b)
  {
    var ya, yb := set s | s in a :: s.year, set s | s in b :: s.year;
    forall y ensures y in UniqueYears(a) <==> y in UniqueYears(b) {
      if s :| s in a && s.year == y {
        assert y in ya;
        assert y in yb;
      }
      if t :| t in b && t.year == y {
        assert y in yb;
        assert y in ya;
      }
    }
    StrictlySortedUnique(UniqueYears(a), UniqueYears(b));
  }
}
