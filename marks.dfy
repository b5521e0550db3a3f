/**
 * Marks entry: the admin marks sheet with absent and exempted flags, the
 * teacher marks sheet graded from a band table on the percentage, and the
 * overall grade a student sees. Marks are exact reals here; the parsing of
 * the text typed into a cell is not part of this model, so a change carries
 * both the text and the number it parses to.
 */
module Marks {
  import opened Common

  // -----------------------------------------------------------------------
  // The admin marks sheet

  /** The grades of the admin sheet, best first. */
  const SheetGrades: seq<string> := ["A1", "A+", "A", "B+", "B", "C", "D", "F"]

  /** The lowest mark of each grade but the last, best first. */
  const SheetThresholds: seq<real> := [90.0, 80.0, 70.0, 60.0, 50.0, 40.0, 35.0]

  /** `calculateGrade` of the admin sheet. */
  function SheetGrade(m: real): (g: string)
    ensures g in SheetGrades
    ensures forall i | 0 <= i < 7 :: g == SheetGrades[i] <==> m >= SheetThresholds[i] && (i == 0 || m < SheetThresholds[i - 1])
    ensures g == "F" <==> m < 35.0
  {
    if m >= 90.0 then "A1"
    else if m >= 80.0 then "A+"
    else if m >= 70.0 then "A"
    else if m >= 60.0 then "B+"
    else if m >= 50.0 then "B"
    else if m >= 40.0 then "C"
    else if m >= 35.0 then "D"
    else "F"
  }

  /** Position of a grade in `SheetGrades`: 0 is the best. */
  function SheetRank(g: string): nat {
    if g == "A1" then 0 else if g == "A+" then 1 else if g == "A" then 2 else if g == "B+" then 3
    else if g == "B" then 4 else if g == "C" then 5 else if g == "D" then 6 else 7
  }

  /** More marks never give a worse grade. */
  lemma SheetGradeMonotone(a: real, b: real)
    requires a <= b
    ensures SheetRank(SheetGrade(b)) <= SheetRank(SheetGrade(a))
  {
  }

  datatype MarkRow = MarkRow(
    id: string, rollNumber: string, name: string, marks: string, grade: string,
    absent: bool, exempted: bool, remarks: string)

  /** One `updateStudent(id, field, value)`; a marks change carries the number its text parses to. */
  datatype MarkUpdate =
    | SetMarks(text: string, value: real)
    | SetAbsent(flag: bool)
    | SetExempted(flag: bool)
    | SetRemarks(text: string)

  /** Neither absent nor exempted at once. */
  predicate Exclusive(s: MarkRow) {
    !(s.absent && s.exempted)
  }

  /** The row after one update: the field is set, then the grade and the clearing rules apply. */
  function Updated(s: MarkRow, u: MarkUpdate): (r: MarkRow)
    ensures r.id == s.id && r.rollNumber == s.rollNumber && r.name == s.name
    ensures u.SetMarks? ==> r.marks == u.text && r.absent == s.absent && r.exempted == s.exempted
    ensures u.SetMarks? && u.text != [] && !s.absent && !s.exempted ==> r.grade == SheetGrade(u.value)
    ensures u.SetMarks? && (u.text == [] || s.absent || s.exempted) ==> r.grade == s.grade
    ensures u.SetAbsent? && u.flag ==> r.absent && !r.exempted && r.marks == [] && r.grade == []
    ensures u.SetExempted? && u.flag ==> r.exempted && !r.absent && r.marks == [] && r.grade == []
    ensures u.SetAbsent? && !u.flag ==> r == s.(absent := false)
    ensures u.SetExempted? && !u.flag ==> r == s.(exempted := false)
    ensures u.SetRemarks? ==> r == s.(remarks := u.text)
    ensures Exclusive(s) ==> Exclusive(r)
  {
    match u
    case SetMarks(text, value) =>
      if text != [] && !s.absent && !s.exempted then s.(marks := text, grade := SheetGrade(value)) else s.(marks := text)
    case SetAbsent(flag) =>
      if flag then s.(absent := true, marks := "", grade := "", exempted := false) else s.(absent := false)
    case SetExempted(flag) =>
      if flag then s.(exempted := true, marks := "", grade := "", absent := false) else s.(exempted := false)
    case SetRemarks(text) => s.(remarks := text)
  }

  /** The body of the `updateStudent` callback: copy the row, set the field, then adjust the copy. */
  method UpdateRecord(s: MarkRow, u: MarkUpdate) returns (updated: MarkRow)
    ensures updated == Updated(s, u)
  {
    updated := s;
    match u {
      case SetMarks(text, _) => updated := updated.(marks := text);
      case SetAbsent(flag) => updated := updated.(absent := flag);
      case SetExempted(flag) => updated := updated.(exempted := flag);
      case SetRemarks(text) => updated := updated.(remarks := text);
    }
    if u.SetMarks? && u.text != [] && !updated.absent && !updated.exempted {
      updated := updated.(grade := SheetGrade(u.value));
    }
    if u.SetAbsent? && u.flag {
      updated := updated.(marks := "", grade := "", exempted := false);
    }
    if u.SetExempted? && u.flag {
      updated := updated.(marks := "", grade := "", absent := false);
    }
  }

  /** No row of the sheet is both absent and exempted. */
  predicate AllExclusive(rows: seq<MarkRow>) {
    forall k | 0 <= k < |rows| :: Exclusive(rows[k])
  }

  class MarksSheet {
    var students: seq<MarkRow>

    constructor(initial: seq<MarkRow>)
      ensures students == initial
    {
      students := initial;
    }

    /** `updateStudent`: the rows with that id get the update, the others stay as they were. */
    method UpdateStudent(id: string, u: MarkUpdate)
      modifies this
      ensures |students| == |old(students)|
      ensures forall k | 0 <= k < |students| ::
                students[k] == if old(students)[k].id == id then Updated(old(students)[k], u) else old(students)[k]
      ensures AllExclusive(old(students)) ==> AllExclusive(students)
    {
      var i := 0;
      while i < |students|
        invariant 0 <= i <= |students| == |old(students)|
        invariant forall k | 0 <= k < i ::
                    students[k] == if old(students)[k].id == id then Updated(old(students)[k], u) else old(students)[k]
        invariant students[i..] == old(students)[i..]
      {
        if students[i].id == id {
          var updated := UpdateRecord(students[i], u);
          students := students[i := updated];
        }
        assert students[i + 1..] == old(students)[i + 1..] by {
          assert old(students)[i + 1..] == old(students)[i..][1..];
        }
        i := i + 1;
      }
    }
  }

  /** The marks are in, and the student sits the exam. */
  predicate IsEntered(s: MarkRow) { s.marks != [] && !s.absent && !s.exempted }

  /** No marks yet, and the student sits the exam. */
  predicate IsPending(s: MarkRow) { s.marks == [] && !s.absent && !s.exempted }

  /** The `stats` counts, one filter each. */
  function Entered(rows: seq<MarkRow>): nat {
    if rows == [] then 0 else (if IsEntered(rows[0]) then 1 else 0) + Entered(rows[1..])
  }

  function Absent(rows: seq<MarkRow>): nat {
    if rows == [] then 0 else (if rows[0].absent then 1 else 0) + Absent(rows[1..])
  }

  function Exempted(rows: seq<MarkRow>): nat {
    if rows == [] then 0 else (if rows[0].exempted then 1 else 0) + Exempted(rows[1..])
  }

  function Pending(rows: seq<MarkRow>): nat {
    if rows == [] then 0 else (if IsPending(rows[0]) then 1 else 0) + Pending(rows[1..])
  }

  /** With the flags exclusive, every row is counted exactly once. */
  lemma {:induction false} StatsPartition(rows: seq<MarkRow>)
    requires AllExclusive(rows)
    ensures Entered(rows) + Absent(rows) + Exempted(rows) + Pending(rows) == |rows|
  {
    if rows != [] {
      assert Exclusive(rows[0]);
      assert AllExclusive(rows[1..]) by {
        forall k | 0 <= k < |rows| - 1
          ensures Exclusive(rows[1..][k])
        {
          assert rows[1..][k] == rows[k + 1];
        }
      }
      StatsPartition(rows[1..]);
    }
  }

  // -----------------------------------------------------------------------
  // The teacher marks sheet

  datatype Band = Band(min: int, max: int, grade: string, gp: int)

  /** `gradeMapping`, best first. */
  const GradeMapping: seq<Band> := [
    Band(91, 100, "A1", 10), Band(81, 90, "A2", 9), Band(71, 80, "B1", 8), Band(61, 70, "B2", 7),
    Band(51, 60, "C1", 6), Band(41, 50, "C2", 5), Band(33, 40, "D", 4), Band(0, 32, "E", 0)]

  predicate InBand(b: Band, p: real) {
    b.min as real <= p <= b.max as real
  }

  /** `gradeMapping.find(g => percentage >= g.min && percentage <= g.max)`. */
  function FindBand(bands: seq<Band>, p: real): (r: Option<nat>)
    ensures r.Some? ==> r.value < |bands| && InBand(bands[r.value], p)
    ensures r.Some? ==> forall j | 0 <= j < r.value :: !InBand(bands[j], p)
    ensures r.None? ==> forall j | 0 <= j < |bands| :: !InBand(bands[j], p)
  {
    if bands == [] then None
    else if InBand(bands[0], p) then Some(0)
    else
      var r := FindBand(bands[1..], p);
      if r.Some? then Some(r.value + 1) else None
  }

  /** `calculateGrade` of the teacher sheet; with no maximum the percentage is not a number and no band matches. */
  function TeacherGrade(marks: Option<real>, maxMarks: nat): (g: string)
    ensures marks.None? || maxMarks == 0 ==> g == "-"
  {
    if marks.None? || maxMarks == 0 then "-"
    else
      var i := FindBand(GradeMapping, marks.value * 100.0 / maxMarks as real);
      if i.Some? then GradeMapping[i.value].grade else "-"
  }

  /** The percentages strictly between two bands of the table, or outside it. */
  predicate Unbanded(p: real) {
    p < 0.0 || p > 100.0 || (32.0 < p < 33.0) || (40.0 < p < 41.0) || (50.0 < p < 51.0)
    || (60.0 < p < 61.0) || (70.0 < p < 71.0) || (80.0 < p < 81.0) || (90.0 < p < 91.0)
  }

  /** The table finds a band exactly for the percentages that are not between bands. */
  lemma FindBandGaps(p: real)
    ensures FindBand(GradeMapping, p).None? <==> Unbanded(p)
  {
    var bs := GradeMapping;
    if !Unbanded(p) {
      assert InBand(bs[0], p) || InBand(bs[1], p) || InBand(bs[2], p) || InBand(bs[3], p)
          || InBand(bs[4], p) || InBand(bs[5], p) || InBand(bs[6], p) || InBand(bs[7], p);
    }
  }

  /** 6.5 marks out of 20 is 32.5%, which no band holds. */
  lemma GapExample()
    ensures TeacherGrade(Some(6.5), 20) == "-"
  {
    FindBandGaps(32.5);
  }

  datatype StudentMark = StudentMark(rollNo: string, studentName: string, maxMarks: nat, marksObtained: Option<real>, grade: string, remarks: string)

  /** `students.find(s => s.rollNo === rollNo)`. */
  function FindRoll(rows: seq<StudentMark>, rollNo: string): (r: Option<nat>)
    ensures r.Some? ==> r.value < |rows| && rows[r.value].rollNo == rollNo
    ensures r.Some? ==> forall j | 0 <= j < r.value :: rows[j].rollNo != rollNo
    ensures r.None? ==> forall j | 0 <= j < |rows| :: rows[j].rollNo != rollNo
  {
    if rows == [] then None
    else if rows[0].rollNo == rollNo then Some(0)
    else
      var r := FindRoll(rows[1..], rollNo);
      if r.Some? then Some(r.value + 1) else None
  }

  /** The rows with that roll number take the marks and the grade recomputed from them. */
  function WithMarks(rows: seq<StudentMark>, rollNo: string, marks: Option<real>): (r: seq<StudentMark>)
    ensures |r| == |rows|
    ensures forall k | 0 <= k < |rows| ::
              r[k] == if rows[k].rollNo == rollNo then rows[k].(marksObtained := marks, grade := TeacherGrade(marks, rows[k].maxMarks)) else rows[k]
  {
    if rows == [] then []
    else
      [if rows[0].rollNo == rollNo then rows[0].(marksObtained := marks, grade := TeacherGrade(marks, rows[0].maxMarks)) else rows[0]]
      + WithMarks(rows[1..], rollNo, marks)
  }

  /** The rows with that roll number take the remarks; marks and grades stay. */
  function WithRemarks(rows: seq<StudentMark>, rollNo: string, remarks: string): (r: seq<StudentMark>)
    ensures |r| == |rows|
    ensures forall k | 0 <= k < |rows| ::
              r[k] == if rows[k].rollNo == rollNo then rows[k].(remarks := remarks) else rows[k]
  {
    if rows == [] then []
    else [if rows[0].rollNo == rollNo then rows[0].(remarks := remarks) else rows[0]] + WithRemarks(rows[1..], rollNo, remarks)
  }

  /** Rows whose marks are still missing. */
  function MissingMarks(rows: seq<StudentMark>): (n: nat)
    ensures n <= |rows|
    ensures n == 0 <==> forall k | 0 <= k < |rows| :: rows[k].marksObtained.Some?
  {
    if rows == [] then 0 else (if rows[0].marksObtained.None? then 1 else 0) + MissingMarks(rows[1..])
  }

  /** A remarks change never makes marks go missing or appear, so it cannot unblock or block a submit. */
  lemma {:induction false} RemarksKeepMissing(rows: seq<StudentMark>, rollNo: string, remarks: string)
    ensures MissingMarks(WithRemarks(rows, rollNo, remarks)) == MissingMarks(rows)
  {
    if rows != [] {
      var r := WithRemarks(rows, rollNo, remarks);
      assert r[1..] == WithRemarks(rows[1..], rollNo, remarks);
      RemarksKeepMissing(rows[1..], rollNo, remarks);
    }
  }

  /** Whether `handleMarksChange` takes the value: not above the first matching row's maximum, not negative. */
  predicate MarksAccepted(rows: seq<StudentMark>, rollNo: string, marks: Option<real>) {
    var found := FindRoll(rows, rollNo);
    !(found.Some? && marks.Some? && marks.value > rows[found.value].maxMarks as real)
    && !(marks.Some? && marks.value < 0.0)
  }

  class TeacherMarksSheet {
    var students: seq<StudentMark>
    var isDraft: bool
    var showSubmitDialog: bool

    constructor(initial: seq<StudentMark>)
      ensures students == initial && isDraft && !showSubmitDialog
    {
      students := initial;
      isDraft := true;
      showSubmitDialog := false;
    }

    /** `handleMarksChange`; the empty text is `None`, any other the number it parses to. */
    method HandleMarksChange(rollNo: string, marks: Option<real>) returns (accepted: bool)
      modifies this
      ensures accepted == MarksAccepted(old(students), rollNo, marks)
      ensures students == if accepted then WithMarks(old(students), rollNo, marks) else old(students)
      ensures isDraft == old(isDraft) && showSubmitDialog == old(showSubmitDialog)
    {
      var student := FindRoll(students, rollNo);
      if student.Some? && marks.Some? && marks.value > students[student.value].maxMarks as real {
        return false;
      }
      if marks.Some? && marks.value < 0.0 {
        return false;
      }
      students := WithMarks(students, rollNo, marks);
      accepted := true;
    }

    /** `handleRemarksChange`: no check at all. */
    method HandleRemarksChange(rollNo: string, remarks: string)
      modifies this
      ensures students == WithRemarks(old(students), rollNo, remarks)
      ensures isDraft == old(isDraft) && showSubmitDialog == old(showSubmitDialog)
    {
      students := WithRemarks(students, rollNo, remarks);
    }

    /** `handleSaveDraft`. */
    method HandleSaveDraft()
      modifies this
      ensures isDraft && students == old(students) && showSubmitDialog == old(showSubmitDialog)
    {
      isDraft := true;
    }

    /** `handleSubmit`: the confirmation opens only when every row has marks. */
    method HandleSubmit()
      modifies this
      ensures students == old(students) && isDraft == old(isDraft)
      ensures showSubmitDialog == if MissingMarks(students) > 0 then old(showSubmitDialog) else true
    {
      if MissingMarks(students) > 0 {
        return;
      }
      showSubmitDialog := true;
    }

    /** `confirmSubmit`. */
    method ConfirmSubmit()
      modifies this
      ensures !isDraft && !showSubmitDialog && students == old(students)
    {
      isDraft := false;
      showSubmitDialog := false;
    }
  }

  /** A change the sheet takes leaves every row in range: marks between 0 and the row's maximum. */
  lemma AcceptedMarksInRange(rows: seq<StudentMark>, rollNo: string, v: real)
    requires MarksAccepted(rows, rollNo, Some(v))
    requires forall k | 0 <= k < |rows| && rows[k].rollNo == rollNo :: rows[k].maxMarks == rows[FindRoll(rows, rollNo).value].maxMarks
    ensures forall k | 0 <= k < |rows| && rows[k].rollNo == rollNo ::
              var r := WithMarks(rows, rollNo, Some(v))[k]; 0.0 <= r.marksObtained.value <= r.maxMarks as real
  {
  }

  // -----------------------------------------------------------------------
  // The overall grade a student sees

  /** The subject's percentage, the only part the overall grade reads. */
  datatype SubjectMarks = SubjectMarks(subject: string, percentage: real)

  datatype Overall = Overall(gpa: real, grade: string, percentage: real)

  /** `marks.filter(m => m.percentage > 0)`, as percentages. */
  function Counted(marks: seq<SubjectMarks>): (r: seq<real>)
    ensures |r| <= |marks|
    ensures forall k | 0 <= k < |r| :: r[k] > 0.0
    ensures forall p :: p in r <==> exists m | m in marks :: m.percentage == p && p > 0.0
  {
    if marks == [] then []
    else if marks[0].percentage > 0.0 then [marks[0].percentage] + Counted(marks[1..])
    else Counted(marks[1..])
  }

  function Sum(ps: seq<real>): real {
    if ps == [] then 0.0 else ps[0] + Sum(ps[1..])
  }

  function MinOf(ps: seq<real>): (m: real)
    requires ps != []
    ensures m in ps && forall k | 0 <= k < |ps| :: m <= ps[k]
  {
    if |ps| == 1 then ps[0] else var t := MinOf(ps[1..]); if ps[0] <= t then ps[0] else t
  }

  function MaxOf(ps: seq<real>): (m: real)
    requires ps != []
    ensures m in ps && forall k | 0 <= k < |ps| :: ps[k] <= m
  {
    if |ps| == 1 then ps[0] else var t := MaxOf(ps[1..]); if ps[0] >= t then ps[0] else t
  }

  lemma {:induction false} SumBounds(ps: seq<real>, lo: real, hi: real)
    requires forall k | 0 <= k < |ps| :: lo <= ps[k] <= hi
    ensures |ps| as real * lo <= Sum(ps) <= |ps| as real * hi
  {
    if ps != [] {
      SumBounds(ps[1..], lo, hi);
    }
  }

  /** A sum of n values between lo and hi, divided by n, stays between lo and hi. */
  lemma DivideBetween(total: real, n: real, lo: real, hi: real)
    requires n > 0.0 && n * lo <= total <= n * hi
    ensures lo <= total / n <= hi
  {
    var avg := total / n;
    assert avg * n == total;
  }

  /** The band the code labels CBSE grading, and the grade point that goes with it. */
  function CbseGrade(avg: real): (r: (string, real))
    ensures r.0 == "E" <==> avg < 33.0
    ensures r.0 == "A1" <==> avg >= 91.0
  {
    if avg >= 91.0 then ("A1", 10.0)
    else if avg >= 81.0 then ("A2", 9.0)
    else if avg >= 71.0 then ("B1", 8.0)
    else if avg >= 61.0 then ("B2", 7.0)
    else if avg >= 51.0 then ("C1", 6.0)
    else if avg >= 41.0 then ("C2", 5.0)
    else if avg >= 33.0 then ("D", 4.0)
    else ("E", 0.0)
  }

  /** A higher average never gives a lower grade point. */
  lemma CbseGpaMonotone(a: real, b: real)
    requires a <= b
    ensures CbseGrade(a).1 <= CbseGrade(b).1
  {
  }

  /** On a percentage the teacher sheet's table grades, both tables give the same grade. */
  lemma CbseAgreesWithBands(p: real)
    requires FindBand(GradeMapping, p).Some?
    ensures CbseGrade(p).0 == GradeMapping[FindBand(GradeMapping, p).value].grade
  {
  }

  /** The mean of values between two bounds lies between them. */
  lemma MeanWithin(ps: seq<real>, lo: real, hi: real)
    requires ps != [] && forall k | 0 <= k < |ps| :: lo <= ps[k] <= hi
    ensures lo <= Sum(ps) / |ps| as real <= hi
  {
    SumBounds(ps, lo, hi);
    DivideBetween(Sum(ps), |ps| as real, lo, hi);
  }

  /** The mean of the counted percentages: between the smallest and the largest of them. */
  function Average(ps: seq<real>): (avg: real)
    requires ps != []
    ensures MinOf(ps) <= avg <= MaxOf(ps)
  {
    MeanWithin(ps, MinOf(ps), MaxOf(ps));
    Sum(ps) / |ps| as real
  }

  /** `calculateOverallGPA`. */
  function OverallGpa(marks: seq<SubjectMarks>): (r: Overall)
    ensures Counted(marks) == [] ==> r == Overall(0.0, "-", 0.0)
    ensures Counted(marks) != [] ==>
              MinOf(Counted(marks)) <= r.percentage <= MaxOf(Counted(marks))
              && (r.grade, r.gpa) == CbseGrade(r.percentage)
  {
    var valid := Counted(marks);
    if valid == [] then Overall(0.0, "-", 0.0)
    else
      var avg := Average(valid);
      var band := CbseGrade(avg);
      Overall(band.1, band.0, avg)
  }
}
