/**
 * The class gradebook and the exams grade sheet: a grid of optional grades,
 * one row per student and one column per assessment, with lock and publish
 * flags around it, and the totals and missing-cell counts computed by
 * accumulating loops. Grades are exact reals here.
 */
module Gradebook {
  import opened Common

  datatype Assessment = Assessment(id: string, name: string, maxMarks: real, weight: real)

  /** A student's row: a grade per assessment id, `None` when the cell is empty. */
  datatype StudentGrades = StudentGrades(id: string, name: string, grades: map<string, Option<real>>)

  /** The grade in a cell; a cell that is null or missing from the row has none. */
  function Cell(grades: map<string, Option<real>>, assessmentId: string): Option<real> {
    if assessmentId in grades then grades[assessmentId] else None
  }

  // -----------------------------------------------------------------------
  // Totals of one row

  /** The grades present in the row, over the assessments, summed. */
  function TotalOf(grades: map<string, Option<real>>, assessments: seq<Assessment>): real {
    if assessments == [] then 0.0
    else
      var last := Cell(grades, assessments[|assessments| - 1].id);
      TotalOf(grades, assessments[..|assessments| - 1]) + (if last.Some? then last.value else 0.0)
  }

  /** Every assessment's maximum, summed. */
  function MaxTotalOf(assessments: seq<Assessment>): real {
    if assessments == [] then 0.0 else MaxTotalOf(assessments[..|assessments| - 1]) + assessments[|assessments| - 1].maxMarks
  }

  /** How many of the assessments have a grade in the row. */
  function CompletedOf(grades: map<string, Option<real>>, assessments: seq<Assessment>): (n: nat)
    ensures n <= |assessments|
  {
    if assessments == [] then 0
    else CompletedOf(grades, assessments[..|assessments| - 1]) + (if Cell(grades, assessments[|assessments| - 1].id).Some? then 1 else 0)
  }

  /** `maxTotal > 0 ? (total / maxTotal) * 100 : 0`. */
  function Percentage(total: real, maxTotal: real): real {
    if maxTotal > 0.0 then total / maxTotal * 100.0 else 0.0
  }

  datatype Totals = Totals(total: real, maxTotal: real, percentage: real, completed: nat, totalAssessments: nat)

  /** `calculateTotal`: one pass over the assessments, accumulating three counters. */
  method CalculateTotal(grades: map<string, Option<real>>, assessments: seq<Assessment>) returns (t: Totals)
    ensures t.total == TotalOf(grades, assessments) && t.maxTotal == MaxTotalOf(assessments)
    ensures t.completed == CompletedOf(grades, assessments) <= t.totalAssessments == |assessments|
    ensures t.percentage == Percentage(t.total, t.maxTotal)
  {
    var total, maxTotal, completed := 0.0, 0.0, 0;
    for i := 0 to |assessments|
      invariant total == TotalOf(grades, assessments[..i])
      invariant maxTotal == MaxTotalOf(assessments[..i])
      invariant completed == CompletedOf(grades, assessments[..i])
    {
      assert assessments[..i + 1][..i] == assessments[..i];
      var grade := Cell(grades, assessments[i].id);
      if grade.Some? {
        total := total + grade.value;
        completed := completed + 1;
      }
      maxTotal := maxTotal + assessments[i].maxMarks;
    }
    assert assessments[..|assessments|] == assessments;
    t := Totals(total, maxTotal, Percentage(total, maxTotal), completed, |assessments|);
  }

  /** No maximum is negative, and every grade of the row lies between 0 and its assessment's maximum. */
  predicate InRange(grades: map<string, Option<real>>, assessments: seq<Assessment>) {
    forall k | 0 <= k < |assessments| ::
      0.0 <= assessments[k].maxMarks
      && (Cell(grades, assessments[k].id).Some? ==> 0.0 <= Cell(grades, assessments[k].id).value <= assessments[k].maxMarks)
  }

  /** With every grade in range, the total lies between 0 and the maximum total. */
  lemma {:induction false} TotalWithinMax(grades: map<string, Option<real>>, assessments: seq<Assessment>)
    requires InRange(grades, assessments)
    ensures 0.0 <= TotalOf(grades, assessments) <= MaxTotalOf(assessments)
  {
    if assessments != [] {
      var init := assessments[..|assessments| - 1];
      assert InRange(grades, init) by {
        forall k | 0 <= k < |init|
          ensures 0.0 <= init[k].maxMarks
          ensures Cell(grades, init[k].id).Some? ==> 0.0 <= Cell(grades, init[k].id).value <= init[k].maxMarks
        {
          assert init[k] == assessments[k];
        }
      }
      TotalWithinMax(grades, init);
      var last := assessments[|assessments| - 1];
      assert 0.0 <= last.maxMarks && (Cell(grades, last.id).Some? ==> 0.0 <= Cell(grades, last.id).value <= last.maxMarks);
    }
  }

  /** With every grade in range, the percentage lies between 0 and 100. */
  lemma PercentageBounded(grades: map<string, Option<real>>, assessments: seq<Assessment>)
    requires InRange(grades, assessments)
    ensures 0.0 <= Percentage(TotalOf(grades, assessments), MaxTotalOf(assessments)) <= 100.0
  {
    TotalWithinMax(grades, assessments);
    RatioBounded(TotalOf(grades, assessments), MaxTotalOf(assessments));
  }

  lemma RatioBounded(part: real, whole: real)
    requires 0.0 <= part <= whole
    ensures 0.0 <= Percentage(part, whole) <= 100.0
  {
    if whole > 0.0 {
      var q := part / whole;
      assert q * whole == part;
    }
  }

  // -----------------------------------------------------------------------
  // Missing cells over the whole grid

  /** Cells of the grid without a grade, row by row. */
  function Missing(students: seq<StudentGrades>, assessments: seq<Assessment>): nat {
    if students == [] then 0
    else Missing(students[..|students| - 1], assessments) + MissingIn(students[|students| - 1].grades, assessments)
  }

  /** Cells of one row without a grade. */
  function MissingIn(grades: map<string, Option<real>>, assessments: seq<Assessment>): nat {
    if assessments == [] then 0
    else MissingIn(grades, assessments[..|assessments| - 1]) + (if Cell(grades, assessments[|assessments| - 1].id).None? then 1 else 0)
  }

  /** Cells of the grid with a grade. */
  function Filled(students: seq<StudentGrades>, assessments: seq<Assessment>): nat {
    if students == [] then 0
    else Filled(students[..|students| - 1], assessments) + CompletedOf(students[|students| - 1].grades, assessments)
  }

  /** `getMissingCount`: a loop over the students and, inside it, a loop over the assessments. */
  method GetMissingCount(students: seq<StudentGrades>, assessments: seq<Assessment>) returns (count: nat)
    ensures count == Missing(students, assessments)
  {
    count := 0;
    for i := 0 to |students|
      invariant count == Missing(students[..i], assessments)
    {
      assert students[..i + 1][..i] == students[..i];
      var grades := students[i].grades;
      var before := count;
      for j := 0 to |assessments|
        invariant count == before + MissingIn(grades, assessments[..j])
      {
        assert assessments[..j + 1][..j] == assessments[..j];
        if Cell(grades, assessments[j].id).None? {
          count := count + 1;
        }
      }
      assert assessments[..|assessments|] == assessments;
    }
    assert students[..|students|] == students;
  }

  /** In one row, empty and graded cells make up the assessments. */
  lemma {:induction false} RowCells(grades: map<string, Option<real>>, assessments: seq<Assessment>)
    ensures MissingIn(grades, assessments) + CompletedOf(grades, assessments) == |assessments|
  {
    if assessments != [] {
      RowCells(grades, assessments[..|assessments| - 1]);
    }
  }

  /** Missing cells and filled cells make up the whole grid. */
  lemma {:induction false} GridCells(students: seq<StudentGrades>, assessments: seq<Assessment>)
    ensures Missing(students, assessments) + Filled(students, assessments) == |students| * |assessments|
  {
    if students != [] {
      GridCells(students[..|students| - 1], assessments);
      RowCells(students[|students| - 1].grades, assessments);
    }
  }

  /** `getCompletionRate`: filled cells over all cells, as a percentage. */
  function CompletionRate(students: seq<StudentGrades>, assessments: seq<Assessment>): (r: real)
    ensures 0.0 <= r <= 100.0
  {
    var totalCells := |students| * |assessments|;
    GridCells(students, assessments);
    RatioBounded((totalCells - Missing(students, assessments)) as real, totalCells as real);
    Percentage((totalCells - Missing(students, assessments)) as real, totalCells as real)
  }

  // -----------------------------------------------------------------------
  // Editing the grid

  /** `mockAssessments.find(a => a.id === id)`. */
  function FindAssessment(assessments: seq<Assessment>, id: string): (r: Option<nat>)
    ensures r.Some? ==> r.value < |assessments| && assessments[r.value].id == id
    ensures r.Some? ==> forall j | 0 <= j < r.value :: assessments[j].id != id
    ensures r.None? ==> forall j | 0 <= j < |assessments| :: assessments[j].id != id
  {
    if assessments == [] then None
    else if assessments[0].id == id then Some(0)
    else
      var r := FindAssessment(assessments[1..], id);
      if r.Some? then Some(r.value + 1) else None
  }

  /** The value exceeds the maximum of the assessment with that id, when there is one. */
  predicate AboveMax(assessments: seq<Assessment>, assessmentId: string, value: Option<real>) {
    var a := FindAssessment(assessments, assessmentId);
    value.Some? && a.Some? && value.value > assessments[a.value].maxMarks
  }

  /** The rows with that id get the cell set; every other row stays as it was. */
  function SetCell(students: seq<StudentGrades>, studentId: string, assessmentId: string, value: Option<real>): (r: seq<StudentGrades>)
    ensures |r| == |students|
    ensures forall k | 0 <= k < |students| ::
              r[k] == if students[k].id == studentId then students[k].(grades := students[k].grades[assessmentId := value]) else students[k]
  {
    if students == [] then []
    else
      [if students[0].id == studentId then students[0].(grades := students[0].grades[assessmentId := value]) else students[0]]
      + SetCell(students[1..], studentId, assessmentId, value)
  }

  /** A change touches one cell: that student's, that assessment's. */
  lemma SetCellOnly(students: seq<StudentGrades>, studentId: string, assessmentId: string, value: Option<real>, k: nat, other: string)
    requires k < |students|
    ensures var r := SetCell(students, studentId, assessmentId, value);
      r[k].id == students[k].id && r[k].name == students[k].name
      && Cell(r[k].grades, other) == if students[k].id == studentId && other == assessmentId then value else Cell(students[k].grades, other)
  {
  }

  /** Whether the class gradebook takes a change: unlocked, not above the maximum, not negative. */
  predicate GradeAccepted(isLocked: bool, assessments: seq<Assessment>, assessmentId: string, value: Option<real>) {
    !isLocked && !AboveMax(assessments, assessmentId, value) && !(value.Some? && value.value < 0.0)
  }

  class ClassGradebook {
    const assessments: seq<Assessment>
    var students: seq<StudentGrades>
    var isLocked: bool
    var isPublished: bool
    var hasUnsavedChanges: bool

    /** A locked gradebook has nothing unsaved. */
    predicate Valid()
      reads this
    {
      isLocked ==> !hasUnsavedChanges
    }

    constructor(columns: seq<Assessment>, rows: seq<StudentGrades>)
      ensures Valid() && assessments == columns && students == rows
      ensures !isLocked && !isPublished && !hasUnsavedChanges
    {
      assessments := columns;
      students := rows;
      isLocked := false;
      isPublished := false;
      hasUnsavedChanges := false;
    }

    /** `handleGradeChange`; the empty text is `None`, any other the number it parses to. */
    method HandleGradeChange(studentId: string, assessmentId: string, value: Option<real>) returns (accepted: bool)
      requires Valid()
      modifies this
      ensures Valid()
      ensures accepted == GradeAccepted(old(isLocked), assessments, assessmentId, value)
      ensures students == if accepted then SetCell(old(students), studentId, assessmentId, value) else old(students)
      ensures hasUnsavedChanges == (accepted || old(hasUnsavedChanges))
      ensures isLocked == old(isLocked) && isPublished == old(isPublished)
    {
      if isLocked {
        return false;
      }
      var assessment := FindAssessment(assessments, assessmentId);
      if value.Some? && assessment.Some? && value.value > assessments[assessment.value].maxMarks {
        return false;
      }
      if value.Some? && value.value < 0.0 {
        return false;
      }
      students := SetCell(students, studentId, assessmentId, value);
      hasUnsavedChanges := true;
      accepted := true;
    }

    /** `handleSave`. */
    method HandleSave()
      requires Valid()
      modifies this
      ensures Valid() && !hasUnsavedChanges
      ensures students == old(students) && isLocked == old(isLocked) && isPublished == old(isPublished)
    {
      hasUnsavedChanges := false;
    }

    /** `handleLock`: refused while anything is unsaved. */
    method HandleLock()
      requires Valid()
      modifies this
      ensures Valid()
      ensures isLocked == (old(isLocked) || !old(hasUnsavedChanges))
      ensures students == old(students) && isPublished == old(isPublished) && hasUnsavedChanges == old(hasUnsavedChanges)
    {
      if hasUnsavedChanges {
        return;
      }
      isLocked := true;
    }

    /** `handleUnlock`: always allowed, and publishing is not undone. */
    method HandleUnlock()
      requires Valid()
      modifies this
      ensures Valid() && !isLocked
      ensures students == old(students) && isPublished == old(isPublished) && hasUnsavedChanges == old(hasUnsavedChanges)
    {
      isLocked := false;
    }

    /** `handlePublish`: refused unless locked; nothing ever sets the flag back. */
    method HandlePublish()
      requires Valid()
      modifies this
      ensures Valid()
      ensures isPublished == (old(isPublished) || old(isLocked))
      ensures students == old(students) && isLocked == old(isLocked) && hasUnsavedChanges == old(hasUnsavedChanges)
    {
      if !isLocked {
        return;
      }
      isPublished := true;
    }
  }

  // -----------------------------------------------------------------------
  // The exams grade sheet

  /** Whether the exams sheet takes a change: unlocked and not above the maximum; there is no lower bound. */
  predicate ExamGradeAccepted(isLocked: bool, assessments: seq<Assessment>, assessmentId: string, value: Option<real>) {
    !isLocked && !AboveMax(assessments, assessmentId, value)
  }

  /** The exams sheet stores a negative grade the class gradebook refuses. */
  lemma NegativeGradeOnlyInExams(assessments: seq<Assessment>, assessmentId: string, v: real)
    requires v < 0.0
    requires forall k | 0 <= k < |assessments| :: assessments[k].maxMarks >= 0.0
    ensures ExamGradeAccepted(false, assessments, assessmentId, Some(v))
    ensures !GradeAccepted(false, assessments, assessmentId, Some(v))
  {
  }

  class ExamsGrades {
    const assessments: seq<Assessment>
    var studentGrades: seq<StudentGrades>
    var isLocked: bool
    var isPublished: bool

    constructor(columns: seq<Assessment>, rows: seq<StudentGrades>)
      ensures assessments == columns && studentGrades == rows && !isLocked && !isPublished
    {
      assessments := columns;
      studentGrades := rows;
      isLocked := false;
      isPublished := false;
    }

    /** `handleGradeChange` of the exams sheet. */
    method HandleGradeChange(studentId: string, assessmentId: string, value: Option<real>) returns (accepted: bool)
      modifies this
      ensures accepted == ExamGradeAccepted(old(isLocked), assessments, assessmentId, value)
      ensures studentGrades == if accepted then SetCell(old(studentGrades), studentId, assessmentId, value) else old(studentGrades)
      ensures isLocked == old(isLocked) && isPublished == old(isPublished)
    {
      if isLocked {
        return false;
      }
      var assessment := FindAssessment(assessments, assessmentId);
      if value.Some? && assessment.Some? && value.value > assessments[assessment.value].maxMarks {
        return false;
      }
      studentGrades := SetCell(studentGrades, studentId, assessmentId, value);
      accepted := true;
    }

    /** `handleLockGrades`: no condition. */
    method HandleLockGrades()
      modifies this
      ensures isLocked && studentGrades == old(studentGrades) && isPublished == old(isPublished)
    {
      isLocked := true;
    }

    /** `handleUnlockGrades`: always allowed, and publishing is not undone. */
    method HandleUnlockGrades()
      modifies this
      ensures !isLocked && studentGrades == old(studentGrades) && isPublished == old(isPublished)
    {
      isLocked := false;
    }

    /** `handlePublishGrades`: refused unless locked; nothing ever sets the flag back. */
    method HandlePublishGrades()
      modifies this
      ensures isPublished == (old(isPublished) || old(isLocked))
      ensures studentGrades == old(studentGrades) && isLocked == old(isLocked)
    {
      if !isLocked {
        return;
      }
      isPublished := true;
    }
  }
}
