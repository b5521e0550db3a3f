/**
 * The exam setup screen: the list of exams of the academic year and the
 * add/edit dialog whose form is saved into it. A form value the user has
 * not filled is the empty string.
 */
module ExamSetup {
  import opened Common

  datatype ExamType = FA | SA
  datatype Term = Term1 | Term2
  datatype ExamStatus = Upcoming | Ongoing | Completed

  datatype Exam = Exam(
    id: string, name: string, examType: ExamType, term: Term,
    startDate: string, endDate: string, weightage: int, maxMarks: int, status: ExamStatus)

  /** The dialog's values: an exam without its identifier. */
  datatype ExamForm = ExamForm(
    name: string, examType: ExamType, term: Term,
    startDate: string, endDate: string, weightage: int, maxMarks: int, status: ExamStatus)

  /** The form `handleAddExam` opens with. */
  const NewExamForm := ExamForm("", FA, Term1, "", "", 10, 20, Upcoming)

  function FormOf(e: Exam): (f: ExamForm)
    ensures ExamOf(f, e.id) == e
  {
    ExamForm(e.name, e.examType, e.term, e.startDate, e.endDate, e.weightage, e.maxMarks, e.status)
  }

  /** `{ ...formData, id }`. */
  function ExamOf(f: ExamForm, id: string): (e: Exam)
    ensures e.id == id && e.name == f.name && e.startDate == f.startDate && e.endDate == f.endDate
  {
    Exam(id, f.name, f.examType, f.term, f.startDate, f.endDate, f.weightage, f.maxMarks, f.status)
  }

  /** Name, start date and end date are all filled in. */
  predicate Complete(f: ExamForm) {
    f.name != [] && f.startDate != [] && f.endDate != []
  }

  /** The exam with the id gets the form's values and keeps its id; the others stay. */
  function ReplaceExam(exams: seq<Exam>, id: string, f: ExamForm): (r: seq<Exam>)
    ensures |r| == |exams|
    ensures forall k | 0 <= k < |exams| :: r[k] == if exams[k].id == id then ExamOf(f, id) else exams[k]
  {
    if exams == [] then []
    else [if exams[0].id == id then ExamOf(f, id) else exams[0]] + ReplaceExam(exams[1..], id, f)
  }

  /** Replacing never changes any exam's identifier. */
  lemma ReplaceKeepsIds(exams: seq<Exam>, id: string, f: ExamForm)
    ensures forall k | 0 <= k < |exams| :: ReplaceExam(exams, id, f)[k].id == exams[k].id
  {
  }

  /** `exams.filter(e => e.id !== examId)`. */
  function WithoutExam(exams: seq<Exam>, id: string): (r: seq<Exam>)
    ensures |r| <= |exams|
    ensures forall e :: e in r <==> e in exams && e.id != id
  {
    if exams == [] then []
    else if exams[0].id == id then WithoutExam(exams[1..], id)
    else [exams[0]] + WithoutExam(exams[1..], id)
  }

  /** Deleting an exam just added under a fresh identifier gives the list back. */
  lemma {:induction false} DeleteUndoesAdd(exams: seq<Exam>, e: Exam)
    requires forall k | 0 <= k < |exams| :: exams[k].id != e.id
    ensures WithoutExam(exams + [e], e.id) == exams
  {
    if exams == [] {
      assert exams + [e] == [e];
    } else {
      assert (exams + [e])[1..] == exams[1..] + [e];
      DeleteUndoesAdd(exams[1..], e);
    }
  }

  class ExamSetupScreen {
    var exams: seq<Exam>
    var showAddDialog: bool
    var editingExam: Option<Exam>
    var formData: ExamForm

    constructor(initial: seq<Exam>)
      ensures exams == initial && !showAddDialog && editingExam.None?
    {
      exams := initial;
      showAddDialog := false;
      editingExam := None;
      formData := NewExamForm;
    }

    /** `handleAddExam`: a fresh form with the defaults, nothing being edited. */
    method HandleAddExam()
      modifies this
      ensures editingExam.None? && showAddDialog && exams == old(exams)
      ensures formData == NewExamForm
      ensures formData.examType == FA && formData.term == Term1 && formData.weightage == 10
              && formData.maxMarks == 20 && formData.status == Upcoming && !Complete(formData)
    {
      editingExam := None;
      formData := NewExamForm;
      showAddDialog := true;
    }

    /** `handleEditExam`: the form holds the exam's values. */
    method HandleEditExam(exam: Exam)
      modifies this
      ensures editingExam == Some(exam) && formData == FormOf(exam) && showAddDialog && exams == old(exams)
    {
      editingExam := Some(exam);
      formData := FormOf(exam);
      showAddDialog := true;
    }

    /**
     * `handleSaveExam`: nothing happens while a required value is missing;
     * otherwise the edited exam is replaced in place, or a new one appended
     * under `newId`, and the dialog closes.
     */
    method HandleSaveExam(newId: string)
      modifies this
      ensures !Complete(old(formData)) ==> exams == old(exams) && showAddDialog == old(showAddDialog)
      ensures Complete(old(formData)) && old(editingExam).Some? ==>
                exams == ReplaceExam(old(exams), old(editingExam).value.id, old(formData)) && !showAddDialog
      ensures Complete(old(formData)) && old(editingExam).None? ==>
                exams == old(exams) + [ExamOf(old(formData), newId)] && !showAddDialog
      ensures editingExam == old(editingExam) && formData == old(formData)
    {
      if !Complete(formData) {
        return;
      }
      if editingExam.Some? {
        exams := ReplaceExam(exams, editingExam.value.id, formData);
      } else {
        exams := exams + [ExamOf(formData, newId)];
      }
      showAddDialog := false;
    }

    /** `handleDeleteExam`. */
    method HandleDeleteExam(examId: string)
      modifies this
      ensures exams == WithoutExam(old(exams), examId)
      ensures showAddDialog == old(showAddDialog) && editingExam == old(editingExam) && formData == old(formData)
    {
      exams := WithoutExam(exams, examId);
    }
  }
}
