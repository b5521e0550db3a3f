/**
 * The daily attendance sheet: one status, reason and remark per student,
 * bulk updates over the whole class, the summary counts, and a lock that is
 * only ever switched on.
 */
module DailyAttendance {
  datatype Status = Present | Absent | Late | HalfDay | OnLeave

  datatype AttendanceStudent = AttendanceStudent(
    id: string, rollNo: string, name: string, admissionNo: string,
    status: Status, reason: string, remarks: string)

  /** The two free-text columns. */
  datatype NoteField = Reason | Remarks

  /** `students.map(s => s.id === id ? { ...s, status } : s)`. */
  function UpdateStatus(ss: seq<AttendanceStudent>, id: string, status: Status): (r: seq<AttendanceStudent>)
    ensures |r| == |ss|
    ensures forall k | 0 <= k < |ss| :: r[k] == if ss[k].id == id then ss[k].(status := status) else ss[k]
  {
    if ss == [] then []
    else [if ss[0].id == id then ss[0].(status := status) else ss[0]] + UpdateStatus(ss[1..], id, status)
  }

  function SetNote(s: AttendanceStudent, field: NoteField, value: string): AttendanceStudent {
    match field
    case Reason => s.(reason := value)
    case Remarks => s.(remarks := value)
  }

  /** `students.map(s => s.id === id ? { ...s, [field]: value } : s)`. */
  function UpdateNote(ss: seq<AttendanceStudent>, id: string, field: NoteField, value: string): (r: seq<AttendanceStudent>)
    ensures |r| == |ss|
    ensures forall k | 0 <= k < |ss| :: r[k] == if ss[k].id == id then SetNote(ss[k], field, value) else ss[k]
  {
    if ss == [] then []
    else [if ss[0].id == id then SetNote(ss[0], field, value) else ss[0]] + UpdateNote(ss[1..], id, field, value)
  }

  /** Every status set to one value; reasons and remarks kept. */
  function MarkAll(ss: seq<AttendanceStudent>, status: Status): (r: seq<AttendanceStudent>)
    ensures |r| == |ss|
    ensures forall k | 0 <= k < |ss| :: r[k] == ss[k].(status := status)
  {
    if ss == [] then [] else [ss[0].(status := status)] + MarkAll(ss[1..], status)
  }

  /** Every status back to present, every reason and remark emptied. */
  function ClearAll(ss: seq<AttendanceStudent>): (r: seq<AttendanceStudent>)
    ensures |r| == |ss|
    ensures forall k | 0 <= k < |ss| :: r[k] == ss[k].(status := Present, reason := "", remarks := "")
  {
    if ss == [] then [] else [ss[0].(status := Present, reason := "", remarks := "")] + ClearAll(ss[1..])
  }

  /** `students.filter(s => s.status === status).length`. */
  function Count(ss: seq<AttendanceStudent>, status: Status): (n: nat)
    ensures n <= |ss|
  {
    if ss == [] then 0 else (if ss[0].status == status then 1 else 0) + Count(ss[1..], status)
  }

  /** The five statuses partition the class; the half-day count is the one the summary does not show. */
  lemma {:induction false} CountsPartition(ss: seq<AttendanceStudent>)
    ensures Count(ss, Present) + Count(ss, Absent) + Count(ss, Late) + Count(ss, OnLeave) + Count(ss, HalfDay) == |ss|
  {
    if ss != [] {
      CountsPartition(ss[1..]);
    }
  }

  /** After marking everybody with one status, that status's count is the class size. */
  lemma {:induction false} MarkAllCount(ss: seq<AttendanceStudent>, status: Status)
    ensures Count(MarkAll(ss, status), status) == |ss|
  {
    if ss != [] {
      assert MarkAll(ss, status)[1..] == MarkAll(ss[1..], status);
      MarkAllCount(ss[1..], status);
    }
  }

  /** Changing one student's status moves at most that many students between counts. */
  lemma {:induction false} UpdateStatusCount(ss: seq<AttendanceStudent>, id: string, status: Status)
    requires forall i, j | 0 <= i < j < |ss| :: ss[i].id != ss[j].id
    ensures Count(ss, status) <= Count(UpdateStatus(ss, id, status), status) <= Count(ss, status) + 1
  {
    if ss != [] {
      assert UpdateStatus(ss, id, status)[1..] == UpdateStatus(ss[1..], id, status);
      if ss[0].id == id {
        UpdateStatusAbsent(ss[1..], id, status);
      } else {
        UpdateStatusCount(ss[1..], id, status);
      }
    }
  }

  /** Updating an id nobody has changes nothing. */
  lemma UpdateStatusAbsent(ss: seq<AttendanceStudent>, id: string, status: Status)
    requires forall k | 0 <= k < |ss| :: ss[k].id != id
    ensures UpdateStatus(ss, id, status) == ss
  {
  }

  /** The sheet's state: the students and the lock. */
  class AttendanceSheet {
    var students: seq<AttendanceStudent>
    var isLocked: bool

    constructor(initial: seq<AttendanceStudent>)
      ensures students == initial && !isLocked
    {
      students := initial;
      isLocked := false;
    }

    /** `updateStudentStatus`. */
    method UpdateStudentStatus(id: string, status: Status)
      modifies this
      ensures students == UpdateStatus(old(students), id, status) && isLocked == old(isLocked)
    {
      students := UpdateStatus(students, id, status);
    }

    /** `updateStudentField`. */
    method UpdateStudentField(id: string, field: NoteField, value: string)
      modifies this
      ensures students == UpdateNote(old(students), id, field, value) && isLocked == old(isLocked)
    {
      students := UpdateNote(students, id, field, value);
    }

    /** `markAllPresent`. */
    method MarkAllPresent()
      modifies this
      ensures students == MarkAll(old(students), Present) && isLocked == old(isLocked)
    {
      students := MarkAll(students, Present);
    }

    /** `markAllAbsent`. */
    method MarkAllAbsent()
      modifies this
      ensures students == MarkAll(old(students), Absent) && isLocked == old(isLocked)
    {
      students := MarkAll(students, Absent);
    }

    /** `clearAll`. */
    method Clear()
      modifies this
      ensures students == ClearAll(old(students)) && isLocked == old(isLocked)
    {
      students := ClearAll(students);
    }

    /** `lockAttendance`, once the user has answered the confirmation; nothing unlocks. */
    method LockAttendance(confirmed: bool)
      modifies this
      ensures isLocked == (old(isLocked) || confirmed) && students == old(students)
    {
      if confirmed {
        isLocked := true;
      }
    }
  }
}
