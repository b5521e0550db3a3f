/**
 * A teacher's weekly timetable: one array of period slots per weekday, a
 * dialog that edits one slot, and the counts of teaching and free periods.
 * Saving copies only the outer day-to-array map, so the slot is written into
 * the very array the previous state holds.
 */
module TeacherTimetable {
  import opened Common

  /** A period: the class taught (`-` for none) and the subject. */
  datatype Slot = Slot(className: string, subject: string)

  const FreeClass := "-"
  const FreeSubject := "Free Period"

  const WeekDays: seq<string> := ["Monday", "Tuesday", "Wednesday", "Thursday", "Friday", "Saturday"]

  /** The slot a save writes: no class means a free period, whatever subject was picked. */
  function SavedSlot(tempClass: string, tempSubject: string): (s: Slot)
    ensures s.className == tempClass
    ensures s.subject == if tempClass == FreeClass then FreeSubject else tempSubject
  {
    Slot(tempClass, if tempClass == FreeClass then FreeSubject else tempSubject)
  }

  // -----------------------------------------------------------------------
  // Counting periods

  /** `day.filter(slot => slot.class !== '-').length`. */
  function Teaching(row: seq<Slot>): (n: nat)
    ensures n <= |row|
  {
    if row == [] then 0 else (if row[0].className != FreeClass then 1 else 0) + Teaching(row[1..])
  }

  /** `day.filter(slot => slot.class === '-').length`. */
  function Free(row: seq<Slot>): (n: nat)
    ensures n <= |row|
  {
    if row == [] then 0 else (if row[0].className == FreeClass then 1 else 0) + Free(row[1..])
  }

  /** `totalPeriods`: the teaching periods of every day, summed. */
  function TotalPeriods(rows: seq<seq<Slot>>): nat {
    if rows == [] then 0 else Teaching(rows[0]) + TotalPeriods(rows[1..])
  }

  /** `freePeriods`: the free periods of every day, summed. */
  function FreePeriods(rows: seq<seq<Slot>>): nat {
    if rows == [] then 0 else Free(rows[0]) + FreePeriods(rows[1..])
  }

  function SlotCount(rows: seq<seq<Slot>>): nat {
    if rows == [] then 0 else |rows[0]| + SlotCount(rows[1..])
  }

  lemma {:induction false} RowSplits(row: seq<Slot>)
    ensures Teaching(row) + Free(row) == |row|
  {
    if row != [] {
      RowSplits(row[1..]);
    }
  }

  /** Teaching and free periods together are every slot of the week. */
  lemma {:induction false} TotalsCoverWeek(rows: seq<seq<Slot>>)
    ensures TotalPeriods(rows) + FreePeriods(rows) == SlotCount(rows)
  {
    if rows != [] {
      RowSplits(rows[0]);
      TotalsCoverWeek(rows[1..]);
    }
  }

  // -----------------------------------------------------------------------
  // The tab

  class TimetableTab {
    var timetable: map<string, array<Slot>>
    var isEditDialogOpen: bool
    var editingDay: Option<string>
    var editingPeriod: Option<nat>
    var tempClass: string
    var tempSubject: string

    /** Every weekday has its own array, and the slot being edited exists. */
    predicate Valid()
      reads this
    {
      (forall d | d in WeekDays :: d in timetable)
      && (forall d1, d2 | d1 in timetable && d2 in timetable && d1 != d2 :: timetable[d1] != timetable[d2])
      && (editingDay.Some? && editingPeriod.Some? ==>
            editingDay.value in timetable && editingPeriod.value < timetable[editingDay.value].Length)
    }

    constructor(initial: map<string, array<Slot>>)
      requires forall d | d in WeekDays :: d in initial
      requires forall d1, d2 | d1 in initial && d2 in initial && d1 != d2 :: initial[d1] != initial[d2]
      ensures Valid() && timetable == initial && editingDay.None? && editingPeriod.None? && !isEditDialogOpen
    {
      timetable := initial;
      isEditDialogOpen := false;
      editingDay := None;
      editingPeriod := None;
      tempClass := "";
      tempSubject := "";
    }

    /** The slots of the given days, in order. */
    function Rows(days: seq<string>): (r: seq<seq<Slot>>)
      requires forall d | d in days :: d in timetable
      reads this, timetable.Values
      ensures |r| == |days| && forall i | 0 <= i < |days| :: r[i] == timetable[days[i]][..]
    {
      if days == [] then [] else [timetable[days[0]][..]] + Rows(days[1..])
    }

    /** `handleEditSlot`: the dialog opens on the slot's current values. */
    method HandleEditSlot(day: string, periodIdx: nat)
      requires Valid() && day in timetable && periodIdx < timetable[day].Length
      modifies this
      ensures Valid() && timetable == old(timetable)
      ensures editingDay == Some(day) && editingPeriod == Some(periodIdx) && isEditDialogOpen
      ensures tempClass == timetable[day][periodIdx].className && tempSubject == timetable[day][periodIdx].subject
    {
      editingDay := Some(day);
      editingPeriod := Some(periodIdx);
      var slot := timetable[day][periodIdx];
      tempClass := slot.className;
      tempSubject := slot.subject;
      isEditDialogOpen := true;
    }

    /**
     * `handleSaveSlot`: with a day and a period being edited, the slot is
     * written in place into that day's array, every other slot keeps its
     * value, and the editing state is cleared; otherwise nothing changes.
     */
    method HandleSaveSlot()
      requires Valid()
      modifies this, timetable.Values
      ensures Valid() && timetable == old(timetable)
      ensures tempClass == old(tempClass) && tempSubject == old(tempSubject)
      ensures var saving := old(editingDay).Some? && old(editingDay).value != [] && old(editingPeriod).Some?;
        if saving then
          timetable[old(editingDay).value][old(editingPeriod).value] == SavedSlot(old(tempClass), old(tempSubject))
          && (forall d, i | d in timetable && 0 <= i < timetable[d].Length
                && (d != old(editingDay).value || i != old(editingPeriod).value) ::
                timetable[d][i] == old(timetable[d][i]))
          && !isEditDialogOpen && editingDay.None? && editingPeriod.None?
        else
          (forall d | d in timetable :: timetable[d][..] == old(timetable[d][..]))
          && isEditDialogOpen == old(isEditDialogOpen) && editingDay == old(editingDay) && editingPeriod == old(editingPeriod)
    {
      if editingDay.Some? && editingDay.value != [] && editingPeriod.Some? {
        var day, period := editingDay.value, editingPeriod.value;
        var row := timetable[day];
        row[period] := SavedSlot(tempClass, tempSubject);
        isEditDialogOpen := false;
        editingDay := None;
        editingPeriod := None;
      }
    }

    /** `handleCancelEdit`: the dialog closes and the editing state is cleared; no slot changes. */
    method HandleCancelEdit()
      requires Valid()
      modifies this
      ensures Valid() && timetable == old(timetable)
      ensures !isEditDialogOpen && editingDay.None? && editingPeriod.None? && tempClass == "" && tempSubject == ""
    {
      isEditDialogOpen := false;
      editingDay := None;
      editingPeriod := None;
      tempClass := "";
      tempSubject := "";
    }
  }

  /** Saving keeps the number of slots, so the two totals still add up to the same week. */
  lemma SaveKeepsWeekSize(before: seq<seq<Slot>>, after: seq<seq<Slot>>)
    requires |before| == |after| && forall i | 0 <= i < |before| :: |before[i]| == |after[i]|
    ensures TotalPeriods(after) + FreePeriods(after) == TotalPeriods(before) + FreePeriods(before)
  {
    TotalsCoverWeek(before);
    TotalsCoverWeek(after);
    SameShapeSameCount(before, after);
  }

  lemma {:induction false} SameShapeSameCount(a: seq<seq<Slot>>, b: seq<seq<Slot>>)
    requires |a| == |b| && forall i | 0 <= i < |a| :: |a[i]| == |b[i]|
    ensures SlotCount(a) == SlotCount(b)
  {
    if a != [] {
      assert |a[0]| == |b[0]|;
      SameShapeSameCount(a[1..], b[1..]);
    }
  }
}
