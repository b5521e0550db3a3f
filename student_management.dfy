/**
 * The student list screen: the filter and the pages of ten, the status
 * toggles, the CSV import, and the six-step form for adding a student with
 * its guardian list.
 */
module StudentManagement {
  import opened Common

  /** A student as the list screen sees it. */
  datatype Student = Student(
    id: string, firstName: string, lastName: string, admissionNo: string,
    className: string, section: string, status: string)

  // -----------------------------------------------------------------------
  // Filtering

  /** An empty search matches everyone; otherwise a case-insensitive substring of a name or the admission number. */
  predicate MatchesSearch(s: Student, search: string) {
    var q := Lower(search);
    search == "" || Contains(Lower(s.firstName), q) || Contains(Lower(s.lastName), q) || Contains(Lower(s.admissionNo), q)
  }

  /** The four conditions of `filteredStudents`. */
  predicate Matches(s: Student, search: string, cls: string, section: string, statuses: seq<string>) {
    MatchesSearch(s, search)
    && (cls == "all" || s.className == cls)
    && (section == "all" || s.section == section)
    && (|statuses| == 0 || s.status in statuses)
  }

  /** `students.filter(...)`: the students that match, in their order. */
  function FilterStudents(students: seq<Student>, search: string, cls: string, section: string, statuses: seq<string>): (r: seq<Student>)
    ensures |r| <= |students|
    ensures forall x :: x in r <==> x in students && Matches(x, search, cls, section, statuses)
  {
    if students == [] then []
    else
      var rest := FilterStudents(students[1..], search, cls, section, statuses);
      if Matches(students[0], search, cls, section, statuses) then [students[0]] + rest else rest
  }

  /** Filtering a list in two parts gives the two filtered parts in order: the filter keeps the list's order. */
  lemma {:induction false} FilterStudentsAppend(a: seq<Student>, b: seq<Student>, search: string, cls: string, section: string, statuses: seq<string>)
    ensures FilterStudents(a + b, search, cls, section, statuses)
            == FilterStudents(a, search, cls, section, statuses) + FilterStudents(b, search, cls, section, statuses)
  {
    if a != [] {
      assert (a + b)[0] == a[0];
      assert (a + b)[1..] == a[1..] + b;
      FilterStudentsAppend(a[1..], b, search, cls, section, statuses);
    } else {
      assert a + b == b;
    }
  }

  /** A single status filter keeps exactly the students with that status (and the other conditions). */
  lemma SingleStatusFilter(students: seq<Student>, search: string, status: string, x: Student)
    ensures x in FilterStudents(students, search, "all", "all", [status])
            <==> x in students && x.status == status && MatchesSearch(x, search)
  {
  }

  // -----------------------------------------------------------------------
  // Pages of ten

  const ItemsPerPage: nat := 10

  /** `Math.ceil(n / itemsPerPage)`. */
  function PageCount(n: nat): (pages: nat)
    ensures pages * ItemsPerPage >= n
    ensures pages == 0 || (pages - 1) * ItemsPerPage < n
  {
    (n + ItemsPerPage - 1) / ItemsPerPage
  }

  function Min(a: int, b: int): int { if a <= b then a else b }

  /** `slice((page - 1) * itemsPerPage, page * itemsPerPage)`, clamped as `slice` clamps. */
  function Page<T>(items: seq<T>, page: nat): (r: seq<T>)
    requires page >= 1
    ensures |r| <= ItemsPerPage
  {
    items[Min((page - 1) * ItemsPerPage, |items|)..Min(page * ItemsPerPage, |items|)]
  }

  /** Pages 1 to k, one after the other. */
  function FirstPages<T>(items: seq<T>, k: nat): seq<T> {
    if k == 0 then [] else FirstPages(items, k - 1) + Page(items, k)
  }

  lemma {:induction false} FirstPagesPrefix<T>(items: seq<T>, k: nat)
    ensures FirstPages(items, k) == items[..Min(k * ItemsPerPage, |items|)]
  {
    if k > 0 {
      FirstPagesPrefix(items, k - 1);
      var a := Min((k - 1) * ItemsPerPage, |items|);
      var b := Min(k * ItemsPerPage, |items|);
      assert items[..a] + items[a..b] == items[..b];
    }
  }

  /** The pages cover the filtered list exactly once, in order. */
  lemma PagesCover<T>(items: seq<T>)
    ensures FirstPages(items, PageCount(|items|)) == items
  {
    FirstPagesPrefix(items, PageCount(|items|));
    assert items[..|items|] == items;
  }

  /** Every page up to the count holds at least one item; the pages after it are empty. */
  lemma PageOccupancy<T>(items: seq<T>, page: nat)
    requires page >= 1
    ensures page <= PageCount(|items|) ==> |Page(items, page)| >= 1
    ensures page > PageCount(|items|) ==> Page(items, page) == []
  {
  }

  // -----------------------------------------------------------------------
  // CSV import

  /** The columns `parseCSV` refuses a file without. */
  const RequiredHeaders: seq<string> := ["firstName", "lastName", "admissionNo", "class", "section", "email", "phone", "gender", "dob"]

  /** `text.split('\n').filter(line => line.trim())`. */
  function NonBlankLines(lines: seq<string>): (r: seq<string>)
    ensures |r| <= |lines|
    ensures forall k | 0 <= k < |r| :: Trim(r[k]) != ""
  {
    if lines == [] then []
    else
      var rest := NonBlankLines(lines[1..]);
      if Trim(lines[0]) != "" then [lines[0]] + rest else rest
  }

  /** Every line that is not blank is kept, and only those. */
  lemma {:induction false} NonBlankLinesKeep(lines: seq<string>, x: string)
    ensures x in NonBlankLines(lines) <==> x in lines && Trim(x) != ""
  {
    if lines != [] {
      NonBlankLinesKeep(lines[1..], x);
      assert x in lines <==> x == lines[0] || x in lines[1..];
    }
  }

  /** The kept lines stay in their order: filtering two parts gives the two filtered parts, one after the other. */
  lemma {:induction false} NonBlankLinesAppend(a: seq<string>, b: seq<string>)
    ensures NonBlankLines(a + b) == NonBlankLines(a) + NonBlankLines(b)
  {
    if a != [] {
      assert (a + b)[1..] == a[1..] + b;
      NonBlankLinesAppend(a[1..], b);
    } else {
      assert a + b == b;
    }
  }

  /** `.map(v => v.trim())`. */
  function TrimAll(parts: seq<string>): (r: seq<string>)
    ensures |r| == |parts|
    ensures forall k | 0 <= k < |parts| :: r[k] == Trim(parts[k])
  {
    if parts == [] then [] else [Trim(parts[0])] + TrimAll(parts[1..])
  }

  /** `requiredHeaders.filter(h => !headers.includes(h))`. */
  function MissingHeaders(required: seq<string>, headers: seq<string>): (r: seq<string>)
    ensures forall h :: h in r <==> h in required && h !in headers
  {
    if required == [] then []
    else
      var rest := MissingHeaders(required[1..], headers);
      if required[0] !in headers then [required[0]] + rest else rest
  }

  /** The row object: each header set to the value in its column, a repeated header taking the later one. */
  function RowOf(headers: seq<string>, values: seq<string>, n: nat): (row: map<string, string>)
    requires n <= |headers| <= |values|
    ensures row.Keys == set k | 0 <= k < n :: headers[k]
  {
    if n == 0 then map[] else RowOf(headers, values, n - 1)[headers[n - 1] := values[n - 1]]
  }

  /** A missing property reads as `undefined`, which is as falsy as the empty string. */
  function Get(row: map<string, string>, key: string): string {
    if key in row then row[key] else ""
  }

  datatype Outcome = Accepted(row: map<string, string>) | Rejected(message: string)

  function RowLabel(i: nat): string {
    "Row " + NatToString(i + 1) + ": "
  }

  /** What the loop does with line i: the column count first, then the row's own fields. */
  function CheckRow(headers: seq<string>, line: string, i: nat, students: seq<Student>): (r: Outcome)
    ensures |TrimAll(Split(line, ','))| != |headers| ==> r == Rejected(RowLabel(i) + "Column count mismatch")
    ensures r.Rejected? ==> StartsWith(r.message, RowLabel(i))
  {
    var values := TrimAll(Split(line, ','));
    if |values| != |headers| then Prefixed(RowLabel(i), "Column count mismatch")
    else CheckFields(RowOf(headers, values, |headers|), i, students)
  }

  /** The required fields, then the admission numbers of the loaded students. */
  function CheckFields(row: map<string, string>, i: nat, students: seq<Student>): (r: Outcome)
    ensures r.Accepted? ==> r.row == row
    ensures r.Accepted? <==> Get(row, "firstName") != "" && Get(row, "lastName") != "" && Get(row, "admissionNo") != ""
                             && forall s | s in students :: s.admissionNo != Get(row, "admissionNo")
    ensures r.Rejected? ==> StartsWith(r.message, RowLabel(i))
  {
    if Get(row, "firstName") == "" || Get(row, "lastName") == "" || Get(row, "admissionNo") == "" then
      Prefixed(RowLabel(i), "Missing required fields (firstName, lastName, or admissionNo)")
    else if exists s | s in students :: s.admissionNo == Get(row, "admissionNo") then
      Prefixed(RowLabel(i), "Admission number " + Get(row, "admissionNo") + " already exists")
    else Accepted(row)
  }

  /** An error whose message starts with the row label. */
  function Prefixed(tag: string, text: string): (r: Outcome)
    ensures r.Rejected? && r.message == tag + text && StartsWith(r.message, tag)
  {
    assert (tag + text)[..|tag|] == tag;
    Rejected(tag + text)
  }

  /** An accepted row has every header as a key, the three required fields filled, and a new admission number. */
  lemma AcceptedRowShape(headers: seq<string>, line: string, i: nat, students: seq<Student>)
    requires CheckRow(headers, line, i, students).Accepted?
    ensures var row := CheckRow(headers, line, i, students).row;
      row.Keys == (set k | 0 <= k < |headers| :: headers[k])
      && Get(row, "firstName") != "" && Get(row, "lastName") != "" && Get(row, "admissionNo") != ""
      && forall s | s in students :: s.admissionNo != Get(row, "admissionNo")
  {
  }

  /** The rows accepted among lines 1 to n - 1. */
  function AcceptedRows(headers: seq<string>, lines: seq<string>, students: seq<Student>, n: nat): seq<map<string, string>>
    requires n <= |lines|
  {
    if n <= 1 then []
    else
      var o := CheckRow(headers, lines[n - 1], n - 1, students);
      AcceptedRows(headers, lines, students, n - 1) + if o.Accepted? then [o.row] else []
  }

  /** The messages for the rejected lines among 1 to n - 1. */
  function RowErrors(headers: seq<string>, lines: seq<string>, students: seq<Student>, n: nat): seq<string>
    requires n <= |lines|
  {
    if n <= 1 then []
    else
      var o := CheckRow(headers, lines[n - 1], n - 1, students);
      RowErrors(headers, lines, students, n - 1) + if o.Rejected? then [o.message] else []
  }

  datatype ParseResult = ParseResult(data: seq<map<string, string>>, errors: seq<string>)

  /** `parseCSV`, with the students already loaded. */
  method ParseCsv(text: string, students: seq<Student>) returns (result: ParseResult)
    ensures var lines := NonBlankLines(Split(text, '\n'));
      |lines| < 2 ==> result == ParseResult([], ["CSV file is empty or has no data rows"])
    ensures var lines := NonBlankLines(Split(text, '\n'));
      |lines| >= 2 && MissingHeaders(RequiredHeaders, TrimAll(Split(lines[0], ','))) != [] ==>
        result == ParseResult([], ["Missing required columns: " + Join(MissingHeaders(RequiredHeaders, TrimAll(Split(lines[0], ','))), ", ")])
    ensures var lines := NonBlankLines(Split(text, '\n'));
      |lines| >= 2 && MissingHeaders(RequiredHeaders, TrimAll(Split(lines[0], ','))) == [] ==>
        var headers := TrimAll(Split(lines[0], ','));
        result == ParseResult(AcceptedRows(headers, lines, students, |lines|), RowErrors(headers, lines, students, |lines|))
  {
    var lines := NonBlankLines(Split(text, '\n'));
    if |lines| < 2 {
      return ParseResult([], ["CSV file is empty or has no data rows"]);
    }
    var headers := TrimAll(Split(lines[0], ','));
    var missing := MissingHeaders(RequiredHeaders, headers);
    if missing != [] {
      return ParseResult([], ["Missing required columns: " + Join(missing, ", ")]);
    }
    result := ParseRows(headers, lines, students);
  }

  /** The loop of `parseCSV` over the data lines. */
  method ParseRows(headers: seq<string>, lines: seq<string>, students: seq<Student>) returns (result: ParseResult)
    ensures result == ParseResult(AcceptedRows(headers, lines, students, |lines|), RowErrors(headers, lines, students, |lines|))
  {
    var data: seq<map<string, string>> := [];
    var errors: seq<string> := [];
    if |lines| <= 1 {
      return ParseResult(data, errors);
    }
    var i := 1;
    while i < |lines|
      invariant 1 <= i <= |lines|
      invariant data == AcceptedRows(headers, lines, students, i)
      invariant errors == RowErrors(headers, lines, students, i)
    {
      var o := CheckRow(headers, lines[i], i, students);
      RowsNext(headers, lines, students, i, o);
      if o.Rejected? {
        errors := errors + [o.message];
      } else {
        data := data + [o.row];
      }
      i := i + 1;
    }
    result := ParseResult(data, errors);
  }

  /** One more line adds its outcome to one of the two lists. */
  lemma RowsNext(headers: seq<string>, lines: seq<string>, students: seq<Student>, i: nat, o: Outcome)
    requires 1 <= i < |lines| && o == CheckRow(headers, lines[i], i, students)
    ensures AcceptedRows(headers, lines, students, i + 1) == AcceptedRows(headers, lines, students, i) + if o.Accepted? then [o.row] else []
    ensures RowErrors(headers, lines, students, i + 1) == RowErrors(headers, lines, students, i) + if o.Rejected? then [o.message] else []
  {
  }

  /** Each data line lands in exactly one of the two lists. */
  lemma {:induction false} EveryRowOnce(headers: seq<string>, lines: seq<string>, students: seq<Student>, n: nat)
    requires 1 <= n <= |lines|
    ensures |AcceptedRows(headers, lines, students, n)| + |RowErrors(headers, lines, students, n)| == n - 1
  {
    if n > 1 {
      EveryRowOnce(headers, lines, students, n - 1);
    }
  }

  /**
   * Only admission numbers of loaded students are refused: a line accepted
   * at one position is accepted at any other, so the same row twice in one
   * file is imported twice.
   */
  lemma InFileDuplicatesPass(headers: seq<string>, line: string, i: nat, j: nat, students: seq<Student>)
    requires CheckRow(headers, line, i, students).Accepted?
    ensures CheckRow(headers, line, j, students) == CheckRow(headers, line, i, students)
  {
  }

  /** A new student built from an accepted row by `confirmImport`. */
  function Imported(row: map<string, string>, stamp: string, index: nat): Student {
    Student(
      "imported-" + stamp + "-" + NatToString(index),
      Get(row, "firstName"), Get(row, "lastName"), Get(row, "admissionNo"),
      Get(row, "class"), Get(row, "section"),
      if Get(row, "status") != "" then Get(row, "status") else "Active")
  }

  /** The rows of `csvData`, from position `from`, as new students. */
  function ImportRows(rows: seq<map<string, string>>, stamp: string, from: nat): (r: seq<Student>)
    ensures |r| == |rows|
    ensures forall k | 0 <= k < |rows| :: r[k] == Imported(rows[k], stamp, from + k)
  {
    if rows == [] then [] else [Imported(rows[0], stamp, from)] + ImportRows(rows[1..], stamp, from + 1)
  }

  /** `confirmImport`: the loaded students, then one new active-by-default student per row. */
  function ConfirmImport(students: seq<Student>, rows: seq<map<string, string>>, stamp: string): (r: seq<Student>)
    ensures |r| == |students| + |rows|
    ensures r[..|students|] == students
    ensures forall k | |students| <= k < |r| :: r[k].status != ""
  {
    students + ImportRows(rows, stamp, 0)
  }

  /** Two imported students of one batch never share an id. */
  lemma ImportedIdsDistinct(rows: seq<map<string, string>>, stamp: string, a: nat, b: nat)
    requires a < b < |rows|
    ensures ImportRows(rows, stamp, 0)[a].id != ImportRows(rows, stamp, 0)[b].id
  {
    var p := "imported-" + stamp + "-";
    var ia := ImportRows(rows, stamp, 0)[a].id;
    var ib := ImportRows(rows, stamp, 0)[b].id;
    if ia == ib {
      assert ia[|p|..] == NatToString(a);
      assert ib[|p|..] == NatToString(b);
      NatToStringRoundTrip(a);
      NatToStringRoundTrip(b);
    }
  }

  // -----------------------------------------------------------------------
  // The add-student form

  /** The form fields the step checks read. */
  datatype Form = Form(firstName: string, lastName: string, dob: string, email: string,
                       admissionNo: string, className: string, section: string)

  /** `/\S+@\S+\.\S+/.test(s)`: a non-blank run, `@`, a non-blank run, `.`, a non-blank character. */
  predicate EmailShaped(s: string) {
    exists i | 1 <= i < |s| :: !IsSpace(s[i - 1]) && s[i] == '@' && DotAfter(s, i)
  }

  /** A `.` after the `@` at i, with only non-blank characters (at least one) between and one after. */
  predicate DotAfter(s: string, i: nat) {
    exists j | i + 1 < j && j + 1 < |s| :: s[j] == '.' && !IsSpace(s[j + 1]) && NonBlankBetween(s, i, j)
  }

  predicate NonBlankBetween(s: string, i: nat, j: nat)
    requires j <= |s|
  {
    forall k | i < k < j :: !IsSpace(s[k])
  }

  /** The shortest address the pattern accepts has five characters, one of them `@`. */
  lemma EmailShapedLength(s: string)
    requires EmailShaped(s)
    ensures |s| >= 5 && '@' in s
  {
  }

  /** `validateStep`: the error map for one step of the form. */
  function StepErrors(step: int, f: Form): map<string, string> {
    if step == 1 then
      (if f.firstName == "" then map["firstName" := "First name is required"] else map[])
      + (if f.lastName == "" then map["lastName" := "Last name is required"] else map[])
      + (if f.dob == "" then map["dob" := "Date of birth is required"] else map[])
    else if step == 2 then
      if f.email != "" && !EmailShaped(f.email) then map["email" := "Invalid email format"] else map[]
    else if step == 4 then
      (if f.admissionNo == "" then map["admissionNo" := "Admission number is required"] else map[])
      + (if f.className == "" then map["class" := "Class is required"] else map[])
      + (if f.section == "" then map["section" := "Section is required"] else map[])
    else map[]
  }

  /** What each step demands; the guardian, transport and account steps demand nothing. */
  lemma StepRules(f: Form, step: int)
    ensures step == 1 ==> (StepErrors(step, f) == map[] <==> f.firstName != "" && f.lastName != "" && f.dob != "")
    ensures step == 2 ==> (StepErrors(step, f) == map[] <==> f.email == "" || EmailShaped(f.email))
    ensures step == 4 ==> (StepErrors(step, f) == map[] <==> f.admissionNo != "" && f.className != "" && f.section != "")
    ensures step != 1 && step != 2 && step != 4 ==> StepErrors(step, f) == map[]
  {
    if step == 1 && StepErrors(step, f) == map[] {
      assert "firstName" !in StepErrors(step, f) && "lastName" !in StepErrors(step, f) && "dob" !in StepErrors(step, f);
    }
    if step == 2 && f.email != "" && !EmailShaped(f.email) {
      assert "email" in StepErrors(step, f);
    }
    if step == 4 && StepErrors(step, f) == map[] {
      assert "admissionNo" !in StepErrors(step, f) && "class" !in StepErrors(step, f) && "section" !in StepErrors(step, f);
    }
  }

  const TotalSteps: int := 6

  /** The form's step counter and the errors it shows. */
  class AddStudentForm {
    var form: Form
    var currentStep: int
    var errors: map<string, string>

    constructor (form0: Form)
      ensures form == form0 && currentStep == 1 && errors == map[]
    {
      form := form0;
      currentStep := 1;
      errors := map[];
    }

    predicate StepInRange()
      reads this
    {
      1 <= currentStep <= TotalSteps
    }

    /** `handleNext`: shows the step's errors and advances, up to the last step, only when there are none. */
    method Next()
      modifies this
      ensures form == old(form)
      ensures errors == StepErrors(old(currentStep), form)
      ensures currentStep == if errors == map[] then Min(TotalSteps, old(currentStep) + 1) else old(currentStep)
      ensures old(StepInRange()) ==> StepInRange()
    {
      errors := StepErrors(currentStep, form);
      if errors == map[] {
        currentStep := Min(TotalSteps, currentStep + 1);
      }
    }

    /** `handleBack`: one step back, never before the first. */
    method Back()
      modifies this
      ensures form == old(form) && errors == old(errors)
      ensures currentStep == if old(currentStep) - 1 >= 1 then old(currentStep) - 1 else 1
      ensures old(StepInRange()) ==> StepInRange()
    {
      currentStep := if currentStep - 1 >= 1 then currentStep - 1 else 1;
    }
  }

  // -----------------------------------------------------------------------
  // Guardians of the add-student form

  datatype Guardian = Guardian(id: string, name: string, relation: string, phone: string, email: string, isPrimary: bool)

  /** `addGuardian`: one blank guardian at the end, primary only when the list was present and empty. */
  function AddGuardian(guardians: Option<seq<Guardian>>, id: string): (r: seq<Guardian>)
    ensures var before := if guardians.Some? then guardians.value else [];
      |r| == |before| + 1 && r[..|before|] == before
      && r[|before|] == Guardian(id, "", "", "", "", guardians == Some([]))
  {
    (if guardians.Some? then guardians.value else []) + [Guardian(id, "", "", "", "", guardians == Some([]))]
  }

  /** `removeGuardian`: every guardian but the one at index i. */
  function RemoveGuardian(guardians: Option<seq<Guardian>>, i: int): (r: seq<Guardian>)
    ensures guardians.None? ==> r == []
    ensures guardians.Some? && 0 <= i < |guardians.value| ==> r == guardians.value[..i] + guardians.value[i + 1..]
    ensures guardians.Some? && !(0 <= i < |guardians.value|) ==> r == guardians.value
  {
    if guardians.None? then [] else RemoveIndex(guardians.value, i, 0)
  }

  /** `filter((_, k) => k !== i)` over the guardians from position `from`. */
  function RemoveIndex(gs: seq<Guardian>, i: int, from: nat): (r: seq<Guardian>)
    ensures from <= i < from + |gs| ==> r == gs[..i - from] + gs[i - from + 1..]
    ensures !(from <= i < from + |gs|) ==> r == gs
  {
    if gs == [] then []
    else if from == i then RemoveIndex(gs[1..], i, from + 1)
    else [gs[0]] + RemoveIndex(gs[1..], i, from + 1)
  }

  /** `setPrimaryGuardian`: index i, and only it, becomes primary; nothing else changes. */
  function SetPrimaryGuardian(guardians: Option<seq<Guardian>>, i: int): (r: seq<Guardian>)
    ensures guardians.None? ==> r == []
    ensures guardians.Some? ==> |r| == |guardians.value|
    ensures guardians.Some? ==> forall k | 0 <= k < |r| :: r[k] == guardians.value[k].(isPrimary := k == i)
  {
    if guardians.None? then [] else MarkPrimary(guardians.value, i, 0)
  }

  function MarkPrimary(gs: seq<Guardian>, i: int, from: nat): (r: seq<Guardian>)
    ensures |r| == |gs|
    ensures forall k | 0 <= k < |gs| :: r[k] == gs[k].(isPrimary := from + k == i)
  {
    if gs == [] then [] else [gs[0].(isPrimary := from == i)] + MarkPrimary(gs[1..], i, from + 1)
  }

  /** After choosing a primary guardian in range, exactly one guardian is primary. */
  lemma OnePrimary(gs: seq<Guardian>, i: int, k: int)
    requires 0 <= i < |gs| && 0 <= k < |gs|
    ensures SetPrimaryGuardian(Some(gs), i)[k].isPrimary <==> k == i
  {
  }
}
