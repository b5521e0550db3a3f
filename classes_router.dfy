/**
 * The classes router: `create_class` names the teacher of each subject,
 * copies those names into the timetable and derives `class_section`;
 * `update_class` and the soft delete change a stored row in place.
 */
module ClassesRouter {
  import opened Common
  import opened Records

  // -----------------------------------------------------------------------
  // Subject teachers

  /** One entry of `subject_teachers`: the subject, the teacher id sent, the name filled in. */
  datatype SubjectTeacher = SubjectTeacher(subject: Field, teacherId: Field, teacherName: Field)

  /** A stored teacher, as far as the classes router copies it. */
  datatype TeacherRow = TeacherRow(fullName: Field, email: Field, phone: Field)

  /** `db.query(Teacher).filter(Teacher.id == id).first()`: `directory` maps teacher ids to teachers. */
  function TeacherById(id: Field, directory: map<int, TeacherRow>): (r: Option<TeacherRow>)
    ensures r.Some? <==> id.Number? && id.n in directory
    ensures r.Some? ==> r.value == directory[id.n]
  {
    if id.Number? && id.n in directory then Some(directory[id.n]) else None
  }

  /** The teacher an id resolves to when `create_class` looks it up: only a truthy id is looked up. */
  function Resolve(teacherId: Field, directory: map<int, TeacherRow>): (r: Option<TeacherRow>)
    ensures r.Some? <==> Truthy(teacherId) && teacherId.Number? && teacherId.n in directory
    ensures r.Some? ==> r.value == directory[teacherId.n]
  {
    if Truthy(teacherId) then TeacherById(teacherId, directory) else None
  }

  /** `subject_teacher_map` after the first n entries. */
  function SubjectMap(entries: seq<SubjectTeacher>, directory: map<int, TeacherRow>, n: nat): map<Field, Field>
    requires n <= |entries|
  {
    if n == 0 then map[]
    else
      var m := SubjectMap(entries, directory, n - 1);
      var t := Resolve(entries[n - 1].teacherId, directory);
      if t.Some? then m[entries[n - 1].subject := t.value.fullName] else m
  }

  /** Whether entry i names subject s with a teacher that resolves. */
  predicate Names(entries: seq<SubjectTeacher>, directory: map<int, TeacherRow>, i: nat, s: Field)
    requires i < |entries|
  {
    entries[i].subject == s && Resolve(entries[i].teacherId, directory).Some?
  }

  /** The last of the first n entries that names subject s with a resolved teacher. */
  function LastNaming(entries: seq<SubjectTeacher>, directory: map<int, TeacherRow>, n: nat, s: Field): (r: Option<nat>)
    requires n <= |entries|
    ensures r.Some? ==> r.value < n && Names(entries, directory, r.value, s)
    ensures r.Some? ==> forall j | r.value < j < n :: !Names(entries, directory, j, s)
    ensures r.None? ==> forall j | 0 <= j < n :: !Names(entries, directory, j, s)
  {
    if n == 0 then None
    else if Names(entries, directory, n - 1, s) then Some(n - 1)
    else LastNaming(entries, directory, n - 1, s)
  }

  /**
   * The map holds exactly the subjects some entry names with a resolved
   * teacher, and the teacher of the last such entry: later entries win.
   */
  lemma {:induction false} SubjectMapIsLast(entries: seq<SubjectTeacher>, directory: map<int, TeacherRow>, n: nat, s: Field)
    requires n <= |entries|
    ensures s in SubjectMap(entries, directory, n) <==> LastNaming(entries, directory, n, s).Some?
    ensures s in SubjectMap(entries, directory, n) ==>
              SubjectMap(entries, directory, n)[s] == Resolve(entries[LastNaming(entries, directory, n, s).value].teacherId, directory).value.fullName
  {
    if n > 0 {
      SubjectMapIsLast(entries, directory, n - 1, s);
    }
  }

  /** An entry after its teacher name is filled in, as the loop leaves it. */
  function Named(e: SubjectTeacher, directory: map<int, TeacherRow>): SubjectTeacher {
    var t := Resolve(e.teacherId, directory);
    if t.Some? then e.(teacherName := t.value.fullName) else e
  }

  // -----------------------------------------------------------------------
  // Timetable

  /** One period of a timetable day. */
  datatype Period = Period(subject: Field, teacher: Field)

  /** A period after the fill: a truthy subject in the map gets that subject's teacher. */
  function Filled(p: Period, subjects: map<Field, Field>): Period {
    if Truthy(p.subject) && p.subject in subjects then p.(teacher := subjects[p.subject]) else p
  }

  /** Fills one day's periods, in order. */
  method FillDay(periods: seq<Period>, subjects: map<Field, Field>) returns (r: seq<Period>)
    ensures |r| == |periods|
    ensures forall i | 0 <= i < |periods| :: r[i] == Filled(periods[i], subjects)
  {
    r := periods;
    var i := 0;
    while i < |r|
      invariant 0 <= i <= |r| == |periods|
      invariant forall j | 0 <= j < i :: r[j] == Filled(periods[j], subjects)
      invariant forall j | i <= j < |r| :: r[j] == periods[j]
    {
      var p := r[i];
      if Truthy(p.subject) && p.subject in subjects {
        r := r[i := p.(teacher := subjects[p.subject])];
      }
      i := i + 1;
    }
  }

  /** Every day's periods filled, days and period counts as they were. */
  predicate TimetableFilled(before: map<string, seq<Period>>, after: map<string, seq<Period>>, subjects: map<Field, Field>) {
    after.Keys == before.Keys
    && forall d | d in before :: |after[d]| == |before[d]|
                                 && forall i | 0 <= i < |before[d]| :: after[d][i] == Filled(before[d][i], subjects)
  }

  // -----------------------------------------------------------------------
  // Create

  /** The class teacher columns a request dict gets from a resolved teacher. */
  function WithClassTeacher(d: map<string, Field>, teacher: Option<TeacherRow>): map<string, Field> {
    if teacher.None? then d
    else d["class_teacher_name" := teacher.value.fullName]["class_teacher_email" := teacher.value.email]
          ["class_teacher_phone" := teacher.value.phone]
  }

  /** `class_section` derived when the dict has both a class name and a section, truthy or not. */
  function WithClassSection(d: map<string, Field>): map<string, Field> {
    if "class_name" in d && "section" in d then d["class_section" := Text(ClassSection(d["class_name"], d["section"]))] else d
  }

  /** The top-level request dict after `create_class`'s rewriting. */
  function PreparedClass(d: map<string, Field>, directory: map<int, TeacherRow>): map<string, Field> {
    WithClassSection(WithClassTeacher(d, Resolve(Get(d, "class_teacher_id"), directory)))
  }

  /**
   * What `create_class` sends to `Class(**…)`: a truthy `class_teacher_id`
   * that names a stored teacher brings that teacher's name, email and
   * phone; `class_section` is derived when both keys were sent; every other
   * key keeps its sent value, and no key disappears.
   */
  lemma PreparedClassFields(d: map<string, Field>, directory: map<int, TeacherRow>)
    ensures var r := PreparedClass(d, directory);
      var t := Resolve(Get(d, "class_teacher_id"), directory);
      && r.Keys >= d.Keys
      && (t.Some? ==> Get(r, "class_teacher_name") == t.value.fullName && Get(r, "class_teacher_email") == t.value.email
                      && Get(r, "class_teacher_phone") == t.value.phone)
      && (t.None? ==> Get(r, "class_teacher_name") == Get(d, "class_teacher_name") && Get(r, "class_teacher_email") == Get(d, "class_teacher_email")
                      && Get(r, "class_teacher_phone") == Get(d, "class_teacher_phone"))
      && ("class_name" in d && "section" in d ==> Get(r, "class_section") == Text(ClassSection(d["class_name"], d["section"])))
      && (!("class_name" in d && "section" in d) ==> Get(r, "class_section") == Get(d, "class_section"))
      && forall k | k in d && k !in {"class_teacher_name", "class_teacher_email", "class_teacher_phone", "class_section"} :: r[k] == d[k]
  {
    ClassTeacherKeysApart();
  }

  /** The class teacher columns are neither the class name, the section nor the class section. */
  lemma ClassTeacherKeysApart()
    ensures "class_name" !in TeacherKeys
    ensures "section" !in TeacherKeys
    ensures "class_section" !in TeacherKeys
    ensures "class_teacher_id" !in TeacherKeys
  {
  }

  /** The keys `create_class` and `update_class` copy from the class teacher. */
  const TeacherKeys: set<string> := {"class_teacher_name", "class_teacher_email", "class_teacher_phone"}

  /** The request dict of `create_class`, whose nested lists and dicts the handler rewrites. */
  class ClassRequest {
    var data: map<string, Field>
    var subjectTeachers: seq<SubjectTeacher>
    var timetable: map<string, seq<Period>>

    constructor (data0: map<string, Field>, subjectTeachers0: seq<SubjectTeacher>, timetable0: map<string, seq<Period>>)
      ensures data == data0 && subjectTeachers == subjectTeachers0 && timetable == timetable0
    {
      data := data0;
      subjectTeachers := subjectTeachers0;
      timetable := timetable0;
    }

    /** Names the teacher of every entry whose id resolves, and builds the subject map. */
    method ResolveSubjectTeachers(directory: map<int, TeacherRow>) returns (subjects: map<Field, Field>)
      modifies this
      ensures data == old(data) && timetable == old(timetable)
      ensures |subjectTeachers| == |old(subjectTeachers)|
      ensures forall i | 0 <= i < |subjectTeachers| :: subjectTeachers[i] == Named(old(subjectTeachers)[i], directory)
      ensures subjects == SubjectMap(old(subjectTeachers), directory, |old(subjectTeachers)|)
    {
      ghost var entries := subjectTeachers;
      subjects := map[];
      var i := 0;
      while i < |subjectTeachers|
        invariant 0 <= i <= |subjectTeachers| == |entries|
        invariant data == old(data) && timetable == old(timetable)
        invariant forall j | 0 <= j < i :: subjectTeachers[j] == Named(entries[j], directory)
        invariant forall j | i <= j < |subjectTeachers| :: subjectTeachers[j] == entries[j]
        invariant subjects == SubjectMap(entries, directory, i)
      {
        var e := subjectTeachers[i];
        var t := Resolve(e.teacherId, directory);
        if t.Some? {
          subjectTeachers := subjectTeachers[i := e.(teacherName := t.value.fullName)];
          subjects := subjects[e.subject := t.value.fullName];
        }
        i := i + 1;
      }
    }

    /** Copies teacher names into every period whose subject is in the map. */
    method FillTimetable(subjects: map<Field, Field>)
      modifies this
      ensures data == old(data) && subjectTeachers == old(subjectTeachers)
      ensures TimetableFilled(old(timetable), timetable, subjects)
    {
      ghost var before := timetable;
      var remaining := timetable.Keys;
      while remaining != {}
        invariant data == old(data) && subjectTeachers == old(subjectTeachers)
        invariant timetable.Keys == before.Keys && remaining <= before.Keys
        invariant forall d | d in before && d in remaining :: timetable[d] == before[d]
        invariant forall d | d in before && d !in remaining ::
                    |timetable[d]| == |before[d]| && forall i | 0 <= i < |before[d]| :: timetable[d][i] == Filled(before[d][i], subjects)
        decreases remaining
      {
        var d :| d in remaining;
        var periods := FillDay(timetable[d], subjects);
        timetable := timetable[d := periods];
        remaining := remaining - {d};
      }
    }

    /** The class teacher's name, email and phone, copied when a truthy `class_teacher_id` resolves. */
    method SetClassTeacher(directory: map<int, TeacherRow>)
      modifies this
      ensures subjectTeachers == old(subjectTeachers) && timetable == old(timetable)
      ensures data == WithClassTeacher(old(data), Resolve(Get(old(data), "class_teacher_id"), directory))
    {
      if Truthy(Get(data, "class_teacher_id")) {
        var teacher := TeacherById(Get(data, "class_teacher_id"), directory);
        if teacher.Some? {
          data := data["class_teacher_name" := teacher.value.fullName]["class_teacher_email" := teacher.value.email];
          data := data["class_teacher_phone" := teacher.value.phone];
        }
      }
    }

    /** `class_section` from the class name and section when the request has both keys. */
    method SetClassSection()
      modifies this
      ensures subjectTeachers == old(subjectTeachers) && timetable == old(timetable)
      ensures data == WithClassSection(old(data))
    {
      if "class_name" in data && "section" in data {
        data := data["class_section" := Text(ClassSection(data["class_name"], data["section"]))];
      }
    }

    /** The rewriting `create_class` does before it builds the row. */
    method Prepare(directory: map<int, TeacherRow>)
      modifies this
      ensures |subjectTeachers| == |old(subjectTeachers)|
      ensures forall i | 0 <= i < |subjectTeachers| :: subjectTeachers[i] == Named(old(subjectTeachers)[i], directory)
      ensures TimetableFilled(old(timetable), timetable, SubjectMap(old(subjectTeachers), directory, |old(subjectTeachers)|))
      ensures data == PreparedClass(old(data), directory)
    {
      SetClassTeacher(directory);
      var subjects := ResolveSubjectTeachers(directory);
      FillTimetable(subjects);
      SetClassSection();
    }
  }

  /**
   * After the fill, a period with a truthy subject has the teacher of the last
   * entry naming that subject with a resolved teacher; without one it keeps
   * its teacher. Its subject never changes.
   */
  lemma PeriodTeacher(entries: seq<SubjectTeacher>, directory: map<int, TeacherRow>, p: Period)
    ensures var q := Filled(p, SubjectMap(entries, directory, |entries|));
      var last := LastNaming(entries, directory, |entries|, p.subject);
      q.subject == p.subject
      && (Truthy(p.subject) && last.Some? ==> q.teacher == Resolve(entries[last.value].teacherId, directory).value.fullName)
      && (!Truthy(p.subject) || last.None? ==> q == p)
  {
    SubjectMapIsLast(entries, directory, |entries|, p.subject);
  }

  /** Filling twice with the same map changes nothing more. */
  lemma FilledIdempotent(p: Period, subjects: map<Field, Field>)
    ensures Filled(Filled(p, subjects), subjects) == Filled(p, subjects)
  {
  }

  // -----------------------------------------------------------------------
  // Update and delete

  /** The attributes `Class` always has that the derived-field rules read or write. */
  predicate ClassShape(attrs: map<string, Field>) {
    "class_name" in attrs && "section" in attrs
    && "class_teacher_name" in attrs && "class_teacher_email" in attrs && "class_teacher_phone" in attrs
  }

  /**
   * The items `update_class` adds to the request before its setattr loop:
   * the teacher's name, email and phone when `class_teacher_id` was sent
   * (truthy or not) and names a stored teacher.
   */
  function TeacherItems(data: Data, directory: map<int, TeacherRow>): (r: Data)
    ensures forall i | 0 <= i < |r| :: r[i].0 in TeacherKeys
  {
    var t := TeacherById(ValueOf(data, "class_teacher_id"), directory);
    if HasKey(data, "class_teacher_id") && t.Some?
    then [("class_teacher_name", t.value.fullName), ("class_teacher_email", t.value.email), ("class_teacher_phone", t.value.phone)]
    else []
  }

  /** The row after `update_class`: the teacher items, setattr, then `class_section`, then the timestamp. */
  function ClassUpdated(attrs: map<string, Field>, data: Data, directory: map<int, TeacherRow>, now: Field): (r: map<string, Field>)
    requires ClassShape(attrs)
    ensures r.Keys >= attrs.Keys
  {
    var items := data + TeacherItems(data, directory);
    var a := Assigned(attrs, items, |items|);
    AssignedIsLatest(attrs, items, |items|);
    var b := if (HasKey(items, "class_name") || HasKey(items, "section")) && Truthy(a["class_name"]) && Truthy(a["section"])
             then a["class_section" := Text(ClassSection(a["class_name"], a["section"]))] else a;
    b["updated_at" := now]
  }

  /** `update_class` on a row that exists. */
  method UpdateClass(row: Row, data: Data, directory: map<int, TeacherRow>, now: Field)
    requires ClassShape(row.attrs)
    modifies row
    ensures row.attrs == ClassUpdated(old(row.attrs), data, directory, now)
  {
    var items := data;
    if HasKey(data, "class_teacher_id") {
      var teacher := TeacherById(ValueOf(data, "class_teacher_id"), directory);
      if teacher.Some? {
        items := items + [("class_teacher_name", teacher.value.fullName), ("class_teacher_email", teacher.value.email),
                          ("class_teacher_phone", teacher.value.phone)];
      }
    }
    assert items == data + TeacherItems(data, directory);
    AssignedIsLatest(row.attrs, items, |items|);
    row.SetAttributes(items);
    row.RefreshClassSection(items);
    row.Touch(now);
  }

  /** A key the teacher items do not name reads, and is present, as in the request alone. */
  lemma TeacherItemsUnnamed(data: Data, directory: map<int, TeacherRow>, key: string, default: Field)
    requires key !in TeacherKeys
    ensures var items := data + TeacherItems(data, directory);
      Latest(items, |items|, key, default) == Latest(data, |data|, key, default)
      && (HasKey(items, key) <==> HasKey(data, key))
  {
    var extra := TeacherItems(data, directory);
    LatestAppend(data, extra, key, default);
    LatestUnnamed(extra, |extra|, key, Latest(data, |data|, key, default));
    var items := data + extra;
    if HasKey(items, key) {
      var i :| 0 <= i < |items| && items[i].0 == key;
      assert i < |data| && data[i].0 == key;
    }
    if HasKey(data, key) {
      var i :| 0 <= i < |data| && data[i].0 == key;
      assert items[i].0 == key;
    }
  }

  /** Sending class or section recomputes `class_section` when both are truthy afterwards. */
  lemma ClassUpdateSection(attrs: map<string, Field>, data: Data, directory: map<int, TeacherRow>, now: Field)
    requires ClassShape(attrs)
    requires HasKey(data, "class_name") || HasKey(data, "section")
    requires Truthy(Latest(data, |data|, "class_name", attrs["class_name"])) && Truthy(Latest(data, |data|, "section", attrs["section"]))
    ensures "class_section" in ClassUpdated(attrs, data, directory, now)
    ensures ClassUpdated(attrs, data, directory, now)["class_section"]
            == Text(ClassSection(Latest(data, |data|, "class_name", attrs["class_name"]), Latest(data, |data|, "section", attrs["section"])))
  {
    var items := data + TeacherItems(data, directory);
    AssignedIsLatest(attrs, items, |items|);
    ClassTeacherKeysApart();
    TeacherItemsUnnamed(data, directory, "class_name", attrs["class_name"]);
    TeacherItemsUnnamed(data, directory, "section", attrs["section"]);
  }

  /** A falsy class name or section after the update leaves `class_section` as the request left it. */
  lemma ClassUpdateFalsyKeeps(attrs: map<string, Field>, data: Data, directory: map<int, TeacherRow>, now: Field)
    requires ClassShape(attrs) && "class_section" in attrs
    requires !Truthy(Latest(data, |data|, "class_name", attrs["class_name"])) || !Truthy(Latest(data, |data|, "section", attrs["section"]))
    ensures "class_section" in ClassUpdated(attrs, data, directory, now)
    ensures ClassUpdated(attrs, data, directory, now)["class_section"] == Latest(data, |data|, "class_section", attrs["class_section"])
  {
    var items := data + TeacherItems(data, directory);
    AssignedIsLatest(attrs, items, |items|);
    ClassTeacherKeysApart();
    TeacherItemsUnnamed(data, directory, "class_name", attrs["class_name"]);
    TeacherItemsUnnamed(data, directory, "section", attrs["section"]);
    TeacherItemsUnnamed(data, directory, "class_section", attrs["class_section"]);
  }

  /** An attribute other than `class_section` and `updated_at` ends as the setattr loop over the items leaves it. */
  lemma UpdatedIsAssigned(attrs: map<string, Field>, data: Data, directory: map<int, TeacherRow>, now: Field, k: string)
    requires ClassShape(attrs)
    requires k in attrs && k != "class_section" && k != "updated_at"
    ensures var items := data + TeacherItems(data, directory);
      ClassUpdated(attrs, data, directory, now)[k] == Latest(items, |items|, k, attrs[k])
  {
    var items := data + TeacherItems(data, directory);
    AssignedIsLatest(attrs, items, |items|);
  }

  /** The class teacher columns are not the two keys `update_class` writes after the loop. */
  lemma TeacherKeysUnwritten()
    ensures "class_teacher_name" != "class_section" && "class_teacher_name" != "updated_at"
    ensures "class_teacher_email" != "class_section" && "class_teacher_email" != "updated_at"
    ensures "class_teacher_phone" != "class_section" && "class_teacher_phone" != "updated_at"
  {
  }

  /** Each teacher item is the last one of its key. */
  lemma TeacherItemsLatest(t: TeacherRow, default: Field)
    ensures var extra := [("class_teacher_name", t.fullName), ("class_teacher_email", t.email), ("class_teacher_phone", t.phone)];
      Latest(extra, 3, "class_teacher_name", default) == t.fullName
      && Latest(extra, 3, "class_teacher_email", default) == t.email
      && Latest(extra, 3, "class_teacher_phone", default) == t.phone
  {
    var extra := [("class_teacher_name", t.fullName), ("class_teacher_email", t.email), ("class_teacher_phone", t.phone)];
    assert "class_teacher_email" != "class_teacher_name" && "class_teacher_phone" != "class_teacher_name";
    assert "class_teacher_phone" != "class_teacher_email";
    assert Latest(extra, 1, "class_teacher_name", default) == t.fullName;
    assert Latest(extra, 2, "class_teacher_name", default) == t.fullName;
    assert Latest(extra, 2, "class_teacher_email", default) == t.email;
  }

  /**
   * Sending a `class_teacher_id` that names a stored teacher, truthy or
   * not, sets the class teacher's name, email and phone from that teacher,
   * whatever the request sent for them.
   */
  lemma ClassUpdateTeacher(attrs: map<string, Field>, data: Data, directory: map<int, TeacherRow>, now: Field)
    requires ClassShape(attrs)
    requires HasKey(data, "class_teacher_id") && TeacherById(ValueOf(data, "class_teacher_id"), directory).Some?
    ensures var r := ClassUpdated(attrs, data, directory, now);
      var t := TeacherById(ValueOf(data, "class_teacher_id"), directory).value;
      r["class_teacher_name"] == t.fullName && r["class_teacher_email"] == t.email && r["class_teacher_phone"] == t.phone
  {
    var t := TeacherById(ValueOf(data, "class_teacher_id"), directory).value;
    var extra := TeacherItems(data, directory);
    TeacherKeysUnwritten();
    UpdatedIsAssigned(attrs, data, directory, now, "class_teacher_name");
    UpdatedIsAssigned(attrs, data, directory, now, "class_teacher_email");
    UpdatedIsAssigned(attrs, data, directory, now, "class_teacher_phone");
    LatestAppend(data, extra, "class_teacher_name", attrs["class_teacher_name"]);
    LatestAppend(data, extra, "class_teacher_email", attrs["class_teacher_email"]);
    LatestAppend(data, extra, "class_teacher_phone", attrs["class_teacher_phone"]);
    TeacherItemsLatest(t, Latest(data, |data|, "class_teacher_name", attrs["class_teacher_name"]));
    TeacherItemsLatest(t, Latest(data, |data|, "class_teacher_email", attrs["class_teacher_email"]));
    TeacherItemsLatest(t, Latest(data, |data|, "class_teacher_phone", attrs["class_teacher_phone"]));
  }

  /** Without such a teacher, the class teacher columns take the request's last values for them, if any. */
  lemma ClassUpdateNoTeacher(attrs: map<string, Field>, data: Data, directory: map<int, TeacherRow>, now: Field)
    requires ClassShape(attrs)
    requires !(HasKey(data, "class_teacher_id") && TeacherById(ValueOf(data, "class_teacher_id"), directory).Some?)
    ensures var r := ClassUpdated(attrs, data, directory, now);
      r["class_teacher_name"] == Latest(data, |data|, "class_teacher_name", attrs["class_teacher_name"])
      && r["class_teacher_email"] == Latest(data, |data|, "class_teacher_email", attrs["class_teacher_email"])
      && r["class_teacher_phone"] == Latest(data, |data|, "class_teacher_phone", attrs["class_teacher_phone"])
  {
    assert data + TeacherItems(data, directory) == data;
    TeacherKeysUnwritten();
    UpdatedIsAssigned(attrs, data, directory, now, "class_teacher_name");
    UpdatedIsAssigned(attrs, data, directory, now, "class_teacher_email");
    UpdatedIsAssigned(attrs, data, directory, now, "class_teacher_phone");
  }

  /** Every other attribute holds the last value the request gives it, or keeps its value. */
  lemma ClassUpdateOthers(attrs: map<string, Field>, data: Data, directory: map<int, TeacherRow>, now: Field, k: string)
    requires ClassShape(attrs)
    requires k in attrs && k != "class_section" && k != "updated_at" && k !in TeacherKeys
    ensures ClassUpdated(attrs, data, directory, now)[k] == Latest(data, |data|, k, attrs[k])
  {
    UpdatedIsAssigned(attrs, data, directory, now, k);
    TeacherItemsUnnamed(data, directory, k, attrs[k]);
  }

  /** `delete_class` without `hard_delete`: the row stays, inactive, with its timestamp untouched. */
  method SoftDeleteClass(row: Row)
    modifies row
    ensures row.attrs == old(row.attrs)["is_active" := Flag(false)]["status" := Text("inactive")]
  {
    row.Deactivate();
  }
}
