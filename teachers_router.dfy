/**
 * The teachers router: employee identifiers, the fields `create_teacher`
 * derives, `update_teacher` and the soft delete. Usernames, ages and
 * pagination follow the same rules as for students and are the ones in
 * `Records`.
 */
module TeachersRouter {
  import opened Common
  import opened Records

  // -----------------------------------------------------------------------
  // Employee identifiers

  /** `f"TEACH{00+teacher_count + 1}"`: the `00+` adds nothing, so no padding. */
  function EmployeeId(count: nat): string {
    "TEACH" + NatToString(count + 1)
  }

  /** The teachers `generate_employee_id` counts: those of the school when one is given, else all. */
  function TeacherCount(schools: seq<Field>, school: Field): (n: nat)
    ensures n <= |schools|
    ensures !Truthy(school) ==> n == |schools|
    ensures Truthy(school) ==> n == |set i | 0 <= i < |schools| && schools[i] == school|
  {
    if !Truthy(school) then |schools| else SchoolCount(schools, school)
  }

  /** How many entries equal `school`. */
  function SchoolCount(schools: seq<Field>, school: Field): (n: nat)
    ensures n <= |schools|
    ensures n == |set i | 0 <= i < |schools| && schools[i] == school|
  {
    if schools == [] then 0
    else
      var rest := SchoolCount(schools[..|schools| - 1], school);
      IndexSetGrows(schools, school);
      rest + if schools[|schools| - 1] == school then 1 else 0
  }

  lemma IndexSetGrows(schools: seq<Field>, school: Field)
    requires schools != []
    ensures var m := |schools| - 1;
      (set i | 0 <= i < |schools| && schools[i] == school)
      == (set i | 0 <= i < m && schools[..m][i] == school) + (if schools[m] == school then {m} else {})
  {
  }

  /** `generate_employee_id`, given the school of every stored teacher. */
  function GenerateEmployeeId(schools: seq<Field>, school: Field): string {
    EmployeeId(TeacherCount(schools, school))
  }

  /** The identifier starts with `TEACH` and its digits read back as the count plus one. */
  lemma EmployeeIdRoundTrip(count: nat)
    ensures StartsWith(EmployeeId(count), "TEACH")
    ensures AllDigits(EmployeeId(count)[5..]) && EmployeeId(count)[5] != '0'
    ensures DigitsValue(EmployeeId(count)[5..]) == count + 1
  {
    var id := EmployeeId(count);
    assert id[..5] == "TEACH";
    assert id[5..] == NatToString(count + 1);
    NatToStringRoundTrip(count + 1);
  }

  /** Different counts give different identifiers. */
  lemma EmployeeIdInjective(c1: nat, c2: nat)
    requires EmployeeId(c1) == EmployeeId(c2)
    ensures c1 == c2
  {
    EmployeeIdRoundTrip(c1);
    EmployeeIdRoundTrip(c2);
  }

  /** The identifier grows by one digit at each power of ten: `TEACH9`, then `TEACH10`. */
  lemma EmployeeIdLength(count: nat)
    ensures |EmployeeId(count)| == 5 + DigitCount(count + 1)
  {
    DigitCountBounds(count + 1);
  }

  // -----------------------------------------------------------------------
  // Create

  /**
   * What `create_teacher` reads besides the request: the current user, the
   * schools table keyed by id, the school of every stored teacher (what
   * `generate_employee_id` counts) and today's date.
   */
  datatype TeacherContext = TeacherContext(user: Option<CurrentUser>, schools: map<Field, School>, teacherSchools: seq<Field>, today: Date)

  const TeacherSchoolKeys: set<string> := {"school_id", "school_name", "school_code", "school_address", "school_city", "school_phone"}
  const TeacherKeys: set<string> := {"employee_id", "joining_date", "age", "full_name"}

  /** The `school_id` the rest of `create_teacher` sees: the current user's when there is one. */
  function TeacherSchoolId(data: map<string, Field>, user: Option<CurrentUser>): Field {
    if user.Some? then user.value.schoolId else Get(data, "school_id")
  }

  /**
   * The fields `create_teacher` derives from the request `d`, with the
   * school id `school`: an employee id generated for that school unless a
   * truthy one was sent, today's joining date, the age of a truthy date of
   * birth, and the full name when both names were sent.
   */
  predicate TeacherDerived(row: map<string, Field>, d: map<string, Field>, school: Field, ctx: TeacherContext) {
    && Get(row, "employee_id") == (if Truthy(Get(d, "employee_id")) then Get(d, "employee_id")
                                   else Text(GenerateEmployeeId(ctx.teacherSchools, school)))
    && Get(row, "joining_date") == Day(ctx.today)
    && (Truthy(Get(d, "date_of_birth")) ==> AgeField(Get(d, "date_of_birth"), ctx.today) == Some(Get(row, "age")))
    && (!Truthy(Get(d, "date_of_birth")) ==> Get(row, "age") == Get(d, "age"))
    && Get(row, "full_name") == (if "first_name" in d && "last_name" in d then Text(FullName(d["first_name"], d["last_name"])) else Get(d, "full_name"))
  }

  /** The school columns of the school row, as `create_teacher` copies them. */
  predicate HasSchoolOf(row: map<string, Field>, s: School) {
    Get(row, "school_code") == s.schoolCode && Get(row, "school_name") == s.schoolName && Get(row, "school_address") == s.address
    && Get(row, "school_city") == s.city && Get(row, "school_phone") == s.phone
  }

  /** The school step: `school_id` and `school_name` from the current user, then the school row's columns when it resolves. */
  method TeacherSchool(data: map<string, Field>, user: Option<CurrentUser>, schools: map<Field, School>) returns (r: map<string, Field>)
    ensures Get(r, "school_id") == TeacherSchoolId(data, user)
    ensures UserSchool(user, schools).Some? ==> HasSchoolOf(r, UserSchool(user, schools).value)
    ensures user.Some? && UserSchool(user, schools).None? ==> Get(r, "school_name") == user.value.schoolName
    ensures forall k | k !in TeacherSchoolKeys :: Keeps(r, data, k)
    ensures UserSchool(user, schools).None? ==> forall k | k !in {"school_id", "school_name"} || user.None? :: Keeps(r, data, k)
  {
    r := data;
    if user.Some? {
      r := r["school_id" := user.value.schoolId]["school_name" := user.value.schoolName];
      if Truthy(r["school_id"]) && r["school_id"] in schools {
        var s := schools[r["school_id"]];
        r := r["school_code" := s.schoolCode]["school_name" := s.schoolName]["school_address" := s.address];
        r := r["school_city" := s.city]["school_phone" := s.phone];
      }
    }
  }

  /**
   * The rest of `create_teacher`: the employee id, joining date and age,
   * then `create_user_for_teacher` (which raises on a name that is not a
   * string), then the full name. None when an exception is raised.
   */
  method TeacherFields(d: map<string, Field>, ctx: TeacherContext) returns (r: Created)
    ensures r.Raised? <==> BirthOf(Get(d, "date_of_birth")).Opaque? || NameRaises(d)
    ensures r.Created? ==> TeacherDerived(r.row, d, Get(d, "school_id"), ctx)
    ensures r.Created? ==> forall k | k !in TeacherKeys :: Keeps(r.row, d, k)
  {
    var t := d;
    if !Truthy(Get(t, "employee_id")) {
      t := t["employee_id" := Text(GenerateEmployeeId(ctx.teacherSchools, Get(t, "school_id")))];
    }
    t := t["joining_date" := Day(ctx.today)];
    if Truthy(Get(t, "date_of_birth")) {
      var age := AgeField(Get(t, "date_of_birth"), ctx.today);
      if age.None? {
        return Raised;
      }
      t := t["age" := age.value];
    }
    if NameRaises(t) {
      return Raised;
    }
    if "first_name" in t && "last_name" in t {
      t := t["full_name" := Text(FullName(t["first_name"], t["last_name"]))];
    }
    r := Created(t);
  }

  /** The keys the later steps read are not school keys. */
  lemma TeacherReadsApart()
    ensures "employee_id" !in TeacherSchoolKeys
    ensures "date_of_birth" !in TeacherSchoolKeys
    ensures "age" !in TeacherSchoolKeys
    ensures "full_name" !in TeacherSchoolKeys
    ensures "first_name" !in TeacherSchoolKeys
    ensures "last_name" !in TeacherSchoolKeys
  {
  }

  /** The later steps write no school key. */
  lemma TeacherSchoolKeysApart()
    ensures "school_id" !in TeacherKeys
    ensures "school_name" !in TeacherKeys
    ensures "school_code" !in TeacherKeys
    ensures "school_address" !in TeacherKeys
    ensures "school_city" !in TeacherKeys
    ensures "school_phone" !in TeacherKeys
  {
  }

  /** The school step changes nothing the later steps read. */
  lemma TeacherSchoolUnread(s: map<string, Field>, d: map<string, Field>, row: map<string, Field>, school: Field, ctx: TeacherContext)
    requires forall k | k !in TeacherSchoolKeys :: Keeps(s, d, k)
    ensures TeacherDerived(row, s, school, ctx) == TeacherDerived(row, d, school, ctx)
    ensures BirthOf(Get(s, "date_of_birth")) == BirthOf(Get(d, "date_of_birth"))
    ensures NameRaises(s) == NameRaises(d)
  {
    TeacherReadsApart();
    assert Keeps(s, d, "employee_id") && Keeps(s, d, "date_of_birth") && Keeps(s, d, "age");
    assert Keeps(s, d, "full_name") && Keeps(s, d, "first_name") && Keeps(s, d, "last_name");
  }

  /** The later steps leave the school columns as the school step set them. */
  lemma TeacherSchoolKept(row: map<string, Field>, s: map<string, Field>)
    requires forall k | k !in TeacherKeys :: Keeps(row, s, k)
    ensures forall school :: HasSchoolOf(row, school) == HasSchoolOf(s, school)
    ensures Get(row, "school_id") == Get(s, "school_id") && Get(row, "school_name") == Get(s, "school_name")
  {
    TeacherSchoolKeysApart();
    assert Keeps(row, s, "school_id") && Keeps(row, s, "school_name") && Keeps(row, s, "school_code");
    assert Keeps(row, s, "school_address") && Keeps(row, s, "school_city") && Keeps(row, s, "school_phone");
  }

  /**
   * `create_teacher` up to building the row: the request dict it passes to
   * `Teacher(**…)`, or the exception it raises first. The school is always
   * the current user's, and its columns are copied when it resolves; the
   * employee id is generated for that school.
   */
  method PrepareTeacher(data: map<string, Field>, ctx: TeacherContext) returns (r: Created)
    ensures r.Raised? <==> BirthOf(Get(data, "date_of_birth")).Opaque? || NameRaises(data)
    ensures r.Created? ==> TeacherDerived(r.row, data, TeacherSchoolId(data, ctx.user), ctx)
    ensures r.Created? && ctx.user.Some? ==> Get(r.row, "school_id") == ctx.user.value.schoolId
    ensures r.Created? && UserSchool(ctx.user, ctx.schools).Some? ==> HasSchoolOf(r.row, UserSchool(ctx.user, ctx.schools).value)
    ensures r.Created? && ctx.user.Some? && UserSchool(ctx.user, ctx.schools).None? ==> Get(r.row, "school_name") == ctx.user.value.schoolName
    ensures r.Created? ==> forall k | k !in TeacherKeys + TeacherSchoolKeys :: Keeps(r.row, data, k)
    ensures r.Created? && UserSchool(ctx.user, ctx.schools).None? ==>
              forall k | k !in TeacherKeys && (k !in {"school_id", "school_name"} || ctx.user.None?) :: Keeps(r.row, data, k)
  {
    var s := TeacherSchool(data, ctx.user, ctx.schools);
    r := TeacherFields(s, ctx);
    TeacherSchoolUnread(s, data, if r.Created? then r.row else map[], TeacherSchoolId(data, ctx.user), ctx);
    if r.Created? {
      TeacherSchoolKept(r.row, s);
      forall k | k !in TeacherKeys + TeacherSchoolKeys
        ensures Keeps(r.row, data, k)
      {
        assert Keeps(r.row, s, k) && Keeps(s, data, k);
      }
      if UserSchool(ctx.user, ctx.schools).None? {
        forall k | k !in TeacherKeys && (k !in {"school_id", "school_name"} || ctx.user.None?)
          ensures Keeps(r.row, data, k)
        {
          assert Keeps(r.row, s, k) && Keeps(s, data, k);
        }
      }
    }
  }

  // -----------------------------------------------------------------------
  // Update

  /** The attributes `Teacher` always has that the derived-field rule reads. */
  predicate TeacherShape(attrs: map<string, Field>) {
    "first_name" in attrs && "last_name" in attrs
  }

  /** The row after `update_teacher`: setattr, then the full name, then the timestamp. */
  function TeacherUpdated(attrs: map<string, Field>, data: Data, now: Field): map<string, Field>
    requires TeacherShape(attrs)
  {
    var a := Assigned(attrs, data, |data|);
    AssignedIsLatest(attrs, data, |data|);
    var b := if HasKey(data, "first_name") || HasKey(data, "last_name")
             then a["full_name" := Text(FullName(a["first_name"], a["last_name"]))] else a;
    b["updated_at" := now]
  }

  /** `update_teacher` on a row that exists. */
  method UpdateTeacher(row: Row, data: Data, now: Field)
    requires TeacherShape(row.attrs)
    modifies row
    ensures row.attrs == TeacherUpdated(old(row.attrs), data, now)
  {
    AssignedIsLatest(row.attrs, data, |data|);
    row.SetAttributes(data);
    row.RefreshFullName(data);
    row.Touch(now);
  }

  /** An update adds no attribute but `updated_at` and `full_name`, and removes none. */
  lemma TeacherUpdateKeys(attrs: map<string, Field>, data: Data, now: Field)
    requires TeacherShape(attrs)
    ensures attrs.Keys + {"updated_at"} <= TeacherUpdated(attrs, data, now).Keys <= attrs.Keys + {"updated_at", "full_name"}
  {
    AssignedIsLatest(attrs, data, |data|);
  }

  /** Every other attribute holds the last value the request gives it, or keeps its value. */
  lemma TeacherUpdateOthers(attrs: map<string, Field>, data: Data, now: Field, k: string)
    requires TeacherShape(attrs)
    requires k in attrs && k != "full_name" && k != "updated_at"
    ensures k in TeacherUpdated(attrs, data, now) && TeacherUpdated(attrs, data, now)[k] == Latest(data, |data|, k, attrs[k])
  {
    AssignedIsLatest(attrs, data, |data|);
  }

  /** Sending either name recomputes `full_name` from the names after the update. */
  lemma TeacherUpdateFullName(attrs: map<string, Field>, data: Data, now: Field)
    requires TeacherShape(attrs)
    requires HasKey(data, "first_name") || HasKey(data, "last_name")
    ensures "full_name" in TeacherUpdated(attrs, data, now)
    ensures TeacherUpdated(attrs, data, now)["full_name"]
            == Text(FullName(Latest(data, |data|, "first_name", attrs["first_name"]), Latest(data, |data|, "last_name", attrs["last_name"])))
  {
    AssignedIsLatest(attrs, data, |data|);
  }

  /** Sending neither name (nor `full_name` itself) leaves `full_name` alone. */
  lemma TeacherUpdateKeepsFullName(attrs: map<string, Field>, data: Data, now: Field)
    requires TeacherShape(attrs) && "full_name" in attrs
    requires !HasKey(data, "first_name") && !HasKey(data, "last_name") && !HasKey(data, "full_name")
    ensures "full_name" in TeacherUpdated(attrs, data, now)
    ensures TeacherUpdated(attrs, data, now)["full_name"] == attrs["full_name"]
  {
    AssignedIsLatest(attrs, data, |data|);
    LatestUnnamed(data, |data|, "full_name", attrs["full_name"]);
  }

  // -----------------------------------------------------------------------
  // Delete

  /** `delete_teacher` without `hard_delete`: the row stays, inactive, and so does the account with its email. */
  method SoftDeleteTeacher(row: Row, users: UserTable, now: Field)
    requires "email" in row.attrs
    modifies row, users
    ensures row.attrs == old(row.attrs)["is_active" := Flag(false)]["status" := Text("inactive")]["updated_at" := now]
    ensures var email := old(row.attrs)["email"];
      if Truthy(email) then
        (FirstMatch(old(users.accounts), ByEmail(email)).None? ==> users.accounts == old(users.accounts))
        && (FirstMatch(old(users.accounts), ByEmail(email)).Some? ==>
              var i := FirstMatch(old(users.accounts), ByEmail(email)).value;
              users.accounts == old(users.accounts)[i := old(users.accounts)[i].(isActive := false, updatedAt := now)])
      else users.accounts == old(users.accounts)
  {
    row.Deactivate();
    row.Touch(now);
    var email := row.attrs["email"];
    if Truthy(email) {
      users.DeactivateFirst(ByEmail(email), now);
    }
  }
}
