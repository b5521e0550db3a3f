/**
 * What the student, teacher and class routers share: the values their request
 * dicts and rows hold, the `setattr` update loop, soft deletion of a row and
 * of its login account, the username search, age from a date of birth and
 * the pagination fields of a list response.
 */
module Records {
  import opened Common

  // -----------------------------------------------------------------------
  // Values

  /** A value held by a row attribute or sent in a JSON request body. */
  datatype Field = Null | Text(s: string) | Number(n: int) | Flag(b: bool) | Day(date: Date)

  /** Python truthiness of a value. */
  predicate Truthy(f: Field) {
    match f
    case Null => false
    case Text(s) => s != ""
    case Number(n) => n != 0
    case Flag(b) => b
    case Day(_) => true
  }

  function IntToString(n: int): string {
    if n < 0 then "-" + NatToString(-n) else NatToString(n)
  }

  /** `"%0Nd" % n`: the sign, then the digits zero-padded so that both fill `width`. */
  function PadInt(n: int, width: nat): string {
    if n < 0 then "-" + ZeroPad(-n, if width > 0 then width - 1 else 0) else ZeroPad(n, width)
  }

  /** How an f-string renders a value; a date renders as `str(date)`, its ISO form. */
  function Render(f: Field): string {
    match f
    case Null => "None"
    case Text(s) => s
    case Number(n) => IntToString(n)
    case Flag(b) => if b then "True" else "False"
    case Day(d) => IsoFormat(d)
  }

  /** `f"{first} {last}"`, the derived `full_name`. */
  function FullName(first: Field, last: Field): string {
    Render(first) + " " + Render(last)
  }

  /** `f"{class_name}-{section}"`, the derived `class_section`. */
  function ClassSection(className: Field, section: Field): string {
    Render(className) + "-" + Render(section)
  }

  /** A request dict, in insertion order. */
  type Data = seq<(string, Field)>

  /** `key in data`. */
  predicate HasKey(data: Data, key: string) {
    exists i | 0 <= i < |data| :: data[i].0 == key
  }

  /** `update_data[key]` of a dict that holds the key; `Null` when it does not. */
  function ValueOf(data: Data, key: string): Field {
    Latest(data, |data|, key, Null)
  }

  /** `data.get(key)`: the value, or `Null` (Python's None) for a missing key. */
  function Get(data: map<string, Field>, key: string): Field {
    if key in data then data[key] else Null
  }

  /** The key is present in both dicts or in neither, with the same value. */
  predicate Keeps(r: map<string, Field>, d: map<string, Field>, k: string) {
    (k in r <==> k in d) && Get(r, k) == Get(d, k)
  }

  /** The user making the request, as far as the create handlers read it. */
  datatype CurrentUser = CurrentUser(schoolId: Field, schoolName: Field, username: Field)

  /** A row of the schools table, as far as the create handlers copy it. */
  datatype School = School(schoolCode: Field, schoolName: Field, address: Field, city: Field, state: Field, email: Field, phone: Field)

  /**
   * What a create handler passes to the row constructor: the prepared dict,
   * or an exception raised before anything is committed.
   */
  datatype Created = Created(row: map<string, Field>) | Raised

  /** The school the current user belongs to, when its `school_id` is truthy and names a stored school. */
  function UserSchool(user: Option<CurrentUser>, schools: map<Field, School>): (r: Option<School>)
    ensures r.Some? <==> user.Some? && Truthy(user.value.schoolId) && user.value.schoolId in schools
  {
    if user.Some? && Truthy(user.value.schoolId) && user.value.schoolId in schools then Some(schools[user.value.schoolId]) else None
  }

  /** `school_id` and `school_name` forced from the current user, when there is one. */
  function UserSchoolFields(user: Option<CurrentUser>): (r: map<string, Field>)
    ensures user.None? ==> r == map[]
    ensures user.Some? ==> r.Keys == {"school_id", "school_name"}
                           && r["school_id"] == user.value.schoolId && r["school_name"] == user.value.schoolName
  {
    if user.None? then map[] else map["school_id" := user.value.schoolId, "school_name" := user.value.schoolName]
  }

  /** Python's `f"{first.lower()}…"` raises unless the first name is a string. */
  predicate NameRaises(data: map<string, Field>) {
    ("first_name" in data && !data["first_name"].Text?)
    || ("last_name" in data && Truthy(data["last_name"]) && !data["last_name"].Text?)
  }

  // -----------------------------------------------------------------------
  // The setattr loop

  /** The attributes after `setattr` of the first n items that name an attribute. */
  function Assigned(attrs: map<string, Field>, data: Data, n: nat): map<string, Field>
    requires n <= |data|
  {
    if n == 0 then attrs
    else
      var front := Assigned(attrs, data, n - 1);
      var item := data[n - 1];
      if item.0 in attrs then front[item.0 := item.1] else front
  }

  /** The value of the last of the first n items with that key; `default` when there is none. */
  function Latest(data: Data, n: nat, key: string, default: Field): Field
    requires n <= |data|
  {
    if n == 0 then default
    else if data[n - 1].0 == key then data[n - 1].1
    else Latest(data, n - 1, key, default)
  }

  /**
   * `setattr` keeps the set of attributes, and leaves each attribute with the
   * last value the request gives it, or its old value when it gives none.
   */
  lemma {:induction false} AssignedIsLatest(attrs: map<string, Field>, data: Data, n: nat)
    requires n <= |data|
    ensures Assigned(attrs, data, n).Keys == attrs.Keys
    ensures forall k :: k in attrs ==> Assigned(attrs, data, n)[k] == Latest(data, n, k, attrs[k])
  {
    if n > 0 {
      AssignedIsLatest(attrs, data, n - 1);
    }
  }

  /** Items appended to a dict override the earlier values of their keys only. */
  lemma {:induction false} LatestAppend(data: Data, extra: Data, key: string, default: Field)
    ensures Latest(data + extra, |data + extra|, key, default) == Latest(extra, |extra|, key, Latest(data, |data|, key, default))
    decreases |extra|
  {
    var d := Latest(data, |data|, key, default);
    if extra == [] {
      assert data + extra == data;
    } else {
      var front := extra[..|extra| - 1];
      var full := data + extra;
      var last := extra[|extra| - 1];
      assert full[|full| - 1] == last;
      assert full[..|full| - 1] == (data + front)[..|full| - 1];
      LatestSamePrefix(full, data + front, |full| - 1, key, default);
      LatestSamePrefix(extra, front, |front|, key, d);
      LatestAppend(data, front, key, default);
      if last.0 != key {
        calc {
          Latest(full, |full|, key, default);
          Latest(full, |full| - 1, key, default);
          Latest(data + front, |data + front|, key, default);
          Latest(front, |front|, key, d);
          Latest(extra, |extra| - 1, key, d);
          Latest(extra, |extra|, key, d);
        }
      }
    }
  }

  /** Latest over the first n items depends on those items only. */
  lemma {:induction false} LatestSamePrefix(s: Data, t: Data, n: nat, key: string, default: Field)
    requires n <= |s| && n <= |t| && s[..n] == t[..n]
    ensures Latest(s, n, key, default) == Latest(t, n, key, default)
  {
    if n > 0 {
      assert s[n - 1] == s[..n][n - 1] && t[n - 1] == t[..n][n - 1];
      assert s[..n - 1] == s[..n][..n - 1] && t[..n - 1] == t[..n][..n - 1];
      LatestSamePrefix(s, t, n - 1, key, default);
    }
  }

  /** An attribute the request does not name keeps its value. */
  lemma {:induction false} LatestUnnamed(data: Data, n: nat, key: string, default: Field)
    requires n <= |data|
    requires forall i | 0 <= i < n :: data[i].0 != key
    ensures Latest(data, n, key, default) == default
  {
    if n > 0 {
      LatestUnnamed(data, n - 1, key, default);
    }
  }

  /** A row of a denormalised table, whose attributes the routers update in place. */
  class Row {
    var attrs: map<string, Field>

    constructor (attrs0: map<string, Field>)
      ensures attrs == attrs0
    {
      attrs := attrs0;
    }

    /** `for field, value in data.items(): if hasattr(row, field): setattr(row, field, value)`. */
    method SetAttributes(data: Data)
      modifies this
      ensures attrs == Assigned(old(attrs), data, |data|)
    {
      ghost var attrs0 := attrs;
      var i := 0;
      while i < |data|
        invariant 0 <= i <= |data|
        invariant attrs.Keys == attrs0.Keys
        invariant attrs == Assigned(attrs0, data, i)
      {
        var (field, value) := data[i];
        if field in attrs {
          attrs := attrs[field := value];
        }
        i := i + 1;
      }
    }

    /** Recomputes `full_name` when the update names either name field. */
    method RefreshFullName(data: Data)
      requires "first_name" in attrs && "last_name" in attrs
      modifies this
      ensures attrs == if HasKey(data, "first_name") || HasKey(data, "last_name")
                       then old(attrs)["full_name" := Text(FullName(old(attrs)["first_name"], old(attrs)["last_name"]))]
                       else old(attrs)
    {
      if HasKey(data, "first_name") || HasKey(data, "last_name") {
        attrs := attrs["full_name" := Text(FullName(attrs["first_name"], attrs["last_name"]))];
      }
    }

    /** Recomputes `class_section` when the update names class or section and both are set. */
    method RefreshClassSection(data: Data)
      requires "class_name" in attrs && "section" in attrs
      modifies this
      ensures attrs == if (HasKey(data, "class_name") || HasKey(data, "section"))
                          && Truthy(old(attrs)["class_name"]) && Truthy(old(attrs)["section"])
                       then old(attrs)["class_section" := Text(ClassSection(old(attrs)["class_name"], old(attrs)["section"]))]
                       else old(attrs)
    {
      if HasKey(data, "class_name") || HasKey(data, "section") {
        if Truthy(attrs["class_name"]) && Truthy(attrs["section"]) {
          attrs := attrs["class_section" := Text(ClassSection(attrs["class_name"], attrs["section"]))];
        }
      }
    }

    /** Soft delete: the row stays, inactive. */
    method Deactivate()
      modifies this
      ensures attrs == old(attrs)["is_active" := Flag(false)]["status" := Text("inactive")]
    {
      attrs := attrs["is_active" := Flag(false)];
      attrs := attrs["status" := Text("inactive")];
    }

    /** `updated_at = datetime.now()`, with the clock reading passed in. */
    method Touch(now: Field)
      modifies this
      ensures attrs == old(attrs)["updated_at" := now]
    {
      attrs := attrs["updated_at" := now];
    }
  }

  // -----------------------------------------------------------------------
  // Login accounts

  /** A row of the users table, as far as deactivation sees it. */
  datatype Account = Account(id: int, email: Field, isActive: bool, updatedAt: Field)

  /** How a router finds the account of a deleted row. */
  datatype Lookup = ById(id: int) | ByEmail(email: Field)

  predicate Matches(a: Account, q: Lookup) {
    match q
    case ById(id) => a.id == id
    case ByEmail(email) => a.email == email
  }

  /** The index `.first()` returns: the lowest matching one. */
  function FirstMatch(accounts: seq<Account>, q: Lookup): (r: Option<nat>)
    ensures r.Some? ==> r.value < |accounts| && Matches(accounts[r.value], q)
    ensures r.Some? ==> forall j | 0 <= j < r.value :: !Matches(accounts[j], q)
    ensures r.None? ==> forall j | 0 <= j < |accounts| :: !Matches(accounts[j], q)
  {
    if accounts == [] then None
    else if Matches(accounts[0], q) then Some(0)
    else
      var rest := FirstMatch(accounts[1..], q);
      if rest.Some? then Some(rest.value + 1) else None
  }

  class UserTable {
    var accounts: seq<Account>

    constructor (accounts0: seq<Account>)
      ensures accounts == accounts0
    {
      accounts := accounts0;
    }

    /** The first matching account, if any, becomes inactive and stamped with the clock reading `now`. */
    method DeactivateFirst(q: Lookup, now: Field)
      modifies this
      ensures FirstMatch(old(accounts), q).None? ==> accounts == old(accounts)
      ensures FirstMatch(old(accounts), q).Some? ==>
                var i := FirstMatch(old(accounts), q).value;
                accounts == old(accounts)[i := old(accounts)[i].(isActive := false, updatedAt := now)]
    {
      var i := 0;
      while i < |accounts| && !Matches(accounts[i], q)
        invariant 0 <= i <= |accounts|
        invariant forall j | 0 <= j < i :: !Matches(accounts[j], q)
      {
        i := i + 1;
      }
      if i < |accounts| {
        accounts := accounts[i := accounts[i].(isActive := false, updatedAt := now)];
      }
    }
  }

  // -----------------------------------------------------------------------
  // Usernames

  /** `first.last` lower-cased, or only the first name when the last one is empty. */
  function BaseUsername(first: string, last: string): string {
    if last == "" then Lower(first) else Lower(first) + "." + Lower(last)
  }

  /** The name tried on the counter-th round: the base, then base2, base3, … */
  function Candidate(base: string, counter: nat): string {
    if counter <= 1 then base else base + NatToString(counter)
  }

  lemma CandidateInjective(base: string, i: nat, j: nat)
    requires 1 <= i && 1 <= j
    ensures Candidate(base, i) == Candidate(base, j) ==> i == j
  {
    if i >= 2 && j >= 2 && Candidate(base, i) == Candidate(base, j) {
      assert NatToString(i) == Candidate(base, i)[|base|..];
      assert NatToString(j) == Candidate(base, j)[|base|..];
      NatToStringRoundTrip(i);
      NatToStringRoundTrip(j);
    }
  }

  function Candidates(base: string, n: nat): set<string> {
    if n == 0 then {} else Candidates(base, n - 1) + {Candidate(base, n)}
  }

  lemma {:induction false} CandidatesSize(base: string, n: nat)
    ensures |Candidates(base, n)| == n
  {
    if n > 0 {
      CandidatesSize(base, n - 1);
      CandidateFresh(base, n, n - 1);
    }
  }

  lemma {:induction false} CandidateFresh(base: string, n: nat, m: nat)
    requires 1 <= n && m < n
    ensures Candidate(base, n) !in Candidates(base, m)
  {
    if m > 0 {
      CandidateFresh(base, n, m - 1);
      CandidateInjective(base, n, m);
    }
  }

  lemma {:induction false} CandidatesWithin(base: string, n: nat, taken: set<string>)
    requires forall j | 1 <= j <= n :: Candidate(base, j) in taken
    ensures Candidates(base, n) <= taken
  {
    if n > 0 {
      CandidatesWithin(base, n - 1, taken);
    }
  }

  /** n distinct candidates all taken: there are at least n taken names. */
  lemma TakenBound(base: string, n: nat, taken: set<string>)
    requires forall j | 1 <= j <= n :: Candidate(base, j) in taken
    ensures n <= |taken|
  {
    CandidatesSize(base, n);
    CandidatesWithin(base, n, taken);
    SubsetSize(Candidates(base, n), taken);
  }

  lemma SubsetSize<T>(a: set<T>, b: set<T>)
    requires a <= b
    ensures |a| <= |b|
  {
    assert b == a + (b - a);
  }

  /**
   * `generate_username`: the first of base, base2, base3, … that no user has
   * yet. The taken names are the usernames in the users table.
   */
  method GenerateUsername(first: string, last: string, taken: set<string>) returns (username: string)
    ensures username !in taken
    ensures exists k :: 1 <= k && username == Candidate(BaseUsername(first, last), k)
                        && forall j | 1 <= j < k :: Candidate(BaseUsername(first, last), j) in taken
  {
    var base := BaseUsername(first, last);
    username := base;
    var counter := 1;
    while username in taken
      invariant 1 <= counter && username == Candidate(base, counter)
      invariant forall j | 1 <= j < counter :: Candidate(base, j) in taken
      decreases |taken| + 1 - counter
    {
      TakenBound(base, counter, taken);
      counter := counter + 1;
      username := base + NatToString(counter);
    }
  }

  // -----------------------------------------------------------------------
  // Age

  datatype Date = Date(year: int, month: int, day: int)

  predicate LeapYear(y: int) {
    y % 4 == 0 && (y % 100 != 0 || y % 400 == 0)
  }

  function DaysInMonth(y: int, m: int): int {
    if m == 2 then (if LeapYear(y) then 29 else 28)
    else if m == 4 || m == 6 || m == 9 || m == 11 then 30
    else 31
  }

  /** A date Python's `date` accepts. */
  predicate ValidDate(d: Date) {
    1 <= d.year <= 9999 && 1 <= d.month <= 12 && 1 <= d.day <= DaysInMonth(d.year, d.month)
  }

  /** Calendar order on (year, month, day). */
  predicate Before(a: Date, b: Date) {
    a.year < b.year || (a.year == b.year && (a.month < b.month || (a.month == b.month && a.day < b.day)))
  }

  /** `str(date)`: `YYYY-MM-DD`, zero-padded. */
  function IsoFormat(d: Date): string {
    PadInt(d.year, 4) + "-" + PadInt(d.month, 2) + "-" + PadInt(d.day, 2)
  }

  /**
   * The day field `%d` of `strptime` reads: one or two digits, or a blank
   * followed by one non-zero digit.
   */
  function ParseDay(s: string): Option<nat> {
    if 1 <= |s| <= 2 && AllDigits(s) then Some(DigitsValue(s))
    else if |s| == 2 && s[0] == ' ' && '1' <= s[1] <= '9' then Some(DigitValue(s[1]))
    else None
  }

  /**
   * `datetime.strptime(s, '%Y-%m-%d')`: four digits of year, one or two of
   * month, the day field, and a date that exists.
   */
  function ParseIsoDate(s: string): (r: Option<Date>)
    ensures r.Some? ==> ValidDate(r.value)
    ensures r.Some? ==> var p := Split(s, '-');
      |p| == 3 && AllDigits(p[0]) && AllDigits(p[1])
      && DigitsValue(p[0]) == r.value.year && DigitsValue(p[1]) == r.value.month && ParseDay(p[2]) == Some(r.value.day)
  {
    var parts := Split(s, '-');
    if |parts| != 3 || !(|parts[0]| == 4 && AllDigits(parts[0])) || !(1 <= |parts[1]| <= 2 && AllDigits(parts[1])) then None
    else
      var day := ParseDay(parts[2]);
      if day.None? then None
      else
        var d := Date(DigitsValue(parts[0]), DigitsValue(parts[1]), day.value);
        if ValidDate(d) then Some(d) else None
  }

  /**
   * A valid date written as four year digits, a one- or two-digit month and
   * any day field `%d` reads parses to that date.
   */
  lemma ParseIsoDateAccepts(d: Date, monthText: string, dayText: string)
    requires ValidDate(d)
    requires 1 <= |monthText| <= 2 && AllDigits(monthText) && DigitsValue(monthText) == d.month
    requires ParseDay(dayText) == Some(d.day) && '-' !in dayText
    ensures ParseIsoDate(ZeroPad(d.year, 4) + "-" + monthText + "-" + dayText) == Some(d)
  {
    var y := ZeroPad(d.year, 4);
    NatToStringLength(d.year, 4);
    ZeroPadRoundTrip(d.year, 4);
    DigitsNoDash(y);
    DigitsNoDash(monthText);
    SplitThree(y, monthText, dayText);
    ParseIsoFromPieces(y + "-" + monthText + "-" + dayText, d, y, monthText, dayText);
  }

  lemma ParseIsoFromPieces(s: string, d: Date, y: string, m: string, dt: string)
    requires Split(s, '-') == [y, m, dt]
    requires |y| == 4 && AllDigits(y) && DigitsValue(y) == d.year
    requires 1 <= |m| <= 2 && AllDigits(m) && DigitsValue(m) == d.month
    requires ParseDay(dt) == Some(d.day) && ValidDate(d)
    ensures ParseIsoDate(s) == Some(d)
  {
  }

  lemma DigitsNoDash(s: string)
    requires AllDigits(s)
    ensures '-' !in s
  {
    assert forall i | 0 <= i < |s| :: IsDigit(s[i]);
  }

  /** Three dash-free pieces joined by dashes split back into themselves. */
  lemma SplitThree(a: string, b: string, c: string)
    requires '-' !in a && '-' !in b && '-' !in c
    ensures Split(a + "-" + b + "-" + c, '-') == [a, b, c]
  {
    var parts := [a, b, c];
    assert Join(parts[2..], "-") == c;
    assert Join(parts[1..], "-") == b + "-" + c;
    assert Join(parts, "-") == a + "-" + (b + "-" + c);
    assert a + "-" + (b + "-" + c) == a + "-" + b + "-" + c;
    SplitJoin(parts, '-');
  }

  /** `str(date)` parses back to the date. */
  lemma IsoFormatRoundTrip(d: Date)
    requires ValidDate(d)
    ensures ParseIsoDate(IsoFormat(d)) == Some(d)
  {
    var m := ZeroPad(d.month, 2);
    var dd := ZeroPad(d.day, 2);
    NatToStringLength(d.month, 2);
    NatToStringLength(d.day, 2);
    ZeroPadRoundTrip(d.month, 2);
    ZeroPadRoundTrip(d.day, 2);
    assert '-' !in dd by {
      assert forall i | 0 <= i < |dd| :: IsDigit(dd[i]);
    }
    ParseIsoDateAccepts(d, m, dd);
  }

  /** A blank-padded day such as `2010-03- 5` parses too. */
  lemma BlankPaddedDayParses(d: Date)
    requires ValidDate(d) && d.day < 10
    ensures ParseIsoDate(ZeroPad(d.year, 4) + "-" + ZeroPad(d.month, 2) + "- " + [DigitChar(d.day)]) == Some(d)
  {
    var m := ZeroPad(d.month, 2);
    NatToStringLength(d.month, 2);
    ZeroPadRoundTrip(d.month, 2);
    var dayText := " " + [DigitChar(d.day)];
    assert !IsDigit(dayText[0]);
    assert ZeroPad(d.year, 4) + "-" + m + "- " + [DigitChar(d.day)] == ZeroPad(d.year, 4) + "-" + m + "-" + dayText;
    ParseIsoDateAccepts(d, m, dayText);
  }

  /** A number below 10^k has at most k digits. */
  lemma {:induction false} NatToStringLength(n: nat, k: nat)
    requires 1 <= k && n < Pow10(k)
    ensures |NatToString(n)| <= k
    ensures |NatToString(n)| <= k ==> |ZeroPad(n, k)| == k
    decreases k
  {
    if n >= 10 {
      NatToStringLength(n / 10, k - 1);
    }
  }

  /**
   * What `calculate_age` receives: nothing (or a falsy value), a string, a
   * date, or a truthy value that is neither, whose `.year` raises.
   */
  datatype BirthDate = Missing | Entered(text: string) | Stored(date: Date) | Opaque

  /** The outcome of `calculate_age`: None, a number of years, or the exception it raises. */
  datatype Age = NoAge | Years(years: int) | Raises

  /** Whole years from dob to today: one less while this year's birthday is still ahead. */
  function YearsBetween(dob: Date, today: Date): int {
    today.year - dob.year - if today.month < dob.month || (today.month == dob.month && today.day < dob.day) then 1 else 0
  }

  /** The date of birth a truthy, parseable value denotes. */
  function Birthday(dob: BirthDate): Option<Date> {
    match dob
    case Entered(text) => if text == "" then None else ParseIsoDate(text)
    case Stored(d) => Some(d)
    case _ => None
  }

  /** The date's anniversary k years on, as a (year, month, day) triple. */
  function Anniversary(dob: Date, k: int): Date {
    Date(dob.year + k, dob.month, dob.day)
  }

  /**
   * `calculate_age`, with today's date passed in: None for a falsy or
   * unparseable date of birth, an exception for a value with no `.year`,
   * otherwise the number of anniversaries of it reached by today.
   */
  function CalculateAge(dob: BirthDate, today: Date): (r: Age)
    ensures r.Raises? <==> dob.Opaque?
    ensures r.Years? <==> Birthday(dob).Some?
    ensures dob.Missing? || dob == Entered("") ==> r == NoAge
    ensures dob.Entered? && ParseIsoDate(dob.text).None? ==> r == NoAge
    ensures r.Years? ==> var d := Birthday(dob).value;
      !Before(today, Anniversary(d, r.years)) && Before(today, Anniversary(d, r.years + 1))
  {
    if dob.Opaque? then Raises
    else
      var d := Birthday(dob);
      if d.Some? then Years(YearsBetween(d.value, today)) else NoAge
  }

  /** No other number of years has that property. */
  lemma AgeUnique(dob: Date, today: Date, k: int)
    requires !Before(today, Anniversary(dob, k)) && Before(today, Anniversary(dob, k + 1))
    ensures k == YearsBetween(dob, today)
  {
  }

  /** Reads a request or row value as the date of birth `calculate_age` receives. */
  function BirthOf(f: Field): (r: BirthDate)
    ensures r.Opaque? <==> Truthy(f) && (f.Number? || f.Flag?)
  {
    match f
    case Text(s) => Entered(s)
    case Day(d) => Stored(d)
    case Null => Missing
    case _ => if Truthy(f) then Opaque else Missing
  }

  /** The stored age: `calculate_age` of the date of birth, or None when it raises. */
  function AgeField(dob: Field, today: Date): (r: Option<Field>)
    ensures r.None? <==> Truthy(dob) && (dob.Number? || dob.Flag?)
  {
    match CalculateAge(BirthOf(dob), today)
    case Years(a) => Some(Number(a))
    case NoAge => Some(Null)
    case Raises => None
  }

  // -----------------------------------------------------------------------
  // Pagination

  /** `skip // limit + 1`. */
  function PageNumber(skip: nat, limit: nat): (page: nat)
    requires 1 <= limit
    ensures 1 <= page
    ensures (page - 1) * limit <= skip < page * limit
  {
    skip / limit + 1
  }

  /** `(total + limit - 1) // limit`: the number of pages of `limit` rows holding `total` rows. */
  function TotalPages(total: nat, limit: nat): (pages: nat)
    requires 1 <= limit
    ensures total <= pages * limit
    ensures pages == 0 || (pages - 1) * limit < total
  {
    (total + limit - 1) / limit
  }

  lemma FactorBelow(a: int, b: int, c: int)
    requires 0 < c && a * c < b * c
    ensures a < b
  {
    assert (b - a) * c == b * c - a * c;
  }

  /** A page that starts at a row that exists is one of the pages. */
  lemma PageWithinTotal(skip: nat, limit: nat, total: nat)
    requires 1 <= limit && skip < total
    ensures PageNumber(skip, limit) <= TotalPages(total, limit)
  {
    var p := PageNumber(skip, limit);
    var t := TotalPages(total, limit);
    assert (p - 1) * limit < t * limit;
    FactorBelow(p - 1, t, limit);
  }
}
