/**
 * A student's month view: the calendar grid built week by week, the date key
 * a cell is looked up by, and the badge for the month's percentage. The
 * month's length and the weekday of its first day come from the date
 * library and are inputs here.
 */
module AttendanceCalendar {
  import opened Common

  /** The grid position p (row-major, 7 to a row) holds day p - start + 1 when there is one. */
  function CellAt(start: nat, days: nat, p: int): (c: Option<nat>)
    ensures c.Some? <==> start <= p < start + days
    ensures c.Some? ==> 1 <= c.value <= days && c.value == p - start + 1
  {
    if p < start || p >= start + days then None else Some(p - start + 1)
  }

  /** How many days come before grid position p. */
  function DaysBefore(start: nat, days: nat, p: int): (n: nat)
    ensures n <= days
  {
    if p <= start then 0 else if p - start >= days then days else p - start
  }

  /**
   * `generateCalendar`: up to six weeks, each of seven cells, leading empty
   * cells before the first day, and a stop after the week holding the last day.
   */
  method GenerateCalendar(daysInMonth: nat, startingDayOfWeek: nat) returns (calendar: seq<seq<Option<nat>>>)
    requires 1 <= daysInMonth <= 31 && startingDayOfWeek < 7
    ensures |calendar| == (startingDayOfWeek + daysInMonth + 6) / 7 <= 6
    ensures forall i | 0 <= i < |calendar| :: |calendar[i]| == 7
    ensures forall i, j | 0 <= i < |calendar| && 0 <= j < |calendar[i]| ::
              calendar[i][j] == CellAt(startingDayOfWeek, daysInMonth, 7 * i + j)
  {
    var start, days := startingDayOfWeek, daysInMonth;
    calendar := [];
    var day := 1;
    var i := 0;
    while i < 6
      invariant 0 <= i <= 6 && |calendar| == i
      invariant 7 * i < start + days
      invariant day == DaysBefore(start, days, 7 * i) + 1
      invariant forall r | 0 <= r < i :: |calendar[r]| == 7
      invariant forall r, j | 0 <= r < i && 0 <= j < |calendar[r]| :: calendar[r][j] == CellAt(start, days, 7 * r + j)
    {
      var week := [];
      for j := 0 to 7
        invariant |week| == j
        invariant day == DaysBefore(start, days, 7 * i + j) + 1
        invariant forall c | 0 <= c < j :: week[c] == CellAt(start, days, 7 * i + c)
      {
        if i == 0 && j < start {
          week := week + [None];
        } else if day > days {
          week := week + [None];
        } else {
          week := week + [Some(day)];
          day := day + 1;
        }
      }
      calendar := calendar + [week];
      if day > days {
        return;
      }
      i := i + 1;
    }
  }

  // -----------------------------------------------------------------------
  // Reading the grid back

  /** The rows one after another. */
  function Flatten(rows: seq<seq<Option<nat>>>): (r: seq<Option<nat>>)
    requires forall i | 0 <= i < |rows| :: |rows[i]| == 7
    ensures |r| == 7 * |rows|
    ensures forall i, j | 0 <= i < |rows| && 0 <= j < 7 :: r[7 * i + j] == rows[i][j]
  {
    if rows == [] then [] else rows[0] + Flatten(rows[1..])
  }

  /** The day numbers of the cells that hold one, in order. */
  function DaysOf(cells: seq<Option<nat>>): seq<nat> {
    if cells == [] then []
    else DaysOf(cells[..|cells| - 1]) + (if cells[|cells| - 1].Some? then [cells[|cells| - 1].value] else [])
  }

  /** 1, 2, ..., n. */
  function UpTo(n: nat): (r: seq<nat>)
    ensures |r| == n && forall k | 0 <= k < n :: r[k] == k + 1
  {
    if n == 0 then [] else UpTo(n - 1) + [n]
  }

  /** The first n grid positions. */
  function Cells(start: nat, days: nat, n: nat): (r: seq<Option<nat>>)
    ensures |r| == n && forall p | 0 <= p < n :: r[p] == CellAt(start, days, p)
  {
    if n == 0 then [] else Cells(start, days, n - 1) + [CellAt(start, days, n - 1)]
  }

  /** The first n positions hold the days before position n, in order. */
  lemma {:induction false} CellsDays(start: nat, days: nat, n: nat)
    ensures DaysOf(Cells(start, days, n)) == UpTo(DaysBefore(start, days, n))
  {
    if n > 0 {
      var cs := Cells(start, days, n);
      var last := CellAt(start, days, n - 1);
      assert cs[..n - 1] == Cells(start, days, n - 1);
      assert DaysOf(cs) == DaysOf(cs[..n - 1]) + (if last.Some? then [last.value] else []);
      CellsDays(start, days, n - 1);
      DaysBeforeStep(start, days, n);
    }
  }

  /** Position n - 1 adds its day, if it has one, to the days before it. */
  lemma DaysBeforeStep(start: nat, days: nat, n: nat)
    requires n > 0
    ensures var last := CellAt(start, days, n - 1);
      UpTo(DaysBefore(start, days, n)) == UpTo(DaysBefore(start, days, n - 1)) + (if last.Some? then [last.value] else [])
  {
  }

  /** Position p of the flattened grid is grid position p. */
  lemma FlatAt(calendar: seq<seq<Option<nat>>>, start: nat, days: nat, p: nat)
    requires forall i | 0 <= i < |calendar| :: |calendar[i]| == 7
    requires forall i, j | 0 <= i < |calendar| && 0 <= j < |calendar[i]| :: calendar[i][j] == CellAt(start, days, 7 * i + j)
    requires p < 7 * |calendar|
    ensures Flatten(calendar)[p] == CellAt(start, days, p)
  {
    var i, j := p / 7, p % 7;
    assert p == 7 * i + j;
    assert Flatten(calendar)[7 * i + j] == calendar[i][j];
  }

  /** Reading the filled cells row by row gives exactly 1..daysInMonth: no day is dropped or repeated. */
  lemma CalendarDaysInOrder(calendar: seq<seq<Option<nat>>>, start: nat, days: nat)
    requires start + days <= 7 * |calendar|
    requires forall i | 0 <= i < |calendar| :: |calendar[i]| == 7
    requires forall i, j | 0 <= i < |calendar| && 0 <= j < |calendar[i]| :: calendar[i][j] == CellAt(start, days, 7 * i + j)
    ensures DaysOf(Flatten(calendar)) == UpTo(days)
  {
    var flat := Flatten(calendar);
    var cs := Cells(start, days, 7 * |calendar|);
    forall p | 0 <= p < |flat|
      ensures flat[p] == cs[p]
    {
      FlatAt(calendar, start, days, p);
    }
    assert flat == cs;
    CellsDays(start, days, 7 * |calendar|);
  }

  /** The first row opens with exactly as many empty cells as the weekday of the first. */
  lemma LeadingBlanks(calendar: seq<seq<Option<nat>>>, start: nat, days: nat)
    requires 1 <= days && start < 7 && |calendar| >= 1 && |calendar[0]| == 7
    requires forall j | 0 <= j < 7 :: calendar[0][j] == CellAt(start, days, j)
    ensures forall j | 0 <= j < start :: calendar[0][j].None?
    ensures calendar[0][start] == Some(1)
  {
  }

  // -----------------------------------------------------------------------
  // Date keys and the badge

  /** `${year}-${MM}-${DD}` with month and day zero-padded to two digits. */
  function DateKey(year: string, month: nat, day: nat): string {
    year + "-" + ZeroPad(month, 2) + "-" + ZeroPad(day, 2)
  }

  /** A number below 100 pads to exactly two digits. */
  lemma TwoDigits(n: nat)
    requires n < 100
    ensures |ZeroPad(n, 2)| == 2
  {
    DigitCountBounds(n);
    if n >= 10 {
      assert DigitCount(n) == 1 + DigitCount(n / 10);
    }
  }

  /** The key splits back into the year, the month and the day at fixed positions. */
  lemma DateKeyFields(year: string, month: nat, day: nat)
    requires month < 100 && day < 100
    ensures |DateKey(year, month, day)| == |year| + 6
    ensures var s, y := DateKey(year, month, day), |year|;
      s[..y] == year && s[y] == '-' && s[y + 3] == '-'
      && DigitsValue(s[y + 1..y + 3]) == month && DigitsValue(s[y + 4..]) == day
  {
    TwoDigits(month);
    TwoDigits(day);
    ZeroPadRoundTrip(month, 2);
    ZeroPadRoundTrip(day, 2);
    var s, y := DateKey(year, month, day), |year|;
    var mm, dd := ZeroPad(month, 2), ZeroPad(day, 2);
    assert s == year + "-" + mm + "-" + dd;
    assert s[y + 1..y + 3] == mm;
    assert s[y + 4..] == dd;
  }

  datatype AttendanceRecord = AttendanceRecord(date: string, status: string)

  /**
   * `records.find(r => r.date === key)?.status || null`: the status of the
   * first record for that date, none when its status is empty.
   */
  function FindStatus(records: seq<AttendanceRecord>, key: string): (r: Option<string>)
    ensures r.Some? ==> r.value != []
  {
    if records == [] then None
    else if records[0].date == key then (if records[0].status == [] then None else Some(records[0].status))
    else FindStatus(records[1..], key)
  }

  /** The first record for the date decides: its status, or none when that status is empty; later records are never looked at. */
  lemma {:induction false} FindStatusFirst(records: seq<AttendanceRecord>, key: string, k: nat)
    requires k < |records| && records[k].date == key
    requires forall j | 0 <= j < k :: records[j].date != key
    ensures FindStatus(records, key) == if records[k].status == [] then None else Some(records[k].status)
  {
    if k > 0 {
      assert records[0].date != key;
      assert records[1..][k - 1] == records[k];
      forall j | 0 <= j < k - 1
        ensures records[1..][j].date != key
      {
        assert records[1..][j] == records[j + 1];
      }
      FindStatusFirst(records[1..], key, k - 1);
    }
  }

  /** Without a record for the date there is no status. */
  lemma {:induction false} FindStatusAbsent(records: seq<AttendanceRecord>, key: string)
    requires forall k | 0 <= k < |records| :: records[k].date != key
    ensures FindStatus(records, key).None?
  {
    if records != [] {
      forall k | 0 <= k < |records[1..]|
        ensures records[1..][k].date != key
      {
        assert records[1..][k] == records[k + 1];
      }
      FindStatusAbsent(records[1..], key);
    }
  }

  /** `getDateStatus`: an empty cell (or day 0) has no status; any other day is looked up by its key. */
  function DateStatus(records: seq<AttendanceRecord>, year: string, month: nat, day: Option<nat>): (r: Option<string>)
    ensures day.None? || day == Some(0) ==> r.None?
    ensures day.Some? && day.value > 0 ==> r == FindStatus(records, DateKey(year, month, day.value))
  {
    if day.None? || day.value == 0 then None else FindStatus(records, DateKey(year, month, day.value))
  }

  datatype Badge = Excellent | Good | NeedsAttention

  /** `getStatusBadge`. */
  function StatusBadge(percentage: int): (b: Badge)
    ensures b == Excellent <==> percentage >= 90
    ensures b == Good <==> 75 <= percentage < 90
    ensures b == NeedsAttention <==> percentage < 75
  {
    if percentage >= 90 then Excellent else if percentage >= 75 then Good else NeedsAttention
  }

  /** A higher percentage never earns a lower badge. */
  lemma BadgeMonotone(p: int, q: int)
    requires p <= q
    ensures StatusBadge(p) == Excellent ==> StatusBadge(q) == Excellent
    ensures StatusBadge(q) == NeedsAttention ==> StatusBadge(p) == NeedsAttention
  {
  }
}
