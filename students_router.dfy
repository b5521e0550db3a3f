/**
 * The student router's own helpers: roll and admission numbers derived from
 * the numbers already issued, the `__op` filter keys of the list endpoint,
 * and the derived fields of create, update and soft delete.
 */
module StudentsRouter {
  import opened Common
  import opened Records

  // -----------------------------------------------------------------------
  // Trailing serial numbers

  /** The maximal run of digits at the end of s: what `(\d+)$` captures. */
  function TrailingDigits(s: string): (r: string)
    ensures AllDigits(r) && |r| <= |s| && EndsWith(s, r)
    ensures |r| < |s| ==> !IsDigit(s[|s| - |r| - 1])
  {
    if s == [] || !IsDigit(s[|s| - 1]) then []
    else TrailingDigits(s[..|s| - 1]) + [s[|s| - 1]]
  }

  /** The number a regex search for `(\d+)$` finds at the end of s, if any. */
  function Serial(s: string): Option<nat> {
    var run := TrailingDigits(s);
    if run == [] then None else Some(DigitsValue(run))
  }

  /** The loop's `max_num` after the first n values: the largest serial found, 0 when none. */
  function MaxSerial(values: seq<string>, n: nat): nat
    requires n <= |values|
  {
    if n == 0 then 0
    else
      var m := MaxSerial(values, n - 1);
      var s := Serial(values[n - 1]);
      if s.Some? && s.value > m then s.value else m
  }

  /** `max_num` bounds every serial among the first n values, and is one of them unless it is 0. */
  lemma {:induction false} MaxSerialIsMax(values: seq<string>, n: nat)
    requires n <= |values|
    ensures forall i | 0 <= i < n && Serial(values[i]).Some? :: Serial(values[i]).value <= MaxSerial(values, n)
    ensures MaxSerial(values, n) == 0 || exists i | 0 <= i < n :: Serial(values[i]) == Some(MaxSerial(values, n))
  {
    if n > 0 {
      MaxSerialIsMax(values, n - 1);
      var m := MaxSerial(values, n - 1);
      if MaxSerial(values, n) != m {
        assert Serial(values[n - 1]) == Some(MaxSerial(values, n));
      }
    }
  }

  /** `query.filter(column.startswith(prefix))`. */
  function WithPrefix(values: seq<string>, prefix: string): (r: seq<string>)
    ensures forall v :: v in r <==> v in values && StartsWith(v, prefix)
  {
    if values == [] then []
    else (if StartsWith(values[0], prefix) then [values[0]] else []) + WithPrefix(values[1..], prefix)
  }

  /** Digits after a prefix that does not end in a digit are the whole trailing run. */
  lemma {:induction false} TrailingDigitsAfter(prefix: string, digits: string)
    requires AllDigits(digits)
    requires prefix == [] || !IsDigit(prefix[|prefix| - 1])
    ensures TrailingDigits(prefix + digits) == digits
    decreases |digits|
  {
    var s := prefix + digits;
    if digits != [] {
      assert s[..|s| - 1] == prefix + digits[..|digits| - 1];
      TrailingDigitsAfter(prefix, digits[..|digits| - 1]);
    } else {
      assert s == prefix;
    }
  }

  /** The loop shared by both generators: the largest serial among the values. */
  method FindMaxSerial(values: seq<string>) returns (maxNum: nat)
    ensures maxNum == MaxSerial(values, |values|)
  {
    maxNum := 0;
    var i := 0;
    while i < |values|
      invariant 0 <= i <= |values|
      invariant maxNum == MaxSerial(values, i)
    {
      var m := Serial(values[i]);
      if m.Some? && m.value > maxNum {
        maxNum := m.value;
      }
      i := i + 1;
    }
  }

  // -----------------------------------------------------------------------
  // Roll numbers

  /** The letters of s, in order. */
  function Letters(s: string): (r: string)
    ensures forall i | 0 <= i < |r| :: IsAlpha(r[i])
  {
    if s == [] then []
    else (if IsAlpha(s[0]) then [s[0]] else []) + Letters(s[1..])
  }

  /** The first two letters of the school name, upper-cased; "SC" without a name or letters. */
  function RollPrefix(schoolName: string): (r: string)
    ensures 1 <= |r| <= 2
    ensures forall i | 0 <= i < |r| :: IsUpper(r[i])
    ensures |Letters(schoolName)| == 0 ==> r == "SC"
    ensures |Letters(schoolName)| >= 2 ==> r == Upper(Letters(schoolName)[..2])
    ensures |Letters(schoolName)| == 1 ==> r == Upper(Letters(schoolName))
  {
    var letters := Letters(schoolName);
    if letters == [] then "SC"
    else if |letters| == 1 then Upper(letters)
    else Upper(letters[..2])
  }

  /**
   * `generate_roll_no`: the prefix, then one more than the largest serial of
   * the school's roll numbers with that prefix, at least three digits wide.
   * `schoolRolls` are the non-null roll numbers the school filter selects.
   */
  method GenerateRollNo(schoolRolls: seq<string>, schoolName: string) returns (roll: string)
    ensures var prefix := RollPrefix(schoolName);
      var existing := WithPrefix(schoolRolls, prefix);
      && StartsWith(roll, prefix)
      && |roll| >= |prefix| + 3
      && Serial(roll) == Some(MaxSerial(existing, |existing|) + 1)
      && forall r | r in schoolRolls && StartsWith(r, prefix) && Serial(r).Some? :: Serial(r).value < Serial(roll).value
  {
    var prefix := RollPrefix(schoolName);
    var existing := WithPrefix(schoolRolls, prefix);
    var maxNum := FindMaxSerial(existing);
    roll := prefix + ZeroPad(maxNum + 1, 3);
    SerialAfterPrefix(prefix, maxNum + 1, 3);
    MaxSerialBoundsPrefixed(schoolRolls, prefix);
  }

  /** The serial of a prefix that does not end in a digit followed by a padded number is that number. */
  lemma SerialAfterPrefix(prefix: string, n: nat, width: nat)
    requires prefix == [] || !IsDigit(prefix[|prefix| - 1])
    ensures StartsWith(prefix + ZeroPad(n, width), prefix)
    ensures Serial(prefix + ZeroPad(n, width)) == Some(n)
  {
    var s := prefix + ZeroPad(n, width);
    assert s[..|prefix|] == prefix;
    TrailingDigitsAfter(prefix, ZeroPad(n, width));
    ZeroPadRoundTrip(n, width);
  }

  /** Every serial among the values with the prefix is at most the loop's maximum. */
  lemma MaxSerialBoundsPrefixed(values: seq<string>, prefix: string)
    ensures var existing := WithPrefix(values, prefix);
      forall r | r in values && StartsWith(r, prefix) && Serial(r).Some? :: Serial(r).value <= MaxSerial(existing, |existing|)
  {
    var existing := WithPrefix(values, prefix);
    MaxSerialIsMax(existing, |existing|);
    forall r | r in values && StartsWith(r, prefix) && Serial(r).Some?
      ensures Serial(r).value <= MaxSerial(existing, |existing|)
    {
      assert r in existing;
      var i :| 0 <= i < |existing| && existing[i] == r;
    }
  }

  // -----------------------------------------------------------------------
  // Admission numbers

  /**
   * The admission number `generate_admission_no` issues, as written: the year,
   * then one more than the largest trailing serial of the school's numbers
   * that start with the year, at least four digits wide.
   */
  function AdmissionNo(schoolNumbers: seq<string>, year: nat): (r: string)
    ensures StartsWith(r, NatToString(year))
    ensures |r| >= |NatToString(year)| + 4
  {
    var prefix := NatToString(year);
    var existing := WithPrefix(schoolNumbers, prefix);
    var r := prefix + ZeroPad(MaxSerial(existing, |existing|) + 1, 4);
    assert r[..|prefix|] == prefix;
    r
  }

  /** `generate_admission_no`, with the current year passed in. */
  method GenerateAdmissionNo(schoolNumbers: seq<string>, year: nat) returns (number: string)
    ensures number == AdmissionNo(schoolNumbers, year)
  {
    var prefix := NatToString(year);
    var existing := WithPrefix(schoolNumbers, prefix);
    var maxNum := FindMaxSerial(existing);
    number := prefix + ZeroPad(maxNum + 1, 4);
  }

  /**
   * The serial is read from the whole trailing digit run, year included: the
   * year's first number is `<year>0001`, and the next one repeats the year,
   * `<year><year>0002` (for 2025, `202520250002`), instead of `<year>0002`.
   */
  lemma AdmissionNoRepeatsYear(year: nat)
    requires year >= 1
    ensures AdmissionNo([], year) == NatToString(year * 10000 + 1)
    ensures AdmissionNo([AdmissionNo([], year)], year) == NatToString(year) + NatToString(year * 10000 + 2)
  {
    FirstAdmissionNo(year);
    SecondAdmissionNo(year);
  }

  /** With no numbers yet for the year, the first is `<year>0001`. */
  lemma FirstAdmissionNo(year: nat)
    requires year >= 1
    ensures AdmissionNo([], year) == NatToString(year * 10000 + 1)
  {
    PaddedOneTwo();
    AdmissionNoFromMax([], year, 0);
    YearThenBlock(year);
  }

  /** After `<year>0001` the whole number, year included, is taken as the serial. */
  lemma SecondAdmissionNo(year: nat)
    requires year >= 1
    ensures AdmissionNo([NatToString(year * 10000 + 1)], year) == NatToString(year) + NatToString(year * 10000 + 2)
  {
    var m := year * 10000 + 1;
    RenderingSerial(m);
    YearStartsFirst(year);
    AdmissionNoAfter(NatToString(m), year, m);
    NextUnpadded(year);
  }

  /** A decimal rendering is all digits, so its serial is the number itself. */
  lemma RenderingSerial(n: nat)
    ensures Serial(NatToString(n)) == Some(n)
  {
    var s := NatToString(n);
    TrailingDigitsAfter([], s);
    assert [] + s == s;
    NatToStringRoundTrip(n);
  }

  lemma YearStartsFirst(year: nat)
    requires year >= 1
    ensures StartsWith(NatToString(year * 10000 + 1), NatToString(year))
  {
    var prefix := NatToString(year);
    YearThenBlock(year);
    assert (prefix + "0001")[..|prefix|] == prefix;
  }

  /** The serial after `<year>0001` has more than four digits, so padding leaves it alone. */
  lemma NextUnpadded(year: nat)
    requires year >= 1
    ensures ZeroPad(year * 10000 + 1 + 1, 4) == NatToString(year * 10000 + 2)
  {
    YearThenBlock(year);
    assert |NatToString(year * 10000 + 2)| >= 4;
  }

  /** After a single number of the year with serial n comes the year and n + 1. */
  lemma AdmissionNoAfter(v: string, year: nat, n: nat)
    requires StartsWith(v, NatToString(year)) && Serial(v) == Some(n)
    ensures AdmissionNo([v], year) == NatToString(year) + ZeroPad(n + 1, 4)
  {
    WithPrefixSingle(v, NatToString(year));
    assert MaxSerial([v], 1) == n by {
      assert MaxSerial([v], 0) == 0;
    }
    AdmissionNoFromMax([v], year, n);
  }

  /** The admission number is the year and one more than the loop's maximum. */
  lemma AdmissionNoFromMax(values: seq<string>, year: nat, max: nat)
    requires var existing := WithPrefix(values, NatToString(year)); MaxSerial(existing, |existing|) == max
    ensures AdmissionNo(values, year) == NatToString(year) + ZeroPad(max + 1, 4)
  {
  }

  lemma WithPrefixSingle(v: string, prefix: string)
    requires StartsWith(v, prefix)
    ensures WithPrefix([v], prefix) == [v]
  {
    assert [v][1..] == [];
  }

  lemma YearThenBlock(year: nat)
    requires year >= 1
    ensures NatToString(year * 10000 + 1) == NatToString(year) + "0001"
    ensures NatToString(year * 10000 + 2) == NatToString(year) + "0002"
  {
    FourDigitBlocks();
    ShiftFour(year, 1);
    ShiftFour(year, 2);
  }

  lemma ShiftFour(y: nat, r: nat)
    requires y >= 1 && r < 10000
    ensures NatToString(y * 10000 + r) == NatToString(y) + FixedDigits(r, 4)
  {
    FourDigitBlocks();
    NatToStringShift(y, 4, r);
  }

  lemma FourDigitBlocks()
    ensures Pow10(4) == 10000
    ensures FixedDigits(1, 4) == "0001" && FixedDigits(2, 4) == "0002"
  {
  }

  lemma PaddedOneTwo()
    ensures ZeroPad(1, 4) == "0001" && ZeroPad(2, 4) == "0002"
    ensures DigitsValue("0001") == 1
  {
    assert NatToString(1) == "1" && NatToString(2) == "2";
    ZeroPadRoundTrip(1, 4);
  }

  /** The last k decimal digits of r, exactly k of them, leading zeros kept. */
  function FixedDigits(r: nat, k: nat): (s: string)
    ensures |s| == k && AllDigits(s)
  {
    if k == 0 then [] else FixedDigits(r / 10, k - 1) + [DigitChar(r % 10)]
  }

  /** Shifting y by k decimal places and adding r < 10^k appends r's k digits to y's rendering. */
  lemma {:induction false} NatToStringShift(y: nat, k: nat, r: nat)
    requires y >= 1 && r < Pow10(k)
    ensures NatToString(y * Pow10(k) + r) == NatToString(y) + FixedDigits(r, k)
  {
    if k > 0 {
      var p := Pow10(k - 1);
      var a := y * p;
      ShiftProduct(y, p);
      assert y * Pow10(k) == 10 * a;
      assert r / 10 < p;
      var n := 10 * a + r;
      assert n / 10 == a + r / 10 && n % 10 == r % 10;
      NatToStringShift(y, k - 1, r / 10);
    }
  }

  lemma ShiftProduct(y: nat, p: nat)
    requires y >= 1 && p >= 1
    ensures y * (10 * p) == 10 * (y * p) && y * p >= 1
  {
    assert y * p >= 1 * p;
  }

  /** The serial as the docstring's `<YYYY><NNNN>` format means it: the digits after the year. */
  function YearSerial(s: string, prefix: string): Option<nat> {
    if StartsWith(s, prefix) && |s| > |prefix| && AllDigits(s[|prefix|..]) then Some(DigitsValue(s[|prefix|..])) else None
  }

  function MaxYearSerial(values: seq<string>, prefix: string, n: nat): (m: nat)
    requires n <= |values|
    ensures forall i | 0 <= i < n && YearSerial(values[i], prefix).Some? :: YearSerial(values[i], prefix).value <= m
  {
    if n == 0 then 0
    else
      var m := MaxYearSerial(values, prefix, n - 1);
      var s := YearSerial(values[n - 1], prefix);
      if s.Some? && s.value > m then s.value else m
  }

  /** The admission number as intended: the year, then the next serial after the year. */
  function IntendedAdmissionNo(schoolNumbers: seq<string>, year: nat): (r: string)
    ensures var prefix := NatToString(year);
      && YearSerial(r, prefix) == Some(MaxYearSerial(schoolNumbers, prefix, |schoolNumbers|) + 1)
      && forall s | s in schoolNumbers && YearSerial(s, prefix).Some? :: YearSerial(s, prefix).value < YearSerial(r, prefix).value
  {
    var prefix := NatToString(year);
    var next := MaxYearSerial(schoolNumbers, prefix, |schoolNumbers|) + 1;
    var r := prefix + ZeroPad(next, 4);
    assert r[..|prefix|] == prefix && r[|prefix|..] == ZeroPad(next, 4);
    ZeroPadRoundTrip(next, 4);
    r
  }

  /** With the year read off, numbers of a year count up 0001, 0002, … */
  lemma IntendedAdmissionNoCounts(year: nat)
    ensures IntendedAdmissionNo([], year) == NatToString(year) + "0001"
    ensures IntendedAdmissionNo([IntendedAdmissionNo([], year)], year) == NatToString(year) + "0002"
  {
    var prefix := NatToString(year);
    var first := prefix + "0001";
    PaddedOneTwo();
    assert IntendedAdmissionNo([], year) == first;
    assert YearSerial(first, prefix) == Some(1) by {
      assert first[..|prefix|] == prefix && first[|prefix|..] == "0001";
    }
    assert MaxYearSerial([first], prefix, 1) == 1;
  }

  // -----------------------------------------------------------------------
  // Filter keys

  /** The SQL operator a filter key selects. */
  datatype Op = Equals | ContainsText | InList | AtLeast | AtMost | Above | Below | Prefix | IsNull | IsNotNull

  /** A filter value: a scalar or the list `__in` expects. */
  datatype FilterValue = Scalar(f: Field) | Many(items: seq<Field>)

  predicate FilterTruthy(v: FilterValue) {
    match v
    case Scalar(f) => Truthy(f)
    case Many(items) => items != []
  }

  /** One `query.filter(...)` call. */
  datatype Condition = Condition(column: string, op: Op, value: FilterValue)

  /** The conditions applied, or the key whose column does not exist (`getattr` raises). */
  datatype Filtered = Applied(conditions: seq<Condition>) | NoSuchColumn(key: string)

  /** `s.replace(pattern, '')`: every non-overlapping occurrence, scanned left to right, removed. */
  function Erase(s: string, pattern: string): (r: string)
    requires pattern != []
    ensures |r| <= |s|
    decreases |s|
  {
    if |s| < |pattern| then s
    else if s[..|pattern|] == pattern then Erase(s[|pattern|..], pattern)
    else [s[0]] + Erase(s[1..], pattern)
  }

  /** Where pattern does not occur, `replace` changes nothing. */
  lemma {:induction false} EraseAbsent(s: string, pattern: string)
    requires pattern != []
    requires forall i | 0 <= i <= |s| :: !OccursAt(s, pattern, i)
    ensures Erase(s, pattern) == s
    decreases |s|
  {
    if |s| >= |pattern| {
      assert !OccursAt(s, pattern, 0);
      forall i | 0 <= i <= |s[1..]|
        ensures !OccursAt(s[1..], pattern, i)
      {
        assert !OccursAt(s, pattern, i + 1);
        if i + |pattern| <= |s[1..]| {
          assert s[1..][i..i + |pattern|] == s[i + 1..i + 1 + |pattern|];
        }
      }
      EraseAbsent(s[1..], pattern);
    }
  }

  /** The operator suffixes `apply_filters` tests, in the order of its `elif` chain. */
  const Suffixes: seq<(string, Op)> := [
    ("__contains", ContainsText), ("__in", InList), ("__gte", AtLeast), ("__lte", AtMost),
    ("__gt", Above), ("__lt", Below), ("__startswith", Prefix), ("__isnull", IsNull)]

  /** The first suffix of the chain, from position i on, that the key ends with. */
  function SuffixFrom(key: string, i: nat): (r: Option<(string, Op)>)
    requires i <= |Suffixes|
    ensures r.Some? ==> EndsWith(key, r.value.0) && r.value.0 != [] && r.value in Suffixes[i..]
    ensures r.None? ==> forall j | i <= j < |Suffixes| :: !EndsWith(key, Suffixes[j].0)
    decreases |Suffixes| - i
  {
    if i == |Suffixes| then None
    else if EndsWith(key, Suffixes[i].0) then Some(Suffixes[i])
    else SuffixFrom(key, i + 1)
  }

  /** The suffix the chain picks for a key, with its operator. */
  function SuffixOf(key: string): (r: Option<(string, Op)>)
    ensures r.Some? ==> EndsWith(key, r.value.0) && r.value.0 != [] && r.value in Suffixes
    ensures r.None? ==> forall j | 0 <= j < |Suffixes| :: !EndsWith(key, Suffixes[j].0)
  {
    SuffixFrom(key, 0)
  }

  /** What one `(key, value)` item contributes. */
  datatype Step = Skip | Apply(condition: Condition) | Fail(key: string)

  /** One turn of `apply_filters`. */
  function FilterStep(columns: set<string>, key: string, value: Option<FilterValue>): (r: Step)
    ensures value.None? ==> r == Skip
    ensures r.Apply? ==> r.condition.column in columns && Some(r.condition.value) == value
    ensures r.Fail? ==> SuffixOf(key).Some?
  {
    if value.None? then Skip
    else
      var v := value.value;
      match SuffixOf(key)
      case None => if key in columns then Apply(Condition(key, Equals, v)) else Skip
      case Some((suffix, op)) =>
        var column := Erase(key, suffix);
        if column !in columns then Fail(key)
        else if op == IsNull then Apply(Condition(column, if FilterTruthy(v) then IsNull else IsNotNull, v))
        else Apply(Condition(column, op, v))
  }

  /** f applied to every element, in order. */
  function Map<A, B>(f: A -> B, s: seq<A>): (r: seq<B>)
    ensures |r| == |s|
  {
    if s == [] then [] else Map(f, s[..|s| - 1]) + [f(s[|s| - 1])]
  }

  lemma {:induction false} MapAt<A, B>(f: A -> B, s: seq<A>, i: nat)
    requires i < |s|
    ensures Map(f, s)[i] == f(s[i])
    decreases |s|
  {
    var front := s[..|s| - 1];
    if i < |front| {
      MapAt(f, front, i);
      assert front[i] == s[i];
    }
  }

  /** One turn of `apply_filters`, as a function of the item. */
  function StepOf(columns: set<string>): ((string, Option<FilterValue>)) -> Step {
    (item: (string, Option<FilterValue>)) => FilterStep(columns, item.0, item.1)
  }

  /** The step of every item, in order. */
  function FilterSteps(columns: set<string>, filters: seq<(string, Option<FilterValue>)>): (r: seq<Step>)
    ensures |r| == |filters|
  {
    Map(StepOf(columns), filters)
  }

  lemma FilterStepsAt(columns: set<string>, filters: seq<(string, Option<FilterValue>)>, i: nat)
    requires i < |filters|
    ensures FilterSteps(columns, filters)[i] == FilterStep(columns, filters[i].0, filters[i].1)
  {
    MapAt(StepOf(columns), filters, i);
  }

  /** The result of `apply_filters` after the first n steps. */
  function Fold(steps: seq<Step>, n: nat): Filtered
    requires n <= |steps|
  {
    if n == 0 then Applied([]) else Extend(Fold(steps, n - 1), steps[n - 1])
  }

  /** The result after one more item: a failure stays, otherwise the step decides. */
  function Extend(front: Filtered, step: Step): Filtered {
    if front.NoSuchColumn? then front
    else
      match step
      case Skip => front
      case Apply(c) => Applied(front.conditions + [c])
      case Fail(key) => NoSuchColumn(key)
  }

  /**
   * `apply_filters`: each non-None item adds one condition; `columns` are the
   * attributes of `Student`.
   */
  method ApplyFilters(columns: set<string>, filters: seq<(string, Option<FilterValue>)>) returns (r: Filtered)
    ensures r == Fold(FilterSteps(columns, filters), |filters|)
  {
    ghost var steps := FilterSteps(columns, filters);
    var conditions: seq<Condition> := [];
    var i := 0;
    while i < |filters|
      invariant 0 <= i <= |filters|
      invariant Fold(steps, i) == Applied(conditions)
    {
      var failed;
      failed, conditions := FilterNext(columns, filters, i, conditions, steps);
      if failed.Some? {
        return NoSuchColumn(failed.value);
      }
      i := i + 1;
    }
    r := Applied(conditions);
  }

  /** One turn of the loop: the condition item i adds, or the key that has no column. */
  method FilterNext(columns: set<string>, filters: seq<(string, Option<FilterValue>)>, i: nat,
                    conditions0: seq<Condition>, ghost steps: seq<Step>)
    returns (failed: Option<string>, conditions: seq<Condition>)
    requires i < |filters| && steps == FilterSteps(columns, filters)
    requires Fold(steps, i) == Applied(conditions0)
    ensures failed.Some? ==> Fold(steps, |steps|) == NoSuchColumn(failed.value)
    ensures failed.None? ==> Fold(steps, i + 1) == Applied(conditions)
  {
    var step := FilterStep(columns, filters[i].0, filters[i].1);
    FilterStepsAt(columns, filters, i);
    conditions := conditions0;
    failed := None;
    if step.Fail? {
      FailureSticks(steps, i + 1);
      failed := Some(step.key);
    } else if step.Apply? {
      conditions := conditions + [step.condition];
    }
  }

  /** Once a key fails, the rest of the items no longer matter. */
  lemma {:induction false} FailureSticks(steps: seq<Step>, n: nat)
    requires n <= |steps|
    requires Fold(steps, n).NoSuchColumn?
    ensures Fold(steps, |steps|) == Fold(steps, n)
    decreases |steps| - n
  {
    if n < |steps| {
      FailureSticks(steps, n + 1);
    }
  }

  /**
   * Every applied condition names an existing column, and there are at most
   * as many conditions as non-None items.
   */
  lemma {:induction false} ConditionsWellFormed(columns: set<string>, filters: seq<(string, Option<FilterValue>)>, n: nat)
    requires n <= |filters|
    ensures var r := Fold(FilterSteps(columns, filters), n);
      r.Applied? ==> |r.conditions| <= n && forall c | c in r.conditions :: c.column in columns
  {
    var steps := FilterSteps(columns, filters);
    forall i | 0 <= i < |steps|
      ensures steps[i].Apply? ==> steps[i].condition.column in columns
    {
      FilterStepsAt(columns, filters, i);
    }
    FoldWellFormed(steps, columns, n);
  }

  lemma {:induction false} FoldWellFormed(steps: seq<Step>, columns: set<string>, n: nat)
    requires n <= |steps|
    requires forall i | 0 <= i < |steps| :: steps[i].Apply? ==> steps[i].condition.column in columns
    ensures var r := Fold(steps, n);
      r.Applied? ==> |r.conditions| <= n && forall c | c in r.conditions :: c.column in columns
  {
    if n > 0 {
      FoldWellFormed(steps, columns, n - 1);
    }
  }

  /** `__gte` is checked before `__gt`: `age__gte` is "at least", on column `age`. */
  lemma SuffixOrder(columns: set<string>, value: FilterValue)
    requires "age" in columns
    ensures FilterStep(columns, "age__gte", Some(value)) == Apply(Condition("age", AtLeast, value))
    ensures FilterStep(columns, "age__gt", Some(value)) == Apply(Condition("age", Above, value))
  {
    GteSuffix();
    GtSuffix();
  }

  lemma GteSuffix()
    ensures SuffixOf("age__gte") == Some(("__gte", AtLeast))
    ensures Erase("age__gte", "__gte") == "age"
  {
    assert "age__gte"[4..] != "__in";
    assert "age__gte"[3..] == "__gte";
    assert Erase("age__gte", "__gte") == "age" by {
      assert "age__gte"[..5] != "__gte";
      assert "age__gte"[1..][..5] != "__gte";
      assert "age__gte"[2..][..5] != "__gte";
    }
  }

  lemma GtSuffix()
    ensures SuffixOf("age__gt") == Some(("__gt", Above))
    ensures Erase("age__gt", "__gt") == "age"
  {
    assert "age__gt"[3..] == "__gt";
    assert "age__gt"[3..] != "__in";
    assert "age__gt"[2..] != "__gte";
    assert "age__gt"[2..] != "__lte";
    assert Erase("age__gt", "__gt") == "age" by {
      assert "age__gt"[..4] != "__gt";
      assert "age__gt"[1..][..4] != "__gt";
      assert "age__gt"[2..][..4] != "__gt";
    }
  }

  // -----------------------------------------------------------------------
  // Create, update, delete

  /** A row of the classes table, as far as `create_student` copies it. */
  datatype ClassRow = ClassRow(className: Field, academicYear: Field, roomNumber: Field, classTeacherId: Field,
                               classTeacherName: Field, classTeacherPhone: Field, classTeacherEmail: Field)

  /** The class columns of a student dict, read with `get`. */
  function RowClass(m: map<string, Field>): ClassRow {
    ClassRow(Get(m, "class_name"), Get(m, "academic_year"), Get(m, "room_number"), Get(m, "class_teacher_id"),
             Get(m, "class_teacher_name"), Get(m, "class_teacher_phone"), Get(m, "class_teacher_email"))
  }

  /** The school columns of a student dict, read with `get`. */
  function RowSchool(m: map<string, Field>): School {
    School(Get(m, "school_code"), Get(m, "school_name"), Get(m, "school_address"), Get(m, "school_city"),
           Get(m, "school_state"), Get(m, "school_email"), Get(m, "school_phone"))
  }

  /**
   * What `create_student` reads besides the request: the current user, the
   * schools and classes tables keyed by id, today's date, the clock, the
   * numbers `generate_admission_no` and `generate_roll_no` return for this
   * school, and the id of the login account created for the student.
   */
  datatype StudentContext = StudentContext(user: Option<CurrentUser>, schools: map<Field, School>, classes: map<Field, ClassRow>,
                                           today: Date, now: Field, admissionNo: string, rollNo: string, userId: Field)

  const SchoolKeys: set<string> :=
    {"school_id", "school_name", "school_code", "school_address", "school_city", "school_state", "school_email", "school_phone"}
  const AdmissionKeys: set<string> := {"admission_no", "admission_date", "created_at", "created_by", "age"}
  const AccountKeys: set<string> := {"roll_no", "user_id"}
  const NameKeys: set<string> := {"full_name", "class_name", "academic_year", "room_number", "class_teacher_id",
                                  "class_teacher_name", "class_teacher_phone", "class_teacher_email", "class_section"}

  /** Every key `create_student` may write into the request dict. */
  const StudentWritten: set<string> := SchoolKeys + AdmissionKeys + AccountKeys + NameKeys

  /** The class row a truthy `class_id` resolves to. */
  function ClassOf(d: map<string, Field>, classes: map<Field, ClassRow>): Option<ClassRow> {
    if Truthy(Get(d, "class_id")) && Get(d, "class_id") in classes then Some(classes[Get(d, "class_id")]) else None
  }

  /**
   * `create_student`'s first step as written: the school is forced to the
   * current user's, and when that school resolves, reading `school.name`
   * (a column `School` does not have) raises.
   */
  method StudentSchool(data: map<string, Field>, user: Option<CurrentUser>, schools: map<Field, School>) returns (r: Option<map<string, Field>>)
    ensures r.None? <==> UserSchool(user, schools).Some?
    ensures r.Some? && user.Some? ==> Get(r.value, "school_id") == user.value.schoolId && Get(r.value, "school_name") == user.value.schoolName
    ensures r.Some? ==> forall k | k !in {"school_id", "school_name"} || user.None? :: Keeps(r.value, data, k)
  {
    if user.None? {
      return Some(data);
    }
    var d := data["school_id" := user.value.schoolId]["school_name" := user.value.schoolName];
    if Truthy(d["school_id"]) && d["school_id"] in schools {
      // school_code is copied, then `school.name` raises AttributeError
      return None;
    }
    return Some(d);
  }

  /** The same step with the school's name read from `school_name`, as the teachers router does. */
  method StudentSchoolIntended(data: map<string, Field>, user: Option<CurrentUser>, schools: map<Field, School>) returns (r: map<string, Field>)
    ensures user.Some? ==> Get(r, "school_id") == user.value.schoolId
    ensures UserSchool(user, schools).Some? ==> RowSchool(r) == UserSchool(user, schools).value
    ensures user.Some? && UserSchool(user, schools).None? ==> Get(r, "school_name") == user.value.schoolName
    ensures forall k | k !in SchoolKeys :: Keeps(r, data, k)
    ensures UserSchool(user, schools).None? ==> forall k | k !in {"school_id", "school_name"} || user.None? :: Keeps(r, data, k)
  {
    r := data;
    if user.Some? {
      r := r["school_id" := user.value.schoolId]["school_name" := user.value.schoolName];
      if Truthy(r["school_id"]) && r["school_id"] in schools {
        var s := schools[r["school_id"]];
        r := r["school_code" := s.schoolCode]["school_name" := s.schoolName]["school_address" := s.address]["school_city" := s.city];
        r := r["school_state" := s.state]["school_email" := s.email]["school_phone" := s.phone];
      }
    }
  }

  /** The admission number (generated unless a truthy one was sent), the admission date, the audit fields and the age of a truthy date of birth. */
  predicate AdmissionDerived(row: map<string, Field>, d: map<string, Field>, ctx: StudentContext) {
    && Get(row, "admission_no") == (if Truthy(Get(d, "admission_no")) then Get(d, "admission_no") else Text(ctx.admissionNo))
    && Get(row, "admission_date") == Day(ctx.today) && Get(row, "created_at") == ctx.now
    && Get(row, "created_by") == (if ctx.user.Some? then ctx.user.value.username else Get(d, "created_by"))
    && (Truthy(Get(d, "date_of_birth")) ==> AgeField(Get(d, "date_of_birth"), ctx.today) == Some(Get(row, "age")))
    && (!Truthy(Get(d, "date_of_birth")) ==> Get(row, "age") == Get(d, "age"))
  }

  /** The roll number and the id of the student's login account. */
  predicate AccountDerived(row: map<string, Field>, ctx: StudentContext) {
    Get(row, "roll_no") == Text(ctx.rollNo) && Get(row, "user_id") == ctx.userId
  }

  /** The full name when both names were sent, and the class columns and class section when `class_id` resolves. */
  predicate NameDerived(row: map<string, Field>, d: map<string, Field>, classes: map<Field, ClassRow>) {
    var cls := ClassOf(d, classes);
    && Get(row, "full_name") == (if "first_name" in d && "last_name" in d then Text(FullName(d["first_name"], d["last_name"])) else Get(d, "full_name"))
    && RowClass(row) == (if cls.Some? then cls.value else RowClass(d))
    && Get(row, "class_section") == (if cls.Some? && Truthy(Get(d, "section")) then Text(ClassSection(cls.value.className, Get(d, "section")))
                                     else Get(d, "class_section"))
  }

  /** Every field `create_student` derives from the request `d` after the school step, as it stands in `row`. */
  predicate StudentDerived(row: map<string, Field>, d: map<string, Field>, ctx: StudentContext) {
    AdmissionDerived(row, d, ctx) && AccountDerived(row, ctx) && NameDerived(row, d, ctx.classes)
  }

  /** The raising conditions after the school step: `calculate_age`, a name that is not a string, no `first_name`. */
  predicate StudentTailRaises(d: map<string, Field>) {
    BirthOf(Get(d, "date_of_birth")).Opaque? || NameRaises(d) || "first_name" !in d
  }

  /** The admission number, admission date, audit fields and age; None when `calculate_age` raises. */
  method AdmissionFields(d: map<string, Field>, ctx: StudentContext) returns (r: Option<map<string, Field>>)
    ensures r.None? <==> BirthOf(Get(d, "date_of_birth")).Opaque?
    ensures r.Some? ==> AdmissionDerived(r.value, d, ctx)
    ensures r.Some? ==> forall k | k !in AdmissionKeys :: Keeps(r.value, d, k)
  {
    var a := d;
    if !Truthy(Get(a, "admission_no")) {
      a := a["admission_no" := Text(ctx.admissionNo)];
    }
    a := a["admission_date" := Day(ctx.today)]["created_at" := ctx.now];
    if ctx.user.Some? {
      a := a["created_by" := ctx.user.value.username];
    }
    if Truthy(Get(a, "date_of_birth")) {
      var age := AgeField(Get(a, "date_of_birth"), ctx.today);
      if age.None? {
        return None;
      }
      a := a["age" := age.value];
    }
    return Some(a);
  }

  /** `create_user_for_student`: raises on a name that is not a string, else sets the roll number and account id. */
  method AccountFields(d: map<string, Field>, ctx: StudentContext) returns (r: Option<map<string, Field>>)
    ensures r.None? <==> NameRaises(d)
    ensures r.Some? ==> AccountDerived(r.value, ctx)
    ensures r.Some? ==> forall k | k !in AccountKeys :: Keeps(r.value, d, k)
  {
    if NameRaises(d) {
      return None;
    }
    return Some(d["roll_no" := Text(ctx.rollNo)]["user_id" := ctx.userId]);
  }

  /** The full name, then the class columns when `class_id` resolves. */
  method NameFields(d: map<string, Field>, classes: map<Field, ClassRow>) returns (r: map<string, Field>)
    ensures NameDerived(r, d, classes)
    ensures forall k | k !in NameKeys :: Keeps(r, d, k)
  {
    r := d;
    if "first_name" in r && "last_name" in r {
      r := r["full_name" := Text(FullName(r["first_name"], r["last_name"]))];
    }
    if Truthy(Get(r, "class_id")) && Get(r, "class_id") in classes {
      var c := classes[Get(r, "class_id")];
      r := r["class_name" := c.className]["academic_year" := c.academicYear]["room_number" := c.roomNumber];
      r := r["class_teacher_id" := c.classTeacherId]["class_teacher_name" := c.classTeacherName];
      r := r["class_teacher_phone" := c.classTeacherPhone]["class_teacher_email" := c.classTeacherEmail];
      if Truthy(Get(r, "section")) {
        r := r["class_section" := Text(ClassSection(c.className, Get(r, "section")))];
      }
    }
  }

  // Which keys each step writes: the literal facts the frame lemmas use.

  /** The keys the admission step reads are written by no other step. */
  lemma AdmissionReadsApart()
    ensures "admission_no" !in SchoolKeys + AccountKeys + NameKeys
    ensures "created_by" !in SchoolKeys + AccountKeys + NameKeys
    ensures "date_of_birth" !in SchoolKeys + AccountKeys + NameKeys
    ensures "age" !in SchoolKeys + AccountKeys + NameKeys
  {
  }

  /** The admission step's keys are written by no later step. */
  lemma AdmissionKeysApart()
    ensures "admission_no" !in AccountKeys + NameKeys
    ensures "admission_date" !in AccountKeys + NameKeys
    ensures "created_at" !in AccountKeys + NameKeys
    ensures "created_by" !in AccountKeys + NameKeys
    ensures "age" !in AccountKeys + NameKeys
  {
  }

  /** The account step's keys are written by no later step. */
  lemma AccountKeysApart()
    ensures "roll_no" !in NameKeys
    ensures "user_id" !in NameKeys
  {
  }

  /** The keys the name step reads are written by no earlier step. */
  lemma NameReadsApart()
    ensures "first_name" !in SchoolKeys + AdmissionKeys + AccountKeys
    ensures "last_name" !in SchoolKeys + AdmissionKeys + AccountKeys
    ensures "full_name" !in SchoolKeys + AdmissionKeys + AccountKeys
    ensures "class_id" !in SchoolKeys + AdmissionKeys + AccountKeys
    ensures "section" !in SchoolKeys + AdmissionKeys + AccountKeys
    ensures "class_section" !in SchoolKeys + AdmissionKeys + AccountKeys
  {
  }

  /** The class columns are written by no step before the name step. */
  lemma ClassKeysApart()
    ensures "class_name" !in SchoolKeys + AdmissionKeys + AccountKeys
    ensures "academic_year" !in SchoolKeys + AdmissionKeys + AccountKeys
    ensures "room_number" !in SchoolKeys + AdmissionKeys + AccountKeys
    ensures "class_teacher_id" !in SchoolKeys + AdmissionKeys + AccountKeys
  {
  }

  /** The class teacher columns are written by no step before the name step. */
  lemma ClassTeacherKeysApart()
    ensures "class_teacher_name" !in SchoolKeys + AdmissionKeys + AccountKeys
    ensures "class_teacher_phone" !in SchoolKeys + AdmissionKeys + AccountKeys
    ensures "class_teacher_email" !in SchoolKeys + AdmissionKeys + AccountKeys
  {
  }

  /** The school id and name are written by no step after the school step. */
  lemma SchoolKeysApart()
    ensures "school_id" !in AdmissionKeys + AccountKeys + NameKeys
    ensures "school_name" !in AdmissionKeys + AccountKeys + NameKeys
    ensures "school_code" !in AdmissionKeys + AccountKeys + NameKeys
    ensures "school_address" !in AdmissionKeys + AccountKeys + NameKeys
  {
  }

  /** The school's contact columns are written by no step after the school step. */
  lemma SchoolContactKeysApart()
    ensures "school_city" !in AdmissionKeys + AccountKeys + NameKeys
    ensures "school_state" !in AdmissionKeys + AccountKeys + NameKeys
    ensures "school_email" !in AdmissionKeys + AccountKeys + NameKeys
    ensures "school_phone" !in AdmissionKeys + AccountKeys + NameKeys
  {
  }

  /** A step that leaves the keys the admission fields are read from does not change them. */
  lemma AdmissionReadsKept(d1: map<string, Field>, d2: map<string, Field>, row: map<string, Field>, ctx: StudentContext)
    requires forall k | k !in SchoolKeys + AccountKeys + NameKeys :: Keeps(d1, d2, k)
    ensures AdmissionDerived(row, d1, ctx) == AdmissionDerived(row, d2, ctx)
  {
    AdmissionReadsApart();
    assert Keeps(d1, d2, "admission_no") && Keeps(d1, d2, "created_by");
    assert Keeps(d1, d2, "date_of_birth") && Keeps(d1, d2, "age");
  }

  /** A step that leaves the admission fields alone keeps them derived. */
  lemma AdmissionResultKept(r1: map<string, Field>, r2: map<string, Field>, d: map<string, Field>, ctx: StudentContext)
    requires forall k | k !in AccountKeys + NameKeys :: Keeps(r1, r2, k)
    ensures AdmissionDerived(r1, d, ctx) == AdmissionDerived(r2, d, ctx)
  {
    AdmissionKeysApart();
    assert Keeps(r1, r2, "admission_no") && Keeps(r1, r2, "admission_date") && Keeps(r1, r2, "created_at");
    assert Keeps(r1, r2, "created_by") && Keeps(r1, r2, "age");
  }

  /** A step that leaves the account fields alone keeps them derived. */
  lemma AccountResultKept(r1: map<string, Field>, r2: map<string, Field>, ctx: StudentContext)
    requires forall k | k !in NameKeys :: Keeps(r1, r2, k)
    ensures AccountDerived(r1, ctx) == AccountDerived(r2, ctx)
  {
    AccountKeysApart();
    assert Keeps(r1, r2, "roll_no") && Keeps(r1, r2, "user_id");
  }

  /** A step that leaves the name and class keys alone changes nothing `NameFields` reads. */
  lemma NameReadsKept(d1: map<string, Field>, d2: map<string, Field>, row: map<string, Field>, classes: map<Field, ClassRow>)
    requires forall k | k !in SchoolKeys + AdmissionKeys + AccountKeys :: Keeps(d1, d2, k)
    ensures NameDerived(row, d1, classes) == NameDerived(row, d2, classes)
  {
    NameReadsApart();
    assert Keeps(d1, d2, "first_name") && Keeps(d1, d2, "last_name") && Keeps(d1, d2, "full_name");
    assert Keeps(d1, d2, "class_id") && Keeps(d1, d2, "section") && Keeps(d1, d2, "class_section");
    ClassColumnsKept(d1, d2);
  }

  /** A step that leaves the class keys alone leaves the class columns as they were. */
  lemma ClassColumnsKept(d1: map<string, Field>, d2: map<string, Field>)
    requires forall k | k !in SchoolKeys + AdmissionKeys + AccountKeys :: Keeps(d1, d2, k)
    ensures RowClass(d1) == RowClass(d2)
  {
    ClassKeysApart();
    ClassTeacherKeysApart();
    assert Keeps(d1, d2, "class_name") && Keeps(d1, d2, "academic_year") && Keeps(d1, d2, "room_number");
    assert Keeps(d1, d2, "class_teacher_id") && Keeps(d1, d2, "class_teacher_name");
    assert Keeps(d1, d2, "class_teacher_phone") && Keeps(d1, d2, "class_teacher_email");
  }

  /** A step that leaves the school keys alone leaves the school columns as they were. */
  lemma SchoolColumnsKept(r1: map<string, Field>, r2: map<string, Field>)
    requires forall k | k !in AdmissionKeys + AccountKeys + NameKeys :: Keeps(r1, r2, k)
    ensures RowSchool(r1) == RowSchool(r2)
    ensures Get(r1, "school_id") == Get(r2, "school_id")
  {
    SchoolKeysApart();
    SchoolContactKeysApart();
    assert Keeps(r1, r2, "school_id") && Keeps(r1, r2, "school_code") && Keeps(r1, r2, "school_name");
    assert Keeps(r1, r2, "school_address") && Keeps(r1, r2, "school_city");
    assert Keeps(r1, r2, "school_state") && Keeps(r1, r2, "school_email") && Keeps(r1, r2, "school_phone");
  }

  /** A step that leaves the name and class keys alone changes none of the raising conditions. */
  lemma RaisesKept(d1: map<string, Field>, d2: map<string, Field>)
    requires forall k | k !in SchoolKeys + AdmissionKeys + AccountKeys :: Keeps(d1, d2, k)
    ensures StudentTailRaises(d1) == StudentTailRaises(d2)
    ensures NameRaises(d1) == NameRaises(d2)
  {
    AdmissionReadsApart();
    NameReadsApart();
    assert Keeps(d1, d2, "date_of_birth") && Keeps(d1, d2, "first_name") && Keeps(d1, d2, "last_name");
  }

  /** No step of `create_student` writes `first_name`. */
  lemma FirstNameUnwritten()
    ensures "first_name" !in AdmissionKeys + AccountKeys + NameKeys
  {
  }

  /** The frames of the three steps after the school step, composed. */
  lemma TailFrames(d: map<string, Field>, a: map<string, Field>, b: map<string, Field>, c: map<string, Field>)
    requires forall k | k !in AdmissionKeys :: Keeps(a, d, k)
    requires forall k | k !in AccountKeys :: Keeps(b, a, k)
    requires forall k | k !in NameKeys :: Keeps(c, b, k)
    ensures forall k | k !in SchoolKeys + AdmissionKeys + AccountKeys :: Keeps(b, d, k)
    ensures forall k | k !in AccountKeys + NameKeys :: Keeps(c, a, k)
    ensures forall k | k !in AdmissionKeys + AccountKeys + NameKeys :: Keeps(c, d, k)
  {
    forall k | k !in SchoolKeys + AdmissionKeys + AccountKeys
      ensures Keeps(b, d, k)
    {
      assert Keeps(b, a, k) && Keeps(a, d, k);
    }
    forall k | k !in AccountKeys + NameKeys
      ensures Keeps(c, a, k)
    {
      assert Keeps(c, b, k) && Keeps(b, a, k);
    }
    forall k | k !in AdmissionKeys + AccountKeys + NameKeys
      ensures Keeps(c, d, k)
    {
      assert Keeps(c, b, k) && Keeps(b, a, k) && Keeps(a, d, k);
    }
  }

  /** Everything `create_student` does after the school step. */
  method StudentTail(d: map<string, Field>, ctx: StudentContext) returns (r: Created)
    ensures r.Raised? <==> StudentTailRaises(d)
    ensures r.Created? ==> StudentDerived(r.row, d, ctx)
    ensures r.Created? ==> forall k | k !in AdmissionKeys + AccountKeys + NameKeys :: Keeps(r.row, d, k)
  {
    var a := AdmissionFields(d, ctx);
    if a.None? {
      return Raised;
    }
    RaisesKept(a.value, d);
    var b := AccountFields(a.value, ctx);
    if b.None? {
      return Raised;
    }
    var c := NameFields(b.value, ctx.classes);
    TailFrames(d, a.value, b.value, c);
    // the log line reads `student_data['first_name']`
    FirstNameUnwritten();
    assert Keeps(c, d, "first_name");
    if "first_name" !in c {
      return Raised;
    }
    r := Created(c);
    AdmissionResultKept(c, a.value, d, ctx);
    AccountResultKept(c, b.value, ctx);
    NameReadsKept(b.value, d, c, ctx.classes);
  }

  /**
   * `create_student` up to building the row, as written: the request dict
   * it passes to `Student(**…)`, or the exception it raises first. The
   * school is always the current user's, and a user whose school resolves
   * can create no student at all.
   */
  method PrepareStudent(data: map<string, Field>, ctx: StudentContext) returns (r: Created)
    ensures r.Raised? <==> UserSchool(ctx.user, ctx.schools).Some? || StudentTailRaises(data)
    ensures r.Created? ==> StudentDerived(r.row, data, ctx)
    ensures r.Created? && ctx.user.Some? ==>
              Get(r.row, "school_id") == ctx.user.value.schoolId && Get(r.row, "school_name") == ctx.user.value.schoolName
    ensures r.Created? ==> forall k | k !in AdmissionKeys + AccountKeys + NameKeys && (k !in {"school_id", "school_name"} || ctx.user.None?)
                             :: Keeps(r.row, data, k)
  {
    var s := StudentSchool(data, ctx.user, ctx.schools);
    if s.None? {
      return Raised;
    }
    r := StudentTail(s.value, ctx);
    RaisesKept(s.value, data);
    if r.Created? {
      AdmissionReadsKept(s.value, data, r.row, ctx);
      NameReadsKept(s.value, data, r.row, ctx.classes);
      forall k | k !in AdmissionKeys + AccountKeys + NameKeys && (k !in {"school_id", "school_name"} || ctx.user.None?)
        ensures Keeps(r.row, data, k)
      {
        assert Keeps(r.row, s.value, k) && Keeps(s.value, data, k);
      }
      SchoolKeysApart();
      assert Keeps(r.row, s.value, "school_id") && Keeps(r.row, s.value, "school_name");
    }
  }

  /**
   * `create_student` with the school's name read from `school_name`: a
   * user whose school resolves creates students carrying that school's
   * columns, and the handler raises only where the as-written one raises
   * after the school step.
   */
  method PrepareStudentIntended(data: map<string, Field>, ctx: StudentContext) returns (r: Created)
    ensures r.Raised? <==> StudentTailRaises(data)
    ensures r.Created? ==> StudentDerived(r.row, data, ctx)
    ensures r.Created? && ctx.user.Some? ==> Get(r.row, "school_id") == ctx.user.value.schoolId
    ensures r.Created? && UserSchool(ctx.user, ctx.schools).Some? ==> RowSchool(r.row) == UserSchool(ctx.user, ctx.schools).value
    ensures r.Created? ==> forall k | k !in StudentWritten :: Keeps(r.row, data, k)
  {
    var s := StudentSchoolIntended(data, ctx.user, ctx.schools);
    r := StudentTail(s, ctx);
    RaisesKept(s, data);
    if r.Created? {
      AdmissionReadsKept(s, data, r.row, ctx);
      NameReadsKept(s, data, r.row, ctx.classes);
      forall k | k !in StudentWritten
        ensures Keeps(r.row, data, k)
      {
        assert Keeps(r.row, s, k) && Keeps(s, data, k);
      }
      SchoolColumnsKept(r.row, s);
    }
  }

  /** The attributes `Student` always has that the derived-field rules read. */
  predicate StudentShape(attrs: map<string, Field>) {
    "first_name" in attrs && "last_name" in attrs && "class_name" in attrs && "section" in attrs
  }

  /** The row after `update_student`: setattr, then the two derived fields, then the timestamp. */
  function StudentUpdated(attrs: map<string, Field>, data: Data, now: Field): map<string, Field>
    requires StudentShape(attrs)
  {
    var a := Assigned(attrs, data, |data|);
    AssignedIsLatest(attrs, data, |data|);
    var b := if HasKey(data, "first_name") || HasKey(data, "last_name")
             then a["full_name" := Text(FullName(a["first_name"], a["last_name"]))] else a;
    var c := if (HasKey(data, "class_name") || HasKey(data, "section")) && Truthy(b["class_name"]) && Truthy(b["section"])
             then b["class_section" := Text(ClassSection(b["class_name"], b["section"]))] else b;
    c["updated_at" := now]
  }

  /** `update_student` on a row that exists. */
  method UpdateStudent(row: Row, data: Data, now: Field)
    requires StudentShape(row.attrs)
    modifies row
    ensures row.attrs == StudentUpdated(old(row.attrs), data, now)
  {
    AssignedIsLatest(row.attrs, data, |data|);
    row.SetAttributes(data);
    row.RefreshFullName(data);
    row.RefreshClassSection(data);
    row.Touch(now);
  }

  /** An update adds no attribute but `updated_at` and the derived ones, and removes none. */
  lemma StudentUpdateKeys(attrs: map<string, Field>, data: Data, now: Field)
    requires StudentShape(attrs)
    ensures attrs.Keys + {"updated_at"} <= StudentUpdated(attrs, data, now).Keys <= attrs.Keys + {"updated_at", "full_name", "class_section"}
  {
    AssignedIsLatest(attrs, data, |data|);
  }

  /** Every attribute but the derived ones holds the last value the request gives it, or keeps its value. */
  lemma StudentUpdateOthers(attrs: map<string, Field>, data: Data, now: Field, k: string)
    requires StudentShape(attrs)
    requires k in attrs && k != "full_name" && k != "class_section" && k != "updated_at"
    ensures k in StudentUpdated(attrs, data, now) && StudentUpdated(attrs, data, now)[k] == Latest(data, |data|, k, attrs[k])
  {
    AssignedIsLatest(attrs, data, |data|);
    StudentUpdatedKeeps(attrs, data, now, k);
  }

  /** The derived fields and the timestamp are the only attributes the refresh steps write. */
  lemma StudentUpdatedKeeps(attrs: map<string, Field>, data: Data, now: Field, k: string)
    requires StudentShape(attrs)
    requires k in Assigned(attrs, data, |data|) && k != "full_name" && k != "class_section" && k != "updated_at"
    ensures k in StudentUpdated(attrs, data, now) && StudentUpdated(attrs, data, now)[k] == Assigned(attrs, data, |data|)[k]
  {
  }

  /** Sending either name recomputes `full_name` from the names after the update. */
  lemma StudentUpdateFullName(attrs: map<string, Field>, data: Data, now: Field)
    requires StudentShape(attrs)
    requires HasKey(data, "first_name") || HasKey(data, "last_name")
    ensures StudentUpdated(attrs, data, now)["full_name"]
            == Text(FullName(Latest(data, |data|, "first_name", attrs["first_name"]), Latest(data, |data|, "last_name", attrs["last_name"])))
  {
    AssignedIsLatest(attrs, data, |data|);
    StudentUpdatedName(attrs, data, now);
  }

  lemma StudentUpdatedName(attrs: map<string, Field>, data: Data, now: Field)
    requires StudentShape(attrs)
    requires HasKey(data, "first_name") || HasKey(data, "last_name")
    requires "first_name" in Assigned(attrs, data, |data|) && "last_name" in Assigned(attrs, data, |data|)
    ensures var a := Assigned(attrs, data, |data|);
      StudentUpdated(attrs, data, now)["full_name"] == Text(FullName(a["first_name"], a["last_name"]))
  {
  }

  /** Sending neither class nor section (nor the section label itself) leaves `class_section` alone. */
  lemma StudentUpdateKeepsClassSection(attrs: map<string, Field>, data: Data, now: Field)
    requires StudentShape(attrs) && "class_section" in attrs
    requires !HasKey(data, "class_name") && !HasKey(data, "section") && !HasKey(data, "class_section")
    ensures "class_section" in StudentUpdated(attrs, data, now)
    ensures StudentUpdated(attrs, data, now)["class_section"] == attrs["class_section"]
  {
    AssignedIsLatest(attrs, data, |data|);
    LatestUnnamed(data, |data|, "class_section", attrs["class_section"]);
  }

  /** `delete_student` without `hard_delete`: the row and its login account become inactive. */
  method SoftDeleteStudent(row: Row, users: UserTable, now: Field)
    requires "user_id" in row.attrs
    modifies row, users
    ensures row.attrs == old(row.attrs)["is_active" := Flag(false)]["status" := Text("inactive")]["updated_at" := now]
    ensures var id := old(row.attrs)["user_id"];
      if id.Number? && id.n != 0 then
        (FirstMatch(old(users.accounts), ById(id.n)).None? ==> users.accounts == old(users.accounts))
        && (FirstMatch(old(users.accounts), ById(id.n)).Some? ==>
              var i := FirstMatch(old(users.accounts), ById(id.n)).value;
              users.accounts == old(users.accounts)[i := old(users.accounts)[i].(isActive := false, updatedAt := now)])
      else users.accounts == old(users.accounts)
  {
    var id := row.attrs["user_id"];
    row.Deactivate();
    row.Touch(now);
    if id.Number? && id.n != 0 {
      users.DeactivateFirst(ById(id.n), now);
    }
  }
}
