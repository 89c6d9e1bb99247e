/**
 Schedule generation for one employee: a 28-day row built by cycling the
 employee's shift pattern, where an exception for a day wins over an absence
 for that day, which wins over the pattern. The pattern position advances only
 on days that neither map overrides. The row also carries the monthly total of
 numeric-looking cells, its variance against the 160-hour norm, and the status.
 */
module Schedule {
  import opened Cells
  import opened Config
  import opened Status

  datatype Employee = Employee(
    name: string,
    group: string,
    scheduleType: string,
    exceptions: map<string, Cell>,
    absences: map<string, Cell>)

  /** One row of the roster table. */
  datatype Row = Row(
    name: string,
    group: string,
    days: seq<Cell>,
    total: real,
    variance: real,
    status: string)

  /** The employee names an existing shift pattern (the source raises KeyError otherwise). */
  predicate ValidEmployee(e: Employee) {
    e.scheduleType in Templates
  }

  function PatternOf(e: Employee): (p: seq<Cell>)
    requires ValidEmployee(e)
    ensures |p| > 0
    ensures forall i :: 0 <= i < |p| ==> PatternValue(p[i])
  {
    TemplatesWellFormed();
    Templates[e.scheduleType]
  }

  /** Day `d` takes its value from one of the override maps. */
  predicate Overridden(e: Employee, d: nat) {
    DayKey(d) in e.exceptions || DayKey(d) in e.absences
  }

  /** Number of days in [a, b) that no override covers: the pattern slots those days consume. */
  function FreeDays(e: Employee, a: nat, b: nat): nat
    decreases b - a
  {
    if a >= b then 0 else (if Overridden(e, a) then 0 else 1) + FreeDays(e, a + 1, b)
  }

  /** The value of day `d` under pattern `p` when the pattern position has reached `k`. */
  function Pick(e: Employee, p: seq<Cell>, d: nat, k: nat): Cell
    requires |p| > 0
  {
    if DayKey(d) in e.exceptions then e.exceptions[DayKey(d)]
    else if DayKey(d) in e.absences then e.absences[DayKey(d)]
    else p[k % |p|]
  }

  /**
   Reference definition of day `d`'s cell: exception first, then absence,
   otherwise the pattern entry at the number of earlier non-overridden days.
   */
  function Resolve(e: Employee, d: nat): Cell
    requires ValidEmployee(e)
  {
    Pick(e, PatternOf(e), d, FreeDays(e, 1, d))
  }

  /** The generator loop over pattern `p` from day `day` on, with the pattern position at `k`. */
  function ScheduleFrom(e: Employee, p: seq<Cell>, day: nat, k: nat): (r: seq<Cell>)
    requires |p| > 0 && 1 <= day <= DaysInMonth + 1
    ensures |r| == DaysInMonth + 1 - day
    ensures forall d :: day <= d <= DaysInMonth ==> r[d - day] == Pick(e, p, d, k + FreeDays(e, day, d))
    decreases DaysInMonth + 1 - day
  {
    if day > DaysInMonth then []
    else
      var next := if Overridden(e, day) then k else k + 1;
      var rest := ScheduleFrom(e, p, day + 1, next);
      assert forall d :: day < d <= DaysInMonth ==> FreeDays(e, day, d) == next - k + FreeDays(e, day + 1, d);
      [Pick(e, p, day, k)] + rest
  }

  /** The 28 day cells of the employee's row. */
  function DayCells(e: Employee): (r: seq<Cell>)
    requires ValidEmployee(e)
    ensures |r| == DaysInMonth
    ensures forall d :: 1 <= d <= DaysInMonth ==> r[d - 1] == Resolve(e, d)
  {
    ScheduleFrom(e, PatternOf(e), 1, 0)
  }

  /**
   The override that decides day `d`, if any, can be read by the total: a
   numeric-looking text in it has at most one dot (float() raises otherwise).
   */
  predicate OverrideReadable(e: Employee, d: nat) {
    if DayKey(d) in e.exceptions then Parsable(e.exceptions[DayKey(d)])
    else DayKey(d) in e.absences ==> Parsable(e.absences[DayKey(d)])
  }

  /** Every day of the month that an override decides can be read by the total. */
  predicate ReadableOverrides(e: Employee) {
    forall d :: 1 <= d <= DaysInMonth ==> OverrideReadable(e, d)
  }

  /** A row whose total and variance agree with its day cells. */
  predicate Consistent(r: Row) {
    && |r.days| == DaysInMonth
    && AllParsable(r.days)
    && r.total == TotalHours(r.days)
    && r.variance == r.total - NormHours
  }

  /**
   The generated row: the employee's name and group, one cell per day with
   the override precedence, a total and variance consistent with those cells,
   and a status text that reads back as the status of the absences alone.
   */
  function GenerateRow(e: Employee): (r: Row)
    requires ValidEmployee(e) && ReadableOverrides(e)
    ensures r.name == e.name && r.group == e.group
    ensures |r.days| == DaysInMonth
    ensures forall d :: 1 <= d <= DaysInMonth ==> r.days[d - 1] == Resolve(e, d)
    ensures Consistent(r)
    ensures DecodeLabel(r.status) == StatusOf(e.absences)
    ensures r.status == ActiveLabel <==> forall d, c :: 1 <= d <= DaysInMonth ==> !CodeOnDay(e.absences, d, c)
  {
    var cells := DayCells(e);
    ReadableIffParsable(e);
    var total := TotalHours(cells);
    var status := StatusOf(e.absences);
    StatusOfValid(e.absences);
    LabelRoundTrip(status);
    Row(e.name, e.group, cells, total, total - NormHours, Label(status))
  }

  /** The roster: one generated row per employee, in the given order. */
  function BuildRoster(employees: seq<Employee>): (rows: seq<Row>)
    requires forall i :: 0 <= i < |employees| ==> ValidEmployee(employees[i]) && ReadableOverrides(employees[i])
    ensures |rows| == |employees|
    ensures forall i :: 0 <= i < |rows| ==>
      rows[i].name == employees[i].name && rows[i].group == employees[i].group && Consistent(rows[i])
    ensures forall i :: 0 <= i < |rows| ==>
      rows[i].days == DayCells(employees[i]) && DecodeLabel(rows[i].status) == StatusOf(employees[i].absences)
  {
    var rows := seq(|employees|, i requires 0 <= i < |employees| => GenerateRow(employees[i]));
    assert forall i :: 0 <= i < |rows| ==> rows[i] == GenerateRow(employees[i]);
    rows
  }

  // ---- lemmas ----

  /**
   The total can read every cell of the row exactly when it can read every
   override that decides a day: the pattern values are all readable.
   */
  lemma ReadableIffParsable(e: Employee)
    requires ValidEmployee(e)
    ensures ReadableOverrides(e) <==> AllParsable(DayCells(e))
  {
    var s := DayCells(e);
    var p := PatternOf(e);
    if ReadableOverrides(e) {
      forall i | 0 <= i < |s| ensures Parsable(s[i]) {
        assert s[i] == Resolve(e, i + 1);
        assert OverrideReadable(e, i + 1);
        if !Overridden(e, i + 1) {
          PatternValuesParsable(p[FreeDays(e, 1, i + 1) % |p|]);
        }
      }
    }
    if AllParsable(s) {
      forall d | 1 <= d <= DaysInMonth ensures OverrideReadable(e, d) {
        assert s[d - 1] == Resolve(e, d);
      }
    }
  }

  /** The pattern position moves past day `d` by one exactly when `d` is not overridden. */
  lemma {:induction false} PatternPositionAdvance(e: Employee, a: nat, d: nat)
    requires a <= d
    ensures FreeDays(e, a, d + 1) == FreeDays(e, a, d) + (if Overridden(e, d) then 0 else 1)
    decreases d - a
  {
    if a < d {
      PatternPositionAdvance(e, a + 1, d);
    }
  }

  /** The position never runs ahead of the day: at most one slot per earlier day. */
  lemma {:induction false} FreeDaysBound(e: Employee, a: nat, b: nat)
    requires a <= b
    ensures FreeDays(e, a, b) <= b - a
    ensures FreeDays(e, a, b) == b - a <==> forall d :: a <= d < b ==> !Overridden(e, d)
    decreases b - a
  {
    if a < b {
      FreeDaysBound(e, a + 1, b);
      if Overridden(e, a) {
        FreeDaysBound(e, a + 1, b);
      }
    }
  }

  /**
   Two non-overridden days never share a pattern slot: a later free day sits
   at a strictly later position.
   */
  lemma FreeDaysStrictlyIncrease(e: Employee, d1: nat, d2: nat)
    requires 1 <= d1 < d2 && !Overridden(e, d1)
    ensures FreeDays(e, 1, d1) < FreeDays(e, 1, d2)
  {
    PatternPositionAdvance(e, 1, d1);
    FreeDaysMonotone(e, d1 + 1, d2);
  }

  lemma {:induction false} FreeDaysMonotone(e: Employee, d1: nat, d2: nat)
    requires 1 <= d1 <= d2
    ensures FreeDays(e, 1, d1) <= FreeDays(e, 1, d2)
    decreases d2 - d1
  {
    if d1 < d2 {
      PatternPositionAdvance(e, 1, d2 - 1);
      FreeDaysMonotone(e, d1, d2 - 1);
    }
  }

  /** With no override on any day of the month, day i + 1 gets pattern entry i mod length. */
  lemma NoOverridesCycle(e: Employee)
    requires ValidEmployee(e)
    requires forall d :: 1 <= d <= DaysInMonth ==> !Overridden(e, d)
    ensures forall i :: 0 <= i < DaysInMonth ==> DayCells(e)[i] == PatternOf(e)[i % |PatternOf(e)|]
  {
    var s := DayCells(e);
    var p := PatternOf(e);
    forall i | 0 <= i < DaysInMonth ensures s[i] == p[i % |p|] {
      assert s[i] == Resolve(e, i + 1);
      FreeDaysBound(e, 1, i + 1);
      assert !Overridden(e, i + 1);
    }
  }

  /** Override keys that name no day 1..28 (such as "0", "29" or "01") change nothing. */
  lemma OutOfRangeKeysIgnored(e: Employee, key: string, v: Cell, w: Cell)
    requires ValidEmployee(e)
    requires forall d :: 1 <= d <= DaysInMonth ==> DayKey(d) != key
    ensures DayCells(e.(exceptions := e.exceptions[key := v], absences := e.absences[key := w])) == DayCells(e)
  {
    var e' := e.(exceptions := e.exceptions[key := v], absences := e.absences[key := w]);
    SameOverridesSameSchedule(e, e');
  }

  /** The schedule depends only on the override values stored under the keys of days 1..28. */
  lemma SameOverridesSameSchedule(e: Employee, e': Employee)
    requires ValidEmployee(e) && e'.scheduleType == e.scheduleType
    requires forall d :: 1 <= d <= DaysInMonth ==> SameOverride(e, e', DayKey(d))
    ensures DayCells(e') == DayCells(e)
  {
    var s, s' := DayCells(e), DayCells(e');
    forall i | 0 <= i < DaysInMonth ensures s[i] == s'[i] {
      ResolveSame(e, e', i + 1);
    }
  }

  /** A day resolves the same for two employees whose overrides agree on that day and every earlier one. */
  lemma ResolveSame(e: Employee, e': Employee, d: nat)
    requires ValidEmployee(e) && e'.scheduleType == e.scheduleType
    requires 1 <= d && forall d' :: 1 <= d' <= d ==> SameOverride(e, e', DayKey(d'))
    ensures Resolve(e', d) == Resolve(e, d)
  {
    FreeDaysSame(e, e', 1, d);
    assert SameOverride(e, e', DayKey(d));
  }

  /** Both maps of the two employees agree on `key`. */
  predicate SameOverride(e: Employee, e': Employee, key: string) {
    && (key in e.exceptions <==> key in e'.exceptions)
    && (key in e.exceptions ==> e.exceptions[key] == e'.exceptions[key])
    && (key in e.absences <==> key in e'.absences)
    && (key in e.absences ==> e.absences[key] == e'.absences[key])
  }

  lemma {:induction false} FreeDaysSame(e: Employee, e': Employee, a: nat, b: nat)
    requires forall d :: a <= d < b ==> SameOverride(e, e', DayKey(d))
    ensures FreeDays(e, a, b) == FreeDays(e', a, b)
    decreases b - a
  {
    if a < b {
      FreeDaysSame(e, e', a + 1, b);
    }
  }

  /** The status never depends on the exceptions map. */
  lemma StatusIgnoresExceptions(e: Employee, exceptions: map<string, Cell>)
    requires ValidEmployee(e) && ReadableOverrides(e)
    requires ReadableOverrides(e.(exceptions := exceptions))
    ensures GenerateRow(e.(exceptions := exceptions)).status == GenerateRow(e).status
  {
  }
}
