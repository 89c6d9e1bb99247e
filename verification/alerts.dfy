/**
 Upcoming-event alerts: for each row, the status codes found on the days from
 today through the next two days, as (day, name, code) triples, with days
 ascending within a row. `today` is a parameter here; the source reads the
 clock.

 As written, the scan covers range(today, min(today + 3, 28)), whose upper
 bound is exclusive: day 28 is never scanned. `UpcomingAsWritten` models that
 code and `AsWrittenMissesDay28` shows an alert it drops; `UpcomingEvents` is
 the intended three-day window cut at the end of the month.
 */
module Alerts {
  import opened Cells
  import opened Config
  import opened Schedule
  import opened Template

  datatype Alert = Alert(day: nat, name: string, kind: string)

  /** Row `row` holds status code `a.kind` on day `a.day`, and `a` names that row. */
  predicate AlertFor(row: Row, a: Alert)
    requires |row.days| == DaysInMonth
  {
    a.name == row.name && 1 <= a.day <= DaysInMonth && row.days[a.day - 1] == Text(a.kind) && IsStatusCode(a.kind)
  }

  /** The alerts of one row for days `day` .. `hi` - 1. */
  function RowAlerts(row: Row, day: nat, hi: nat): (r: seq<Alert>)
    requires |row.days| == DaysInMonth && 1 <= day && hi <= DaysInMonth + 1
    ensures forall a :: a in r <==> day <= a.day < hi && AlertFor(row, a)
    decreases hi - day
  {
    if day >= hi then []
    else
      var v := row.days[day - 1];
      (if IsCodeCell(v) then [Alert(day, row.name, v.s)] else []) + RowAlerts(row, day + 1, hi)
  }

  /** The alerts of every row for days `lo` .. `hi` - 1. */
  function AlertsBetween(rows: seq<Row>, lo: nat, hi: nat): (r: seq<Alert>)
    requires WellShaped(rows) && 1 <= lo && hi <= DaysInMonth + 1
    ensures forall a :: a in r <==> lo <= a.day < hi && exists j :: 0 <= j < |rows| && AlertFor(rows[j], a)
  {
    if |rows| == 0 then []
    else
      var rest := AlertsBetween(rows[1..], lo, hi);
      assert forall j :: 1 <= j < |rows| ==> rows[j] == rows[1..][j - 1];
      RowAlerts(rows[0], lo, hi) + rest
  }

  function Min(a: int, b: int): int {
    if a <= b then a else b
  }

  /** The alert scan as the code writes it: range(today, min(today + 3, 28)). */
  function UpcomingAsWritten(rows: seq<Row>, today: nat): (r: seq<Alert>)
    requires WellShaped(rows) && 1 <= today <= 31
    ensures forall a :: a in r ==> today <= a.day < DaysInMonth
    ensures forall a :: a in r <==>
      today <= a.day < Min(today + 3, DaysInMonth) && exists j :: 0 <= j < |rows| && AlertFor(rows[j], a)
  {
    AlertsBetween(rows, today, Min(today + 3, DaysInMonth))
  }

  /**
   The intended scan: today and the two following days, as far as the month
   goes; a row's status code on any of those days yields exactly one alert.
   */
  function UpcomingEvents(rows: seq<Row>, today: nat): (r: seq<Alert>)
    requires WellShaped(rows) && 1 <= today <= 31
    ensures forall a :: a in r <==>
      today <= a.day <= today + 2 && exists j :: 0 <= j < |rows| && AlertFor(rows[j], a)
  {
    AlertsBetween(rows, today, Min(today + 3, DaysInMonth + 1))
  }

  // ---- lemmas ----

  /** A row with "отпуск" on day 28, used to exhibit the dropped alert. */
  function LastDayLeaveRow(): (row: Row)
    ensures |row.days| == DaysInMonth && row.days[27] == Text("отпуск")
  {
    Row("X", "ГР1", seq(27, _ => Text("")) + [Text("отпуск")], 0.0, -160.0, "активен")
  }

  /**
   On day 28 the code reports nothing, although the row holds a status code
   that day; the intended scan reports it.
   */
  lemma AsWrittenMissesDay28()
    ensures UpcomingAsWritten([LastDayLeaveRow()], 28) == []
    ensures Alert(28, "X", "отпуск") in UpcomingEvents([LastDayLeaveRow()], 28)
  {
    var row := LastDayLeaveRow();
    assert IsStatusCode("отпуск") by {
      assert StatusColors[0].0 == "отпуск";
    }
    assert AlertFor([row][0], Alert(28, "X", "отпуск"));
  }

  /** The alerts are in strictly ascending day order, none before day `lo`. */
  predicate AscendingFrom(r: seq<Alert>, lo: nat) {
    && (forall i :: 0 <= i < |r| ==> lo <= r[i].day)
    && (forall i, j :: 0 <= i < j < |r| ==> r[i].day < r[j].day)
  }

  /** Within one row the alerts come in ascending day order, none before `day`. */
  lemma {:induction false} RowAlertsAscending(row: Row, day: nat, hi: nat)
    requires |row.days| == DaysInMonth && 1 <= day && hi <= DaysInMonth + 1
    ensures AscendingFrom(RowAlerts(row, day, hi), day)
    decreases hi - day
  {
    if day < hi {
      RowAlertsAscending(row, day + 1, hi);
      var rest := RowAlerts(row, day + 1, hi);
      var v := row.days[day - 1];
      if IsCodeCell(v) {
        assert RowAlerts(row, day, hi) == [Alert(day, row.name, v.s)] + rest;
        AscendingCons(Alert(day, row.name, v.s), rest, day);
      } else {
        assert RowAlerts(row, day, hi) == rest;
        AscendingWeaken(rest, day + 1, day);
      }
    }
  }

  lemma AscendingCons(a: Alert, rest: seq<Alert>, day: nat)
    requires a.day == day && AscendingFrom(rest, day + 1)
    ensures AscendingFrom([a] + rest, day)
  {
    var r := [a] + rest;
    forall i, j | 0 <= i < j < |r| ensures r[i].day < r[j].day {
      assert r[j] == rest[j - 1];
      if i > 0 {
        assert r[i] == rest[i - 1];
      }
    }
    forall i | 0 <= i < |r| ensures day <= r[i].day {
      if i > 0 {
        assert r[i] == rest[i - 1];
      }
    }
  }

  lemma AscendingWeaken(r: seq<Alert>, lo: nat, lo': nat)
    requires AscendingFrom(r, lo) && lo' <= lo
    ensures AscendingFrom(r, lo')
  {
  }

  /** Away from the month end, the code and the intended scan agree. */
  lemma AsWrittenAgreesBeforeMonthEnd(rows: seq<Row>, today: nat)
    requires WellShaped(rows) && 1 <= today <= DaysInMonth - 3
    ensures UpcomingAsWritten(rows, today) == UpcomingEvents(rows, today)
  {
  }
}
