/**
 Bulk absence templates: writing one status code over a run of consecutive
 days in the rows of the selected employees. The run is cut at day 28 and
 never wraps. Only day cells change: the total, variance and status columns
 are left as they were, so after the write they may no longer agree with the
 cells.
 */
module Template {
  import opened Cells
  import opened Config
  import opened Schedule

  /** Day `d` falls in the run of `count` days starting at `start`. */
  predicate InRun(start: nat, count: nat, d: nat) {
    start <= d < start + count
  }

  /**
   The inner write loop: days `day`, `day` + 1, ... for `remaining` more days,
   writing `code` into each day that is at most 28.
   */
  function FillRun(cells: seq<Cell>, code: string, day: nat, remaining: nat): (r: seq<Cell>)
    requires |cells| == DaysInMonth && 1 <= day
    ensures |r| == DaysInMonth
    decreases remaining
  {
    if remaining == 0 then cells
    else
      var next := if day <= DaysInMonth then cells[day - 1 := Text(code)] else cells;
      FillRun(next, code, day + 1, remaining - 1)
  }

  predicate HasName(rows: seq<Row>, name: string) {
    exists j :: 0 <= j < |rows| && rows[j].name == name
  }

  /** The row the name lookup lands on: the first row with that name. */
  function FirstIndex(rows: seq<Row>, name: string): (i: nat)
    requires HasName(rows, name)
    ensures i < |rows| && rows[i].name == name
    ensures forall j :: 0 <= j < i ==> rows[j].name != name
  {
    if rows[0].name == name then 0
    else
      assert HasName(rows[1..], name) by {
        var j :| 0 <= j < |rows| && rows[j].name == name;
        assert rows[1..][j - 1] == rows[j];
      }
      1 + FirstIndex(rows[1..], name)
  }

  /** Every row has one cell per day of the month. */
  predicate WellShaped(rows: seq<Row>) {
    forall j :: 0 <= j < |rows| ==> |rows[j].days| == DaysInMonth
  }

  /** Row `j` is the row of one of the selected names. */
  predicate Targeted(rows: seq<Row>, selected: seq<string>, j: nat) {
    exists k :: 0 <= k < |selected| && HasName(rows, selected[k]) && FirstIndex(rows, selected[k]) == j
  }

  /**
   Applies a template: for each selected name, looks up its row and writes
   `code` into days `start` .. `start` + `days` - 1 that are at most 28.
   Rows not selected are unchanged; in selected rows only the day cells change.
   */
  method ApplyTemplate(rows: seq<Row>, selected: seq<string>, code: string, start: nat, days: nat)
    returns (out: seq<Row>)
    requires WellShaped(rows) && 1 <= start
    requires forall k :: 0 <= k < |selected| ==> HasName(rows, selected[k])
    ensures |out| == |rows| && WellShaped(out)
    ensures forall j :: 0 <= j < |rows| ==>
      && out[j].name == rows[j].name
      && out[j].group == rows[j].group
      && out[j].total == rows[j].total
      && out[j].variance == rows[j].variance
      && out[j].status == rows[j].status
    ensures forall j, i :: 0 <= j < |rows| && 0 <= i < DaysInMonth ==>
      out[j].days[i] == (if Targeted(rows, selected, j) && InRun(start, days, i + 1) then Text(code) else rows[j].days[i])
  {
    out := rows;
    var k := 0;
    while k < |selected|
      invariant 0 <= k <= |selected|
      invariant |out| == |rows| && WellShaped(out)
      invariant forall j :: 0 <= j < |rows| ==> out[j].(days := rows[j].days) == rows[j]
      invariant forall j, i :: 0 <= j < |rows| && 0 <= i < DaysInMonth ==>
        out[j].days[i] == (if Targeted(rows, selected[..k], j) && InRun(start, days, i + 1) then Text(code) else rows[j].days[i])
    {
      var name := selected[k];
      assert forall j :: 0 <= j < |rows| ==> out[j].name == rows[j].name;
      SameNamesSameIndex(rows, out, name);
      var idx := FirstIndex(out, name);
      var cells := WriteRun(out[idx].days, code, start, days);
      FillRunWrites(out[idx].days, code, start, days);
      out := out[idx := out[idx].(days := cells)];
      forall j | 0 <= j < |rows| ensures Targeted(rows, selected[..k + 1], j) <==> Targeted(rows, selected[..k], j) || j == idx {
        TargetedStep(rows, selected, k, j);
      }
      k := k + 1;
    }
    assert selected[..k] == selected;
  }

  /** The inner write loop of the template, over one row's day cells. */
  method WriteRun(cells: seq<Cell>, code: string, start: nat, days: nat) returns (out: seq<Cell>)
    requires |cells| == DaysInMonth && 1 <= start
    ensures out == FillRun(cells, code, start, days)
  {
    out := cells;
    var i := 0;
    while i < days
      invariant 0 <= i <= days
      invariant |out| == DaysInMonth
      invariant FillRun(out, code, start + i, days - i) == FillRun(cells, code, start, days)
    {
      var day := start + i;
      if day <= DaysInMonth {
        out := out[day - 1 := Text(code)];
      }
      i := i + 1;
    }
  }

  // ---- lemmas ----

  lemma {:induction false} SameNamesSameIndex(rows: seq<Row>, rows': seq<Row>, name: string)
    requires |rows| == |rows'| && forall j :: 0 <= j < |rows| ==> rows[j].name == rows'[j].name
    requires HasName(rows, name)
    ensures HasName(rows', name) && FirstIndex(rows', name) == FirstIndex(rows, name)
  {
    var i := FirstIndex(rows, name);
    assert rows'[i].name == name;
    FirstIndexUnique(rows', name, i);
  }

  lemma {:induction false} FirstIndexUnique(rows: seq<Row>, name: string, i: nat)
    requires i < |rows| && rows[i].name == name
    requires forall j :: 0 <= j < i ==> rows[j].name != name
    ensures HasName(rows, name) && FirstIndex(rows, name) == i
  {
    if i > 0 {
      assert rows[1..][i - 1] == rows[i];
      FirstIndexUnique(rows[1..], name, i - 1);
    }
  }

  lemma TargetedStep(rows: seq<Row>, selected: seq<string>, k: nat, j: nat)
    requires k < |selected| && HasName(rows, selected[k])
    ensures Targeted(rows, selected[..k + 1], j) <==> Targeted(rows, selected[..k], j) || j == FirstIndex(rows, selected[k])
  {
    var pre, pre' := selected[..k], selected[..k + 1];
    assert pre'[k] == selected[k];
    if Targeted(rows, pre', j) {
      var m :| 0 <= m < |pre'| && HasName(rows, pre'[m]) && FirstIndex(rows, pre'[m]) == j;
      if m < k {
        assert pre[m] == pre'[m];
      }
    }
    if Targeted(rows, pre, j) {
      var m :| 0 <= m < |pre| && HasName(rows, pre[m]) && FirstIndex(rows, pre[m]) == j;
      assert pre'[m] == pre[m];
    }
  }

  /**
   The write loop sets day d to the code exactly when d lies in the run, and
   leaves every other day as it was.
   */
  lemma {:induction false} FillRunWrites(cells: seq<Cell>, code: string, day: nat, remaining: nat)
    requires |cells| == DaysInMonth && 1 <= day
    ensures forall i :: 0 <= i < DaysInMonth ==>
      FillRun(cells, code, day, remaining)[i] == (if InRun(day, remaining, i + 1) then Text(code) else cells[i])
    decreases remaining
  {
    if remaining > 0 {
      var next := if day <= DaysInMonth then cells[day - 1 := Text(code)] else cells;
      FillRunWrites(next, code, day + 1, remaining - 1);
    }
  }

  /** Writing the same run twice is the same as writing it once. */
  lemma FillRunIdempotent(cells: seq<Cell>, code: string, start: nat, days: nat)
    requires |cells| == DaysInMonth && 1 <= start
    ensures FillRun(FillRun(cells, code, start, days), code, start, days) == FillRun(cells, code, start, days)
  {
    var once := FillRun(cells, code, start, days);
    FillRunWrites(cells, code, start, days);
    FillRunWrites(once, code, start, days);
  }

  /** Hours held by the days of the run that exist in the month. */
  function RunHours(cells: seq<Cell>, day: nat, remaining: nat): (r: real)
    requires |cells| == DaysInMonth && AllParsable(cells) && 1 <= day
    decreases remaining
  {
    if remaining == 0 then 0.0
    else (if day <= DaysInMonth then Contribution(cells[day - 1]) else 0.0) + RunHours(cells, day + 1, remaining - 1)
  }

  lemma {:induction false} RunHoursFrame(cells: seq<Cell>, cells': seq<Cell>, day: nat, remaining: nat)
    requires |cells| == DaysInMonth && AllParsable(cells) && 1 <= day
    requires |cells'| == DaysInMonth && AllParsable(cells')
    requires forall i :: day - 1 <= i < DaysInMonth ==> cells[i] == cells'[i]
    ensures RunHours(cells, day, remaining) == RunHours(cells', day, remaining)
    decreases remaining
  {
    if remaining > 0 {
      RunHoursFrame(cells, cells', day + 1, remaining - 1);
    }
  }

  /**
   Writing a non-numeric code (every status code is one) over a run lowers the hours the cells add up to by
   exactly the hours the overwritten days held; days past 28 add nothing.
   */
  lemma {:induction false} TotalAfterFill(cells: seq<Cell>, code: string, day: nat, remaining: nat)
    requires |cells| == DaysInMonth && AllParsable(cells) && 1 <= day
    requires !NumericText(code)
    ensures AllParsable(FillRun(cells, code, day, remaining))
    ensures TotalHours(FillRun(cells, code, day, remaining)) == TotalHours(cells) - RunHours(cells, day, remaining)
    decreases remaining
  {
    if remaining > 0 {
      var next := if day <= DaysInMonth then cells[day - 1 := Text(code)] else cells;
      FillStep(cells, code, day, remaining, next);
      TotalAfterFill(next, code, day + 1, remaining - 1);
      var a, b := FillRun(cells, code, day, remaining), FillRun(next, code, day + 1, remaining - 1);
      assert a == b;
      assert AllParsable(a);
      assert TotalHours(a) == TotalHours(b);
    }
  }

  /** One step of the write loop: the total loses the hours of the day written, if it exists. */
  lemma FillStep(cells: seq<Cell>, code: string, day: nat, remaining: nat, next: seq<Cell>)
    requires |cells| == DaysInMonth && AllParsable(cells) && 1 <= day && remaining > 0
    requires !NumericText(code)
    requires next == if day <= DaysInMonth then cells[day - 1 := Text(code)] else cells
    ensures |next| == DaysInMonth && AllParsable(next)
    ensures TotalHours(cells) - RunHours(cells, day, remaining) == TotalHours(next) - RunHours(next, day + 1, remaining - 1)
  {
    if day <= DaysInMonth {
      WriteDayTotal(cells, code, day, remaining);
    } else {
      assert RunHours(cells, day, remaining) == RunHours(cells, day + 1, remaining - 1);
    }
  }

  /** Writing a non-numeric code on an existing day moves that day's hours out of both the total and the run. */
  lemma WriteDayTotal(cells: seq<Cell>, code: string, day: nat, remaining: nat)
    requires |cells| == DaysInMonth && AllParsable(cells) && 1 <= day <= DaysInMonth && remaining > 0
    requires !NumericText(code)
    ensures AllParsable(cells[day - 1 := Text(code)])
    ensures var next := cells[day - 1 := Text(code)];
      TotalHours(cells) - RunHours(cells, day, remaining) == TotalHours(next) - RunHours(next, day + 1, remaining - 1)
  {
    var next := cells[day - 1 := Text(code)];
    TotalUpdate(cells, day - 1, Text(code));
    assert Contribution(Text(code)) == 0.0;
    RunHoursFrame(cells, next, day + 1, remaining - 1);
  }

  /**
   The template does not recompute the derived columns: a consistent row
   whose run covered some hours keeps its old total and so stops being consistent.
   */
  lemma TemplateLeavesTotalStale(row: Row, code: string, start: nat, days: nat)
    requires Consistent(row) && IsStatusCode(code) && 1 <= start
    requires RunHours(row.days, start, days) > 0.0
    ensures !Consistent(row.(days := FillRun(row.days, code, start, days)))
  {
    StatusCodeNotNumeric(code);
    TotalAfterFill(row.days, code, start, days);
  }

  /** A run starting on day 26 for 5 days writes days 26, 27 and 28 and nothing else. */
  lemma RunTruncatedAtMonthEnd(cells: seq<Cell>, code: string)
    requires |cells| == DaysInMonth && AllParsable(cells) && IsStatusCode(code)
    ensures var r := FillRun(cells, code, 26, 5);
      r[..25] == cells[..25] && r[25..] == [Text(code), Text(code), Text(code)]
    ensures RunHours(cells, 26, 5) == Contribution(cells[25]) + Contribution(cells[26]) + Contribution(cells[27])
  {
    var r := FillRun(cells, code, 26, 5);
    FillRunWrites(cells, code, 26, 5);
    assert r[25..] == [Text(code), Text(code), Text(code)];
  }
}
