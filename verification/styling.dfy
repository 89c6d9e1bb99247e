/**
 Cell colouring of the roster table: a day cell holding a status code gets
 that code's colour, a number of hours above the 160-hour norm gets the
 overtime colour, and every other cell gets no style.
 */
module Styling {
  import opened Cells
  import opened Config
  import opened Schedule

  /** The style text applied to a highlighted cell. */
  function Css(color: string): string {
    "background-color: " + color + "; color: #000;"
  }

  /**
   The test made for each vocabulary entry: the cell equals the code, or the
   cell is a number above the norm and the code is the overtime one. Only a
   number counts as a number here, not a numeric-looking text.
   */
  predicate Hit(c: Cell, code: string) {
    c == Text(code) || (c.Hours? && c.h > NormHours && code == OvertimeCode)
  }

  /** The scan over the vocabulary from entry `i` on, stopping at the first hit. */
  function StyleFrom(c: Cell, i: nat): (r: string)
    requires i <= |StatusColors|
    ensures forall j :: i <= j < |StatusColors| && Hit(c, StatusColors[j].0) ==> r == Css(StatusColors[j].1)
    ensures (forall j :: i <= j < |StatusColors| ==> !Hit(c, StatusColors[j].0)) ==> r == ""
    decreases |StatusColors| - i
  {
    if i == |StatusColors| then ""
    else if Hit(c, StatusColors[i].0) then
      AtMostOneHit(c, i);
      Css(StatusColors[i].1)
    else StyleFrom(c, i + 1)
  }

  /**
   The style of one cell: the colour of the one vocabulary entry it hits, or
   nothing when it hits none.
   */
  function CellStyle(c: Cell): (r: string)
    ensures forall j :: 0 <= j < |StatusColors| && Hit(c, StatusColors[j].0) ==> r == Css(StatusColors[j].1)
    ensures r == "" <==> forall j :: 0 <= j < |StatusColors| ==> !Hit(c, StatusColors[j].0)
  {
    CssNotEmpty();
    StyleFrom(c, 0)
  }

  /** The styles of a row's 28 day cells, day 1 first. */
  function StyleCells(row: Row): (r: seq<string>)
    requires |row.days| == DaysInMonth
    ensures |r| == DaysInMonth
    ensures forall i :: 0 <= i < DaysInMonth ==> r[i] == CellStyle(row.days[i])
  {
    seq(DaysInMonth, i requires 0 <= i < DaysInMonth => CellStyle(row.days[i]))
  }

  // ---- lemmas ----

  lemma CssNotEmpty()
    ensures forall color :: Css(color) != ""
  {
    forall color ensures Css(color) != "" {
      assert |Css(color)| > 0;
    }
  }

  /** A cell hits at most one entry at or after `i` besides entry `i` itself. */
  lemma AtMostOneHit(c: Cell, i: nat)
    requires i < |StatusColors| && Hit(c, StatusColors[i].0)
    ensures forall j :: i < j < |StatusColors| ==> !Hit(c, StatusColors[j].0)
  {
  }

  /** A status code cell is painted in that code's colour. */
  lemma StatusCodeColour(code: string, j: nat)
    requires j < |StatusColors| && StatusColors[j].0 == code
    ensures CellStyle(Text(code)) == Css(StatusColors[j].1)
  {
  }

  /** More hours than the norm in one cell is painted in the overtime colour. */
  lemma OvertimeColour(h: real)
    requires h > NormHours
    ensures CellStyle(Hours(h)) == Css("#FFFACD")
  {
    assert Hit(Hours(h), StatusColors[3].0);
  }

  /**
   Text never gets the overtime colour, even when it looks like a number above
   the norm: only status code texts are painted.
   */
  lemma TextStyledOnlyIfCode(s: string)
    ensures CellStyle(Text(s)) != "" <==> IsStatusCode(s)
  {
    if IsStatusCode(s) {
      var j :| 0 <= j < |StatusColors| && StatusColors[j].0 == s;
      assert Hit(Text(s), StatusColors[j].0);
    }
  }

  /** A number of hours at or below the norm gets no style. */
  lemma HoursWithinNormUnstyled(h: real)
    requires h <= NormHours
    ensures CellStyle(Hours(h)) == ""
  {
  }
}
