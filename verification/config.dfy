/**
 Fixed configuration of the roster: month length, hour norm,
 the status vocabulary with its display colours, the shift patterns and the
 three bulk absence templates.
 */
module Config {
  import opened Cells

  const DaysInMonth: nat := 28
  const NormHours: real := 160.0

  /** Status codes with their colours, in declaration order (the order styling scans them in). */
  const StatusColors: seq<(string, string)> := [
    ("отпуск", "#90EE90"),
    ("б/л", "#FFB6C1"),
    ("уч.отпуск", "#87CEEB"),
    ("переработка", "#FFFACD")
  ]

  /** The status code whose colour also marks a numeric cell above the norm. */
  const OvertimeCode: string := "переработка"

  /** The label of a row none of whose absences is a status code. */
  const ActiveLabel: string := "активен"

  predicate IsStatusCode(s: string) {
    exists i :: 0 <= i < |StatusColors| && StatusColors[i].0 == s
  }

  /** A cell holding exactly one of the status codes. */
  predicate IsCodeCell(c: Cell) {
    c.Text? && IsStatusCode(c.s)
  }

  /** Shift patterns: the per-day values that repeat across the month. */
  const Templates: map<string, seq<Cell>> := map[
    "График1" := [Hours(11.5), Hours(11.5), Text(""), Hours(11.5), Hours(11.5),
                  Text(""), Text(""), Text(""), Hours(11.5), Hours(11.5)],
    "График2" := [Hours(11.5), Hours(7.5), Text(""), Text(""), Hours(11.5),
                  Hours(11.5), Text(""), Hours(11.5), Hours(11.5)],
    "График3" := [Text(""), Hours(11.5), Hours(11.5), Text(""), Text(""),
                  Text(""), Hours(11.5), Hours(11.5)],
    "График4" := [Text(""), Text(""), Hours(11.5), Hours(11.5), Text(""),
                  Hours(11.5), Hours(11.5)],
    "Офис" := [Hours(8.0), Hours(8.0), Hours(8.0), Hours(8.0), Hours(8.0)]
  ]

  /** A bulk absence: the status code it writes and how many consecutive days it covers. */
  datatype AbsenceKind = AbsenceKind(code: string, days: nat)

  const AbsenceKinds: map<string, AbsenceKind> := map[
    "Обычный отпуск" := AbsenceKind("отпуск", 14),
    "Больничный" := AbsenceKind("б/л", 7),
    "Учебный отпуск" := AbsenceKind("уч.отпуск", 5)
  ]

  /** A pattern value: 7.5, 8 or 11.5 hours, or the empty non-working marker. */
  predicate PatternValue(c: Cell) {
    c == Hours(7.5) || c == Hours(8.0) || c == Hours(11.5) || c == Text("")
  }

  /** Every pattern has between 5 and 10 entries, each a pattern value. */
  lemma TemplatesWellFormed()
    ensures forall t :: t in Templates ==>
      5 <= |Templates[t]| <= 10 &&
      forall i :: 0 <= i < |Templates[t]| ==> PatternValue(Templates[t][i])
  {
  }

  /** Pattern values always pass the parsing requirement of the total. */
  lemma PatternValuesParsable(c: Cell)
    requires PatternValue(c)
    ensures Parsable(c)
    ensures Contribution(c) == (if c.Hours? then c.h else 0.0)
  {
    if c == Text("") {
      assert StripDots("") == "";
    }
  }

  /** No status code looks numeric, so a status code cell never adds hours. */
  lemma StatusCodeNotNumeric(s: string)
    requires IsStatusCode(s)
    ensures !NumericText(s)
    ensures Parsable(Text(s)) && Contribution(Text(s)) == 0.0
  {
    NumericTextChars(s);
    var i :| 0 <= i < |StatusColors| && StatusColors[i].0 == s;
    assert !IsDigit(s[0]) && s[0] != '.';
  }

  /** Every absence template writes one of the status codes. */
  lemma AbsenceKindsUseStatusCodes()
    ensures forall k :: k in AbsenceKinds ==> IsStatusCode(AbsenceKinds[k].code)
  {
    assert StatusColors[0].0 == AbsenceKinds["Обычный отпуск"].code;
    assert StatusColors[1].0 == AbsenceKinds["Больничный"].code;
    assert StatusColors[2].0 == AbsenceKinds["Учебный отпуск"].code;
  }
}
