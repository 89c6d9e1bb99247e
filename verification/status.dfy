/**
 The status of an employee row: "активен", or the set of status codes found
 among the employee's absences on days 1..28. Exceptions never take part.

 The table shows the status as one text: the codes joined with ", ". Python
 joins a `set`, whose iteration order is unspecified; this model joins the
 codes in the order of the status vocabulary, and proves that a join of the
 codes in any order splits back into exactly the set it came from.
 */
module Status {
  import opened Cells
  import opened Config

  datatype Status = Active | Absent(codes: set<string>)

  /** On day `d`, the absences map holds exactly the status code `c`. */
  predicate CodeOnDay(absences: map<string, Cell>, d: nat, c: string) {
    DayKey(d) in absences && absences[DayKey(d)] == Text(c) && IsStatusCode(c)
  }

  /**
   The codes found while scanning days `day`..28, as the status loop does:
   a missing day reads as "", which is not a status code.
   */
  function CodesFrom(absences: map<string, Cell>, day: nat): (r: set<string>)
    requires 1 <= day <= DaysInMonth + 1
    ensures forall c :: c in r <==> exists d :: day <= d <= DaysInMonth && CodeOnDay(absences, d, c)
    decreases DaysInMonth + 1 - day
  {
    if day > DaysInMonth then {}
    else
      var v := if DayKey(day) in absences then absences[DayKey(day)] else Text("");
      var here := if v.Text? && IsStatusCode(v.s) then {v.s} else {};
      var rest := CodesFrom(absences, day + 1);
      assert forall c :: c in here <==> CodeOnDay(absences, day, c);
      here + rest
  }

  /** The status of an employee with these absences. */
  function StatusOf(absences: map<string, Cell>): (r: Status)
    ensures r == Active <==> forall d, c :: 1 <= d <= DaysInMonth ==> !CodeOnDay(absences, d, c)
    ensures r.Absent? ==> r.codes != {}
    ensures r.Absent? ==> forall c :: c in r.codes <==> exists d :: 1 <= d <= DaysInMonth && CodeOnDay(absences, d, c)
  {
    var codes := CodesFrom(absences, 1);
    if codes == {} then
      assert forall d, c :: 1 <= d <= DaysInMonth ==> !CodeOnDay(absences, d, c) by {
        forall d, c | 1 <= d <= DaysInMonth ensures !CodeOnDay(absences, d, c) {
          assert CodeOnDay(absences, d, c) ==> c in codes;
        }
      }
      Active
    else
      assert exists d, c :: 1 <= d <= DaysInMonth && CodeOnDay(absences, d, c) by {
        var c :| c in codes;
        var d :| 1 <= d <= DaysInMonth && CodeOnDay(absences, d, c);
      }
      Absent(codes)
  }

  /** A status as the generator can produce it: Absent holds a non-empty set of status codes. */
  predicate ValidStatus(s: Status) {
    s.Absent? ==> s.codes != {} && forall c :: c in s.codes ==> IsStatusCode(c)
  }

  /** The status codes of `codes`, taken in vocabulary order starting at position `i`. */
  function OrderedCodes(codes: set<string>, i: nat): (r: seq<string>)
    requires i <= |StatusColors|
    ensures forall j :: 0 <= j < |r| ==> r[j] in codes && IsStatusCode(r[j])
    ensures forall c :: c in codes && (exists k :: i <= k < |StatusColors| && StatusColors[k].0 == c) ==> c in r
    decreases |StatusColors| - i
  {
    if i == |StatusColors| then []
    else
      var rest := OrderedCodes(codes, i + 1);
      if StatusColors[i].0 in codes then [StatusColors[i].0] + rest else rest
  }

  function Join(xs: seq<string>): string {
    if |xs| == 0 then ""
    else if |xs| == 1 then xs[0]
    else xs[0] + ", " + Join(xs[1..])
  }

  /** Splits a label at each ", " separator. */
  function Split(s: string): seq<string>
    decreases |s|
  {
    var i := CharIndex(s, ',');
    if i == |s| then [s]
    else [s[..i]] + Split(s[if i + 2 <= |s| then i + 2 else |s|..])
  }

  /** The text the status column shows. */
  function Label(s: Status): string {
    match s
    case Active => ActiveLabel
    case Absent(codes) => Join(OrderedCodes(codes, 0))
  }

  /** Reads a status column text back as a status. */
  function DecodeLabel(text: string): Status {
    if text == ActiveLabel then Active else Absent(set x | x in Split(text))
  }

  // ---- lemmas ----

  predicate CommaFree(s: string) {
    forall j :: 0 <= j < |s| ==> s[j] != ','
  }

  lemma StatusCodeShape(c: string)
    requires IsStatusCode(c)
    ensures CommaFree(c)
    ensures |c| > 0 && c[0] != ActiveLabel[0]
  {
    var i :| 0 <= i < |StatusColors| && StatusColors[i].0 == c;
  }

  lemma {:induction false} SplitJoin(xs: seq<string>)
    requires |xs| > 0
    requires forall j :: 0 <= j < |xs| ==> CommaFree(xs[j])
    ensures Split(Join(xs)) == xs
  {
    if |xs| == 1 {
      assert CharIndex(xs[0], ',') == |xs[0]|;
    } else {
      assert Join(xs) == xs[0] + ", " + Join(xs[1..]);
      SplitCons(xs[0], Join(xs[1..]));
      SplitJoin(xs[1..]);
      assert xs == [xs[0]] + xs[1..];
    }
  }

  /** Splitting a comma-free text followed by ", " peels that text off. */
  lemma SplitCons(x: string, t: string)
    requires CommaFree(x)
    ensures Split(x + ", " + t) == [x] + Split(t)
  {
    var s := x + ", " + t;
    assert s[|x|] == ',';
    assert forall j :: 0 <= j < |x| ==> s[j] == x[j];
    CharIndexAt(s, ',', |x|);
    assert s[..|x|] == x;
    assert s[|x| + 2..] == t;
  }

  lemma {:induction false} JoinHead(xs: seq<string>)
    requires |xs| > 0 && |xs[0]| > 0
    ensures |Join(xs)| > 0 && Join(xs)[0] == xs[0][0]
  {
  }

  lemma {:induction false} OrderedCodesComplete(codes: set<string>)
    requires forall c :: c in codes ==> IsStatusCode(c)
    ensures (set x | x in OrderedCodes(codes, 0)) == codes
  {
    var r := OrderedCodes(codes, 0);
    forall c | c in codes ensures c in r {
      var k :| 0 <= k < |StatusColors| && StatusColors[k].0 == c;
    }
  }

  /**
   The status text loses nothing: splitting it back yields the status it was
   rendered from.
   */
  lemma LabelRoundTrip(s: Status)
    requires ValidStatus(s)
    ensures DecodeLabel(Label(s)) == s
  {
    if s.Absent? {
      var xs := OrderedCodes(s.codes, 0);
      OrderedCodesComplete(s.codes);
      assert |xs| > 0 by {
        var c :| c in s.codes;
        assert c in (set x | x in xs);
      }
      forall j | 0 <= j < |xs| ensures CommaFree(xs[j]) {
        StatusCodeShape(xs[j]);
      }
      StatusCodeShape(xs[0]);
      JoinHead(xs);
      assert Join(xs) != ActiveLabel;
      SplitJoin(xs);
    }
  }

  /**
   Whatever order the codes are joined in, as a join over a Python set may
   take them, the text decodes to the same set of codes.
   */
  lemma JoinAnyOrder(xs: seq<string>, codes: set<string>)
    requires |xs| > 0 && (set x | x in xs) == codes
    requires forall j :: 0 <= j < |xs| ==> IsStatusCode(xs[j])
    ensures DecodeLabel(Join(xs)) == Absent(codes)
  {
    forall j | 0 <= j < |xs| ensures CommaFree(xs[j]) {
      StatusCodeShape(xs[j]);
    }
    StatusCodeShape(xs[0]);
    JoinHead(xs);
    assert Join(xs) != ActiveLabel;
    SplitJoin(xs);
  }

  /** The status the generator computes is always a valid one. */
  lemma StatusOfValid(absences: map<string, Cell>)
    ensures ValidStatus(StatusOf(absences))
  {
  }
}
