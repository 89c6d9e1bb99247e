/**
 The seed roster: the fixed employee list the table is first built from.
 Its override maps are passed positionally, so every one of them lands in
 `exceptions`; no seeded employee has an absence, and every seeded row starts
 with the status "активен".
 */
module Seed {
  import opened Cells
  import opened Config
  import opened Status
  import opened Schedule

  function E(name: string, group: string, scheduleType: string, exceptions: map<string, Cell>): Employee {
    Employee(name, group, scheduleType, exceptions, map[])
  }

  const Employees: seq<Employee> := [
    E("Феоктистова Е.А.", "ГР1", "График1", map["12" := Text("ГО"), "27" := Text("4")]),
    E("Третьяков А.И.", "ГР1", "График1", map[]),
    E("Грачева Т.В.", "ГР1", "График1", map[]),
    E("Белоусов А.В.", "ГР1", "График1", map["12" := Text("ГО")]),
    E("Давыдова С.В.", "ГР1", "График1", map[]),
    E("Саранцев А.Н. ученик", "ГР1", "График1", map["6" := Text("ув")]),
    E("Панфилов А.В.", "ГР2", "График2", map["22" := Text("го")]),
    E("Свиридов А.О. (стажер)", "ГР2", "График2", map[]),
    E("Смирнов Н.Н.", "ГР2", "График2", map[]),
    E("Синякина С.А.", "ГР2", "График2", map[]),
    E("Пантюхин А.Д.", "ГР2", "График2", map["23" := Text("го")]),
    E("Давыдова О.И.", "ГР2", "График2", map[]),
    E("Роменский Р.С.", "ГР2", "График2", map[]),
    E("Лукашенкова С.В.", "ГР3", "График3", map[]),
    E("Раку О.А.", "ГР3", "График3", map["8" := Text("б/л")]),
    E("Михеева А.В.", "ГР3", "График3", map["15" := Text("ГО")]),
    E("Антипенко В.Н.", "ГР3", "График3", map[]),
    E("Юдина И.Е.", "ГР4", "График4", map[]),
    E("Лисовская Т.А.", "ГР4", "График4", map["4" := Text("б/л")]),
    E("Галкина В.А.", "ГР4", "График4", map["11" := Text("б/л")]),
    E("Незбудеев Д.С.", "ГР4", "График4", map[]),
    E("Смоляков А.А.", "ГР4", "График4", map["12" := Text("ГО")]),
    E("Долгоаршиннных Т.Р.", "ГР4", "График4", map[]),
    E("Подгорбунский Д.А.", "офис", "Офис", map[])
  ]

  /** The seed list names only existing patterns and holds only readable overrides. */
  lemma SeedWellFormed()
    ensures forall i :: 0 <= i < |Employees| ==> ValidEmployee(Employees[i]) && ReadableOverrides(Employees[i])
  {
    forall i | 0 <= i < |Employees| ensures ValidEmployee(Employees[i]) && ReadableOverrides(Employees[i]) {
      var e := Employees[i];
      forall d | 1 <= d <= DaysInMonth ensures OverrideReadable(e, d) {
        if DayKey(d) in e.exceptions {
          OneDotAtMost(e.exceptions[DayKey(d)]);
        }
      }
    }
  }

  lemma OneDotAtMost(c: Cell)
    requires c in {Text("ГО"), Text("4"), Text("ув"), Text("го"), Text("б/л")}
    ensures Parsable(c)
  {
  }

  /** The seed overrides all land in `exceptions`: no seeded employee has an absence. */
  lemma SeedHasNoAbsences()
    ensures forall i :: 0 <= i < |Employees| ==> Employees[i].absences == map[]
  {
  }

  /** An employee without absences always gets the status "активен". */
  lemma NoAbsencesActive(e: Employee)
    requires ValidEmployee(e) && ReadableOverrides(e) && e.absences == map[]
    ensures GenerateRow(e).status == ActiveLabel
  {
    assert forall d, c :: 1 <= d <= DaysInMonth ==> !CodeOnDay(e.absences, d, c);
  }

  /**
   The roster the session starts from: one row per seeded employee, in seed
   order, each consistent, and each with the status "активен".
   */
  function SeedRoster(): (rows: seq<Row>)
    ensures |rows| == |Employees| == 24
    ensures forall i :: 0 <= i < |rows| ==> rows[i].name == Employees[i].name && Consistent(rows[i])
    ensures forall i :: 0 <= i < |rows| ==> rows[i].status == ActiveLabel
  {
    SeedWellFormed();
    SeedHasNoAbsences();
    RosterAllActive(Employees);
    BuildRoster(Employees)
  }

  /** A roster built from employees without absences shows "активен" on every row. */
  lemma RosterAllActive(employees: seq<Employee>)
    requires forall i :: 0 <= i < |employees| ==>
      ValidEmployee(employees[i]) && ReadableOverrides(employees[i]) && employees[i].absences == map[]
    ensures forall i :: 0 <= i < |employees| ==> BuildRoster(employees)[i].status == ActiveLabel
  {
    var rows := BuildRoster(employees);
    forall i | 0 <= i < |employees| ensures rows[i].status == ActiveLabel {
      assert rows[i] == GenerateRow(employees[i]);
      NoAbsencesActive(employees[i]);
    }
  }
}
