/**
 * transform_data: the two merges followed by the group-by. The three inputs
 * are the record lists the readers produced.
 */
module Transform {
  import opened Records
  import opened Join
  import opened Aggregation
  import opened StatsTable

  /**
   * A table built from an empty record list has no columns at all, so
   * merging it on a key column raises KeyError naming that column.
   */
  datatype TransformError = MissingColumn(column: string)

  function TransformData(es: seq<Employee>, ts: seq<Training>, cs: seq<Course>)
    : (r: Result<seq<DeptStats>, TransformError>)
    ensures r.Err? <==> es == [] || ts == [] || cs == []
    ensures r.Ok? ==> (r.value == [] <==> JoinAll(es, ts, cs) == [])
  {
    if es == [] || ts == [] then Err(MissingColumn("employee_id"))
    else if cs == [] then Err(MissingColumn("course_id"))
    else Ok(Aggregate(JoinAll(es, ts, cs)))
  }

  /** With unique employee ids, every joined employee carries that employee's one department. */
  lemma JoinedOneDepartment(es: seq<Employee>, ts: seq<Training>, cs: seq<Course>)
    requires UniqueEmployeeIds(es)
    ensures OneDepartmentPerEmployee(JoinAll(es, ts, cs))
  {
    var rows := JoinAll(es, ts, cs);
    forall r1, r2 | r1 in rows && r2 in rows && r1.employee_id == r2.employee_id
      ensures r1.department == r2.department
    {
      JoinAllMembers(es, ts, cs, r1);
      JoinAllMembers(es, ts, cs, r2);
      var e1, t1, c1 :| e1 in es && t1 in ts && c1 in cs && e1.employee_id == t1.employee_id
                        && t1.course_id == c1.course_id && r1 == Combine(e1, t1, c1);
      var e2, t2, c2 :| e2 in es && t2 in ts && c2 in cs && e2.employee_id == t2.employee_id
                        && t2.course_id == c2.course_id && r2 == Combine(e2, t2, c2);
      var i :| 0 <= i < |es| && es[i] == e1;
      var j :| 0 <= j < |es| && es[j] == e2;
      assert i == j;
    }
  }

  /** The joined employees are employees of the input. */
  lemma JoinedEmployeesKnown(es: seq<Employee>, ts: seq<Training>, cs: seq<Course>)
    ensures EmployeeIds(JoinAll(es, ts, cs)) <= EmployeeKeys(es)
  {
    forall id | id in EmployeeIds(JoinAll(es, ts, cs)) ensures id in EmployeeKeys(es) {
      var r :| r in JoinAll(es, ts, cs) && r.employee_id == id;
      JoinAllMembers(es, ts, cs, r);
    }
  }

  /** The employee ids the input lists under department d. */
  function DepartmentStaff(es: seq<Employee>, d: string): set<int>
  {
    set e | e in es && e.department == d :: e.employee_id
  }

  /** A set inside another is no larger than it: the rest of the larger one is disjoint from it. */
  lemma SubsetCardinality(a: set<int>, b: set<int>)
    requires a <= b
    ensures |a| <= |b|
  {
    assert b == a + (b - a);
    assert a * (b - a) == {};
  }

  /**
   * A department's total_employees never exceeds the number of employees the
   * input lists under that department, whether or not the keys are unique.
   */
  lemma DepartmentEmployeesBound(es: seq<Employee>, ts: seq<Training>, cs: seq<Course>, d: string)
    requires d in Departments(JoinAll(es, ts, cs))
    ensures StatsOf(JoinAll(es, ts, cs), d).total_employees <= |DepartmentStaff(es, d)|
  {
    var rows := JoinAll(es, ts, cs);
    var g := Group(rows, d);
    GroupMembers(rows, d);
    forall id | id in EmployeeIds(g) ensures id in DepartmentStaff(es, d) {
      var r :| r in g && r.employee_id == id;
      JoinAllMembers(es, ts, cs, r);
      var e, t, c :| e in es && t in ts && c in cs && e.employee_id == t.employee_id
                     && t.course_id == c.course_id && r == Combine(e, t, c);
    }
    SubsetCardinality(EmployeeIds(g), DepartmentStaff(es, d));
  }

  /**
   * With unique keys, the statistics cover exactly the matched training rows:
   * total_courses adds up to their number, which is at most the number of
   * training rows, and total_employees adds up to the number of distinct
   * employees among them, all of them known employees.
   */
  lemma TransformTotals(es: seq<Employee>, ts: seq<Training>, cs: seq<Course>)
    requires es != [] && ts != [] && cs != []
    requires UniqueEmployeeIds(es) && UniqueCourseIds(cs)
    ensures TransformData(es, ts, cs).Ok?
    ensures ColumnTotal(TransformData(es, ts, cs).value, TotalCourses) == |Matched(ts, es, cs)| <= |ts|
    ensures ColumnTotal(TransformData(es, ts, cs).value, TotalEmployees) == |EmployeeIds(JoinAll(es, ts, cs))|
    ensures EmployeeIds(JoinAll(es, ts, cs)) <= EmployeeKeys(es)
  {
    var rows := JoinAll(es, ts, cs);
    AggregateCoursesTotal(rows);
    JoinAllUniqueKeys(es, ts, cs);
    JoinedOneDepartment(es, ts, cs);
    AggregateEmployeesTotal(rows);
    JoinedEmployeesKnown(es, ts, cs);
  }

  /** Scores that all lie in [lo, hi] give every department an avg_score in [lo, hi]. */
  lemma AvgWithinScoreRange(es: seq<Employee>, ts: seq<Training>, cs: seq<Course>, lo: int, hi: int)
    requires forall t :: t in ts ==> lo <= t.score <= hi
    requires TransformData(es, ts, cs).Ok?
    ensures forall s :: s in TransformData(es, ts, cs).value ==> lo as real <= s.avg_score <= hi as real
  {
    var rows := JoinAll(es, ts, cs);
    var stats := TransformData(es, ts, cs).value;
    forall s | s in stats ensures lo as real <= s.avg_score <= hi as real {
      var i :| 0 <= i < |stats| && stats[i] == s;
      var d := s.department;
      assert s == StatsOf(rows, d);
      var g := Group(rows, d);
      GroupMembers(rows, d);
      forall r | r in g ensures lo <= r.score <= hi {
        JoinAllMembers(es, ts, cs, r);
      }
      var w :| w in rows && w.department == d;
      assert w in g;
      MeanWithin(g, lo, hi);
    }
  }

  // ----- worked examples -----

  /** Three employees in two departments, four training rows, three courses. */
  lemma ExampleTwoDepartments()
    ensures TransformData(
              [Employee(1, "IT"), Employee(2, "IT"), Employee(3, "HR")],
              [Training(1, 10, 80), Training(1, 11, 90), Training(2, 10, 70), Training(3, 12, 60)],
              [Course(10, "X"), Course(11, "Y"), Course(12, "Z")])
         == Ok([DeptStats("HR", 1, 1, 60.0), DeptStats("IT", 2, 3, 80.0)])
  {
    var es := [Employee(1, "IT"), Employee(2, "IT"), Employee(3, "HR")];
    var ts := [Training(1, 10, 80), Training(1, 11, 90), Training(2, 10, 70), Training(3, 12, 60)];
    var cs := [Course(10, "X"), Course(11, "Y"), Course(12, "Z")];
    ExampleJoin(es, ts, cs);
    ExampleStats(JoinAll(es, ts, cs));
  }

  lemma ExampleJoin(es: seq<Employee>, ts: seq<Training>, cs: seq<Course>)
    requires es == [Employee(1, "IT"), Employee(2, "IT"), Employee(3, "HR")]
    requires ts == [Training(1, 10, 80), Training(1, 11, 90), Training(2, 10, 70), Training(3, 12, 60)]
    requires cs == [Course(10, "X"), Course(11, "Y"), Course(12, "Z")]
    ensures JoinAll(es, ts, cs)
         == [Enrolment(1, "IT", 10, 80, "X"), Enrolment(1, "IT", 11, 90, "Y"),
             Enrolment(2, "IT", 10, 70, "X"), Enrolment(3, "HR", 12, 60, "Z")]
  {
    ExampleMerge(es, ts);
    var ms := MergeOnEmployee(es, ts);
    ExampleCourse(ms[0], cs);
    ExampleCourse(ms[1], cs);
    ExampleCourse(ms[2], cs);
    ExampleCourse(ms[3], cs);
    var m1, m2, m3 := ms[1..], ms[2..], ms[3..];
    assert m1[1..] == m2 && m2[1..] == m3 && m3[1..] == [];
    assert MergeOnCourse(m3, cs) == [Enrolment(3, "HR", 12, 60, "Z")];
    assert MergeOnCourse(m2, cs) == [Enrolment(2, "IT", 10, 70, "X"), Enrolment(3, "HR", 12, 60, "Z")];
    assert MergeOnCourse(m1, cs) == [Enrolment(1, "IT", 11, 90, "Y"), Enrolment(2, "IT", 10, 70, "X"),
                                     Enrolment(3, "HR", 12, 60, "Z")];
  }

  lemma ExampleCourse(a: Attendance, cs: seq<Course>)
    requires cs == [Course(10, "X"), Course(11, "Y"), Course(12, "Z")]
    ensures a.course_id == 10 ==> EnrolmentsOf(a, cs) == [Enrolment(a.employee_id, a.department, 10, a.score, "X")]
    ensures a.course_id == 11 ==> EnrolmentsOf(a, cs) == [Enrolment(a.employee_id, a.department, 11, a.score, "Y")]
    ensures a.course_id == 12 ==> EnrolmentsOf(a, cs) == [Enrolment(a.employee_id, a.department, 12, a.score, "Z")]
  {
    var c1, c2, c3 := cs[1..], cs[2..], cs[3..];
    assert c1 == [Course(11, "Y"), Course(12, "Z")] && c2 == [Course(12, "Z")] && c3 == [];
    assert c1[1..] == c2 && c2[1..] == c3;
    var x := Enrolment(a.employee_id, a.department, a.course_id, a.score, "X");
    var y := Enrolment(a.employee_id, a.department, a.course_id, a.score, "Y");
    var z := Enrolment(a.employee_id, a.department, a.course_id, a.score, "Z");
    assert EnrolmentsOf(a, c3) == [];
    assert EnrolmentsOf(a, c2) == (if a.course_id == 12 then [z] else []);
    assert EnrolmentsOf(a, c1) == (if a.course_id == 11 then [y] else []) + EnrolmentsOf(a, c2);
    assert EnrolmentsOf(a, cs) == (if a.course_id == 10 then [x] else []) + EnrolmentsOf(a, c1);
  }

  lemma ExampleTrainings(e: Employee, ts: seq<Training>)
    requires ts == [Training(1, 10, 80), Training(1, 11, 90), Training(2, 10, 70), Training(3, 12, 60)]
    ensures e.employee_id == 1 ==>
      AttendancesOf(e, ts) == [Attendance(1, e.department, 10, 80), Attendance(1, e.department, 11, 90)]
    ensures e.employee_id == 2 ==> AttendancesOf(e, ts) == [Attendance(2, e.department, 10, 70)]
    ensures e.employee_id == 3 ==> AttendancesOf(e, ts) == [Attendance(3, e.department, 12, 60)]
  {
    var t1, t2, t3 := ts[1..], ts[2..], ts[3..];
    assert t1[1..] == t2 && t2[1..] == t3 && t3[1..] == [];
    var id, d := e.employee_id, e.department;
    assert AttendancesOf(e, t3[1..]) == [];
    assert AttendancesOf(e, t3) == (if id == 3 then [Attendance(id, d, 12, 60)] else []);
    assert AttendancesOf(e, t2) == (if id == 2 then [Attendance(id, d, 10, 70)] else []) + AttendancesOf(e, t3);
    assert AttendancesOf(e, t1) == (if id == 1 then [Attendance(id, d, 11, 90)] else []) + AttendancesOf(e, t2);
    assert AttendancesOf(e, ts) == (if id == 1 then [Attendance(id, d, 10, 80)] else []) + AttendancesOf(e, t1);
  }

  lemma ExampleMerge(es: seq<Employee>, ts: seq<Training>)
    requires es == [Employee(1, "IT"), Employee(2, "IT"), Employee(3, "HR")]
    requires ts == [Training(1, 10, 80), Training(1, 11, 90), Training(2, 10, 70), Training(3, 12, 60)]
    ensures MergeOnEmployee(es, ts)
         == [Attendance(1, "IT", 10, 80), Attendance(1, "IT", 11, 90),
             Attendance(2, "IT", 10, 70), Attendance(3, "HR", 12, 60)]
  {
    ExampleTrainings(es[0], ts);
    ExampleTrainings(es[1], ts);
    ExampleTrainings(es[2], ts);
    var e1, e2 := es[1..], es[2..];
    assert e1[1..] == e2 && e2[1..] == [];
    assert MergeOnEmployee(e2, ts) == [Attendance(3, "HR", 12, 60)];
  }

  lemma ExampleStats(rows: seq<Enrolment>)
    requires rows == [Enrolment(1, "IT", 10, 80, "X"), Enrolment(1, "IT", 11, 90, "Y"),
                      Enrolment(2, "IT", 10, 70, "X"), Enrolment(3, "HR", 12, 60, "Z")]
    ensures Aggregate(rows) == [DeptStats("HR", 1, 1, 60.0), DeptStats("IT", 2, 3, 80.0)]
  {
    ExampleKeys(rows);
    var ks := Departments(rows);
    ExampleHR(rows);
    ExampleIT(rows);
    assert StatsFor(rows, ks[1..]) == [DeptStats("IT", 2, 3, 80.0)];
  }

  lemma ExampleKeys(rows: seq<Enrolment>)
    requires rows == [Enrolment(1, "IT", 10, 80, "X"), Enrolment(1, "IT", 11, 90, "Y"),
                      Enrolment(2, "IT", 10, 70, "X"), Enrolment(3, "HR", 12, 60, "Z")]
    ensures Departments(rows) == ["HR", "IT"]
  {
    assert rows[3..][1..] == [];
    assert rows[2..][1..] == rows[3..] && rows[1..][1..] == rows[2..];
    assert !LexOrder.Below("IT", "HR");
    assert Departments(rows[3..]) == ["HR"];
    var hr: seq<string>, both: seq<string> := ["HR"], ["HR", "IT"];
    assert hr[1..] == [] && both[1..] == ["IT"];
    assert LexOrder.InsertKey(hr, "IT") == both;
    assert LexOrder.InsertKey(both, "IT") == both;
    assert Departments(rows[2..]) == ["HR", "IT"];
    assert Departments(rows[1..]) == ["HR", "IT"];
  }

  lemma ExampleHR(rows: seq<Enrolment>)
    requires rows == [Enrolment(1, "IT", 10, 80, "X"), Enrolment(1, "IT", 11, 90, "Y"),
                      Enrolment(2, "IT", 10, 70, "X"), Enrolment(3, "HR", 12, 60, "Z")]
    ensures "HR" in Departments(rows) && StatsOf(rows, "HR") == DeptStats("HR", 1, 1, 60.0)
  {
    ExampleKeys(rows);
    ExampleGroups(rows);
    ExampleSums(rows);
  }

  lemma ExampleIT(rows: seq<Enrolment>)
    requires rows == [Enrolment(1, "IT", 10, 80, "X"), Enrolment(1, "IT", 11, 90, "Y"),
                      Enrolment(2, "IT", 10, 70, "X"), Enrolment(3, "HR", 12, 60, "Z")]
    ensures "IT" in Departments(rows) && StatsOf(rows, "IT") == DeptStats("IT", 2, 3, 80.0)
  {
    ExampleKeys(rows);
    ExampleGroups(rows);
    ExampleSums(rows);
    assert Mean(rows[..3]) == 80.0;
  }

  lemma ExampleGroups(rows: seq<Enrolment>)
    requires rows == [Enrolment(1, "IT", 10, 80, "X"), Enrolment(1, "IT", 11, 90, "Y"),
                      Enrolment(2, "IT", 10, 70, "X"), Enrolment(3, "HR", 12, 60, "Z")]
    ensures Group(rows, "HR") == [rows[3]]
    ensures Group(rows, "IT") == rows[..3]
  {
    assert rows[3..][1..] == [];
    assert rows[2..][1..] == rows[3..] && rows[1..][1..] == rows[2..];
    assert Group(rows[3..], "HR") == [rows[3]] && Group(rows[3..], "IT") == [];
    assert Group(rows[2..], "HR") == [rows[3]] && Group(rows[2..], "IT") == [rows[2]];
    assert Group(rows[1..], "HR") == [rows[3]] && Group(rows[1..], "IT") == rows[1..3];
  }

  lemma ExampleSums(rows: seq<Enrolment>)
    requires rows == [Enrolment(1, "IT", 10, 80, "X"), Enrolment(1, "IT", 11, 90, "Y"),
                      Enrolment(2, "IT", 10, 70, "X"), Enrolment(3, "HR", 12, 60, "Z")]
    ensures EmployeeIds(rows[..3]) == {1, 2} && EmployeeIds([rows[3]]) == {3}
    ensures ScoreSum(rows[..3]) == 240 && ScoreSum([rows[3]]) == 60
  {
    assert rows[..3][1..] == rows[1..3] && rows[1..3][1..] == rows[2..3] && rows[2..3][1..] == [];
    assert ScoreSum(rows[2..3]) == 70;
    assert ScoreSum(rows[1..3]) == 160;
  }

  /** A training row whose course_id names no course is dropped, without an error. */
  lemma ExampleUnknownCourse()
    ensures JoinAll([Employee(1, "IT")], [Training(1, 10, 80), Training(1, 99, 50)], [Course(10, "X")])
         == [Enrolment(1, "IT", 10, 80, "X")]
    ensures TransformData([Employee(1, "IT")], [Training(1, 10, 80), Training(1, 99, 50)], [Course(10, "X")]).Ok?
  {
  }

  /**
   * Two employees sharing an employee_id raise no error: the merge pairs the
   * training row with both, so the joined rows outnumber the training rows.
   */
  lemma ExampleDuplicateEmployeeId()
    ensures JoinAll([Employee(1, "IT"), Employee(1, "HR")], [Training(1, 10, 80)], [Course(10, "X")])
         == [Enrolment(1, "IT", 10, 80, "X"), Enrolment(1, "HR", 10, 80, "X")]
    ensures TransformData([Employee(1, "IT"), Employee(1, "HR")], [Training(1, 10, 80)], [Course(10, "X")]).Ok?
  {
  }
}
