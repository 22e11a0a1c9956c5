/**
 * The two inner merges of transform_data: employees with training on
 * employee_id, then the result with courses on course_id. As in pandas, a
 * merge emits one row per matching pair and does not check the keys for
 * uniqueness; rows come in the order of the left rows.
 */
module Join {
  import opened Records

  /** The first merge's rows for one employee, in training order. */
  function AttendancesOf(e: Employee, ts: seq<Training>): (r: seq<Attendance>)
    decreases |ts|
  {
    if ts == [] then []
    else
      (if ts[0].employee_id == e.employee_id
       then [Attendance(e.employee_id, e.department, ts[0].course_id, ts[0].score)]
       else [])
      + AttendancesOf(e, ts[1..])
  }

  /** The first merge: each employee paired with every training row of equal employee_id. */
  function MergeOnEmployee(es: seq<Employee>, ts: seq<Training>): (r: seq<Attendance>)
    decreases |es|
  {
    if es == [] then [] else AttendancesOf(es[0], ts) + MergeOnEmployee(es[1..], ts)
  }

  /** The second merge's rows for one row of the first, in course order. */
  function EnrolmentsOf(a: Attendance, cs: seq<Course>): (r: seq<Enrolment>)
    decreases |cs|
  {
    if cs == [] then []
    else
      (if cs[0].course_id == a.course_id
       then [Enrolment(a.employee_id, a.department, a.course_id, a.score, cs[0].course_name)]
       else [])
      + EnrolmentsOf(a, cs[1..])
  }

  /** The second merge: each row of the first paired with every course of equal course_id. */
  function MergeOnCourse(ms: seq<Attendance>, cs: seq<Course>): (r: seq<Enrolment>)
    decreases |ms|
  {
    if ms == [] then [] else EnrolmentsOf(ms[0], cs) + MergeOnCourse(ms[1..], cs)
  }

  /** final_df: both merges in turn. */
  function JoinAll(es: seq<Employee>, ts: seq<Training>, cs: seq<Course>): (r: seq<Enrolment>)
  {
    MergeOnCourse(MergeOnEmployee(es, ts), cs)
  }

  /** The joined row that one employee, one training row and one course give together. */
  function Combine(e: Employee, t: Training, c: Course): Enrolment
  {
    Enrolment(e.employee_id, e.department, t.course_id, t.score, c.course_name)
  }

  // ----- which rows the merges emit, keys unique or not -----

  lemma {:induction false} AttendancesOfMembers(e: Employee, ts: seq<Training>, a: Attendance)
    ensures a in AttendancesOf(e, ts) <==>
      exists t :: t in ts && t.employee_id == e.employee_id
                  && a == Attendance(e.employee_id, e.department, t.course_id, t.score)
    decreases |ts|
  {
    if ts != [] {
      AttendancesOfMembers(e, ts[1..], a);
      assert ts == [ts[0]] + ts[1..];
    }
  }

  lemma {:induction false} MergeOnEmployeeMembers(es: seq<Employee>, ts: seq<Training>, a: Attendance)
    ensures a in MergeOnEmployee(es, ts) <==>
      exists e, t :: e in es && t in ts && e.employee_id == t.employee_id
                     && a == Attendance(e.employee_id, e.department, t.course_id, t.score)
    decreases |es|
  {
    if es != [] {
      AttendancesOfMembers(es[0], ts, a);
      MergeOnEmployeeMembers(es[1..], ts, a);
      assert es == [es[0]] + es[1..];
    }
  }

  lemma {:induction false} EnrolmentsOfMembers(a: Attendance, cs: seq<Course>, r: Enrolment)
    ensures r in EnrolmentsOf(a, cs) <==>
      exists c :: c in cs && c.course_id == a.course_id
                  && r == Enrolment(a.employee_id, a.department, a.course_id, a.score, c.course_name)
    decreases |cs|
  {
    if cs != [] {
      EnrolmentsOfMembers(a, cs[1..], r);
      assert cs == [cs[0]] + cs[1..];
    }
  }

  lemma {:induction false} MergeOnCourseMembers(ms: seq<Attendance>, cs: seq<Course>, r: Enrolment)
    ensures r in MergeOnCourse(ms, cs) <==>
      exists a, c :: a in ms && c in cs && a.course_id == c.course_id
                     && r == Enrolment(a.employee_id, a.department, a.course_id, a.score, c.course_name)
    decreases |ms|
  {
    if ms != [] {
      EnrolmentsOfMembers(ms[0], cs, r);
      MergeOnCourseMembers(ms[1..], cs, r);
      assert ms == [ms[0]] + ms[1..];
    }
  }

  /**
   * A row is in final_df exactly when some employee, training row and course
   * agree on both keys and give that row.
   */
  lemma JoinAllMembers(es: seq<Employee>, ts: seq<Training>, cs: seq<Course>, r: Enrolment)
    ensures r in JoinAll(es, ts, cs) <==>
      exists e, t, c :: e in es && t in ts && c in cs
                        && e.employee_id == t.employee_id && t.course_id == c.course_id
                        && r == Combine(e, t, c)
  {
    var ms := MergeOnEmployee(es, ts);
    MergeOnCourseMembers(ms, cs, r);
    if r in JoinAll(es, ts, cs) {
      var a, c :| a in ms && c in cs && a.course_id == c.course_id
                  && r == Enrolment(a.employee_id, a.department, a.course_id, a.score, c.course_name);
      MergeOnEmployeeMembers(es, ts, a);
      var e, t :| e in es && t in ts && e.employee_id == t.employee_id
                  && a == Attendance(e.employee_id, e.department, t.course_id, t.score);
      assert r == Combine(e, t, c);
    } else {
      forall e, t, c | e in es && t in ts && c in cs
                       && e.employee_id == t.employee_id && t.course_id == c.course_id
        ensures r != Combine(e, t, c)
      {
        var a := Attendance(e.employee_id, e.department, t.course_id, t.score);
        MergeOnEmployeeMembers(es, ts, a);
      }
    }
  }

  // ----- with unique keys: the rows kept are the matched training rows -----

  predicate UniqueEmployeeIds(es: seq<Employee>)
  {
    forall i, j :: 0 <= i < j < |es| ==> es[i].employee_id != es[j].employee_id
  }

  predicate UniqueCourseIds(cs: seq<Course>)
  {
    forall i, j :: 0 <= i < j < |cs| ==> cs[i].course_id != cs[j].course_id
  }

  function EmployeeKeys(es: seq<Employee>): set<int>
  {
    set e | e in es :: e.employee_id
  }

  function CourseKeys(cs: seq<Course>): set<int>
  {
    set c | c in cs :: c.course_id
  }

  /** The training rows whose employee_id is among the given keys, in order. */
  function WithEmployee(ts: seq<Training>, keys: set<int>): (r: seq<Training>)
    decreases |ts|
  {
    if ts == [] then []
    else (if ts[0].employee_id in keys then [ts[0]] else []) + WithEmployee(ts[1..], keys)
  }

  /** The training rows whose course_id is among the given keys, in order. */
  function WithCourse(ts: seq<Training>, keys: set<int>): (r: seq<Training>)
    decreases |ts|
  {
    if ts == [] then []
    else (if ts[0].course_id in keys then [ts[0]] else []) + WithCourse(ts[1..], keys)
  }

  /** The training rows both of whose keys resolve, in training order. */
  function Matched(ts: seq<Training>, es: seq<Employee>, cs: seq<Course>): (r: seq<Training>)
  {
    WithCourse(WithEmployee(ts, EmployeeKeys(es)), CourseKeys(cs))
  }

  /** The training columns of a row of the first merge. */
  function AttendanceTrainings(ms: seq<Attendance>): (r: seq<Training>)
    decreases |ms|
  {
    if ms == [] then []
    else [Training(ms[0].employee_id, ms[0].course_id, ms[0].score)] + AttendanceTrainings(ms[1..])
  }

  /** The training columns of a row of final_df. */
  function EnrolmentTrainings(rs: seq<Enrolment>): (r: seq<Training>)
    decreases |rs|
  {
    if rs == [] then []
    else [Training(rs[0].employee_id, rs[0].course_id, rs[0].score)] + EnrolmentTrainings(rs[1..])
  }

  lemma {:induction false} AttendanceTrainingsAppend(a: seq<Attendance>, b: seq<Attendance>)
    ensures AttendanceTrainings(a + b) == AttendanceTrainings(a) + AttendanceTrainings(b)
    decreases |a|
  {
    if a != [] {
      assert (a + b)[0] == a[0] && (a + b)[1..] == a[1..] + b;
      AttendanceTrainingsAppend(a[1..], b);
    } else {
      assert a + b == b;
    }
  }

  lemma {:induction false} EnrolmentTrainingsAppend(a: seq<Enrolment>, b: seq<Enrolment>)
    ensures EnrolmentTrainings(a + b) == EnrolmentTrainings(a) + EnrolmentTrainings(b)
    ensures |EnrolmentTrainings(a)| == |a|
    decreases |a|
  {
    if a != [] {
      assert (a + b)[0] == a[0] && (a + b)[1..] == a[1..] + b;
      EnrolmentTrainingsAppend(a[1..], b);
    } else {
      assert a + b == b;
    }
  }

  lemma {:induction false} WithCourseAppend(a: seq<Training>, b: seq<Training>, keys: set<int>)
    ensures WithCourse(a + b, keys) == WithCourse(a, keys) + WithCourse(b, keys)
    decreases |a|
  {
    if a != [] {
      assert (a + b)[0] == a[0] && (a + b)[1..] == a[1..] + b;
      WithCourseAppend(a[1..], b, keys);
    } else {
      assert a + b == b;
    }
  }

  lemma {:induction false} AttendancesOfTrainings(e: Employee, ts: seq<Training>)
    ensures AttendanceTrainings(AttendancesOf(e, ts)) == WithEmployee(ts, {e.employee_id})
    decreases |ts|
  {
    if ts != [] {
      var head := if ts[0].employee_id == e.employee_id
                  then [Attendance(e.employee_id, e.department, ts[0].course_id, ts[0].score)]
                  else [];
      AttendanceTrainingsAppend(head, AttendancesOf(e, ts[1..]));
      AttendancesOfTrainings(e, ts[1..]);
    }
  }

  /** Filtering by a key set that is one key plus a disjoint rest splits the rows in two. */
  lemma {:induction false} WithEmployeeSplit(ts: seq<Training>, k: int, rest: set<int>)
    requires k !in rest
    ensures multiset(WithEmployee(ts, {k} + rest))
         == multiset(WithEmployee(ts, {k})) + multiset(WithEmployee(ts, rest))
    decreases |ts|
  {
    if ts != [] {
      WithEmployeeSplit(ts[1..], k, rest);
    }
  }

  lemma {:induction false} MergeOnEmployeeTrainings(es: seq<Employee>, ts: seq<Training>)
    requires UniqueEmployeeIds(es)
    ensures multiset(AttendanceTrainings(MergeOnEmployee(es, ts)))
         == multiset(WithEmployee(ts, EmployeeKeys(es)))
    decreases |es|
  {
    if es == [] {
      assert EmployeeKeys(es) == {};
      WithEmployeeEmptyKeys(ts);
    } else {
      var e := es[0];
      assert UniqueEmployeeIds(es[1..]);
      MergeOnEmployeeTrainings(es[1..], ts);
      AttendanceTrainingsAppend(AttendancesOf(e, ts), MergeOnEmployee(es[1..], ts));
      AttendancesOfTrainings(e, ts);
      assert EmployeeKeys(es) == {e.employee_id} + EmployeeKeys(es[1..]) by {
        assert es == [e] + es[1..];
      }
      forall x | x in es[1..] ensures x.employee_id != e.employee_id {
        var j :| 0 <= j < |es[1..]| && es[1..][j] == x;
        assert es[j + 1] == x;
      }
      WithEmployeeSplit(ts, e.employee_id, EmployeeKeys(es[1..]));
    }
  }

  lemma {:induction false} WithEmployeeEmptyKeys(ts: seq<Training>)
    ensures WithEmployee(ts, {}) == []
    decreases |ts|
  {
    if ts != [] { WithEmployeeEmptyKeys(ts[1..]); }
  }

  lemma {:induction false} EnrolmentsOfNone(a: Attendance, cs: seq<Course>)
    requires forall c :: c in cs ==> c.course_id != a.course_id
    ensures EnrolmentsOf(a, cs) == []
    decreases |cs|
  {
    if cs != [] { EnrolmentsOfNone(a, cs[1..]); }
  }

  /** With unique course ids a row of the first merge yields at most one row of the second. */
  lemma {:induction false} EnrolmentsOfTrainings(a: Attendance, cs: seq<Course>)
    requires UniqueCourseIds(cs)
    ensures EnrolmentTrainings(EnrolmentsOf(a, cs))
         == if a.course_id in CourseKeys(cs) then [Training(a.employee_id, a.course_id, a.score)] else []
    decreases |cs|
  {
    if cs != [] {
      assert cs == [cs[0]] + cs[1..];
      assert UniqueCourseIds(cs[1..]);
      assert CourseKeys(cs) == {cs[0].course_id} + CourseKeys(cs[1..]);
      if cs[0].course_id == a.course_id {
        forall c | c in cs[1..] ensures c.course_id != a.course_id {
          var j :| 0 <= j < |cs[1..]| && cs[1..][j] == c;
          assert cs[j + 1] == c;
        }
        EnrolmentsOfNone(a, cs[1..]);
      } else {
        EnrolmentsOfTrainings(a, cs[1..]);
      }
    }
  }

  lemma {:induction false} MergeOnCourseTrainings(ms: seq<Attendance>, cs: seq<Course>)
    requires UniqueCourseIds(cs)
    ensures EnrolmentTrainings(MergeOnCourse(ms, cs))
         == WithCourse(AttendanceTrainings(ms), CourseKeys(cs))
    decreases |ms|
  {
    if ms != [] {
      EnrolmentTrainingsAppend(EnrolmentsOf(ms[0], cs), MergeOnCourse(ms[1..], cs));
      EnrolmentsOfTrainings(ms[0], cs);
      MergeOnCourseTrainings(ms[1..], cs);
    }
  }

  /** How often a row occurs after filtering on course_id follows from how often it occurred before. */
  lemma {:induction false} WithCourseCount(ts: seq<Training>, keys: set<int>, t: Training)
    ensures multiset(WithCourse(ts, keys))[t] == if t.course_id in keys then multiset(ts)[t] else 0
    decreases |ts|
  {
    if ts != [] {
      assert ts == [ts[0]] + ts[1..];
      WithCourseCount(ts[1..], keys, t);
    }
  }

  lemma {:induction false} WithCourseSameMultiset(a: seq<Training>, b: seq<Training>, keys: set<int>)
    requires multiset(a) == multiset(b)
    ensures multiset(WithCourse(a, keys)) == multiset(WithCourse(b, keys))
  {
    forall t ensures multiset(WithCourse(a, keys))[t] == multiset(WithCourse(b, keys))[t] {
      WithCourseCount(a, keys, t);
      WithCourseCount(b, keys, t);
    }
  }

  /**
   * With unique employee ids and unique course ids, final_df holds exactly the
   * training rows whose employee_id and course_id both resolve, each once,
   * so it never has more rows than training.
   */
  lemma JoinAllUniqueKeys(es: seq<Employee>, ts: seq<Training>, cs: seq<Course>)
    requires UniqueEmployeeIds(es) && UniqueCourseIds(cs)
    ensures multiset(EnrolmentTrainings(JoinAll(es, ts, cs))) == multiset(Matched(ts, es, cs))
    ensures |JoinAll(es, ts, cs)| == |Matched(ts, es, cs)| <= |ts|
  {
    var ms := MergeOnEmployee(es, ts);
    MergeOnCourseTrainings(ms, cs);
    MergeOnEmployeeTrainings(es, ts);
    WithCourseSameMultiset(AttendanceTrainings(ms), WithEmployee(ts, EmployeeKeys(es)), CourseKeys(cs));
    var js := JoinAll(es, ts, cs);
    EnrolmentTrainingsAppend(js, []);
    assert js + [] == js;
    assert |multiset(EnrolmentTrainings(js))| == |js|;
    MatchedMembers(ts, es, cs);
  }

  /** Matched keeps a subsequence of training: the rows with both keys resolving. */
  lemma MatchedMembers(ts: seq<Training>, es: seq<Employee>, cs: seq<Course>)
    ensures |Matched(ts, es, cs)| <= |ts|
    ensures forall t :: t in Matched(ts, es, cs) <==>
      t in ts && t.employee_id in EmployeeKeys(es) && t.course_id in CourseKeys(cs)
  {
    WithEmployeeMembers(ts, EmployeeKeys(es));
    WithCourseMembers(WithEmployee(ts, EmployeeKeys(es)), CourseKeys(cs));
  }

  lemma {:induction false} WithEmployeeMembers(ts: seq<Training>, keys: set<int>)
    ensures |WithEmployee(ts, keys)| <= |ts|
    ensures forall t :: t in WithEmployee(ts, keys) <==> t in ts && t.employee_id in keys
    decreases |ts|
  {
    if ts != [] {
      WithEmployeeMembers(ts[1..], keys);
      assert ts == [ts[0]] + ts[1..];
    }
  }

  lemma {:induction false} WithCourseMembers(ts: seq<Training>, keys: set<int>)
    ensures |WithCourse(ts, keys)| <= |ts|
    ensures forall t :: t in WithCourse(ts, keys) <==> t in ts && t.course_id in keys
    decreases |ts|
  {
    if ts != [] {
      WithCourseMembers(ts[1..], keys);
      assert ts == [ts[0]] + ts[1..];
    }
  }
}
