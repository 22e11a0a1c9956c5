/**
 * The group-by of transform_data: the joined rows grouped by department and,
 * per department, the number of distinct employee ids, the number of rows and
 * the mean score. One output row per department present, departments in
 * ascending order.
 */
module Aggregation {
  import opened Records
  import opened LexOrder
  import opened StatsTable

  /** Some joined row belongs to department d. */
  predicate HasDepartment(rows: seq<Enrolment>, d: string)
  {
    exists r :: r in rows && r.department == d
  }

  /** The group keys: every department present, once, in ascending order. */
  function Departments(rows: seq<Enrolment>): (ks: seq<string>)
    ensures Ascending(ks)
    ensures forall d :: d in ks <==> HasDepartment(rows, d)
    decreases |rows|
  {
    if rows == [] then []
    else
      var ks := InsertKey(Departments(rows[1..]), rows[0].department);
      assert forall d :: HasDepartment(rows, d) <==> d == rows[0].department || HasDepartment(rows[1..], d) by {
        assert rows == [rows[0]] + rows[1..];
      }
      ks
  }

  /** The rows of department d, in their original order. */
  function Group(rows: seq<Enrolment>, d: string): (g: seq<Enrolment>)
    decreases |rows|
  {
    if rows == [] then []
    else (if rows[0].department == d then [rows[0]] else []) + Group(rows[1..], d)
  }

  lemma {:induction false} GroupMembers(rows: seq<Enrolment>, d: string)
    ensures forall r :: r in Group(rows, d) <==> r in rows && r.department == d
    decreases |rows|
  {
    if rows != [] {
      GroupMembers(rows[1..], d);
      assert rows == [rows[0]] + rows[1..];
    }
  }

  /** The distinct employee_id values of some rows. */
  function EmployeeIds(rows: seq<Enrolment>): set<int>
  {
    set r | r in rows :: r.employee_id
  }

  /** A non-empty group has between one and |rows| distinct employees. */
  lemma {:induction false} EmployeeIdsBounds(rows: seq<Enrolment>)
    ensures |EmployeeIds(rows)| <= |rows|
    ensures rows != [] ==> 1 <= |EmployeeIds(rows)|
    decreases |rows|
  {
    if rows != [] {
      EmployeeIdsBounds(rows[1..]);
      assert rows == [rows[0]] + rows[1..];
      assert EmployeeIds(rows) == {rows[0].employee_id} + EmployeeIds(rows[1..]);
    }
  }

  function ScoreSum(rows: seq<Enrolment>): int
    decreases |rows|
  {
    if rows == [] then 0 else rows[0].score + ScoreSum(rows[1..])
  }

  /** The mean score, exact. */
  function Mean(g: seq<Enrolment>): real
    requires g != []
  {
    (ScoreSum(g) as real) / (|g| as real)
  }

  /** One output row of the group-by. */
  function StatsOf(rows: seq<Enrolment>, d: string): (s: DeptStats)
    requires d in Departments(rows)
    ensures s.department == d
    ensures 1 <= s.total_employees <= s.total_courses
  {
    var g := Group(rows, d);
    var r :| r in rows && r.department == d;
    GroupMembers(rows, d);
    EmployeeIdsBounds(g);
    DeptStats(d, |EmployeeIds(g)|, |g|, Mean(g))
  }

  function StatsFor(rows: seq<Enrolment>, ks: seq<string>): (r: seq<DeptStats>)
    requires forall k :: k in ks ==> k in Departments(rows)
    ensures |r| == |ks|
    ensures forall i :: 0 <= i < |ks| ==> r[i] == StatsOf(rows, ks[i])
    decreases |ks|
  {
    if ks == [] then [] else [StatsOf(rows, ks[0])] + StatsFor(rows, ks[1..])
  }

  /** dept_stats */
  function Aggregate(rows: seq<Enrolment>): (r: seq<DeptStats>)
    ensures r == [] <==> rows == []
    ensures |r| == |Departments(rows)|
    ensures forall d :: (exists i :: 0 <= i < |r| && r[i].department == d) <==> HasDepartment(rows, d)
    ensures forall i, j :: 0 <= i < j < |r| ==> Below(r[i].department, r[j].department)
    ensures forall i :: 0 <= i < |r| ==> r[i] == StatsOf(rows, r[i].department)
  {
    var ks := Departments(rows);
    var r := StatsFor(rows, ks);
    assert rows != [] ==> HasDepartment(rows, rows[0].department);
    assert forall d :: (exists i :: 0 <= i < |r| && r[i].department == d) <==> d in ks by {
      forall d ensures (exists i :: 0 <= i < |r| && r[i].department == d) <==> d in ks {
        if d in ks {
          var i :| 0 <= i < |ks| && ks[i] == d;
          assert r[i].department == d;
        }
      }
    }
    r
  }

  // ----- the group sizes add up to the joined row count -----

  /** The number of rows that the departments ks cover, one group at a time. */
  function GroupSizes(rows: seq<Enrolment>, ks: seq<string>): nat
    decreases |ks|
  {
    if ks == [] then 0 else |Group(rows, ks[0])| + GroupSizes(rows, ks[1..])
  }

  lemma {:induction false} StatsForCourses(rows: seq<Enrolment>, ks: seq<string>)
    requires forall k :: k in ks ==> k in Departments(rows)
    ensures ColumnTotal(StatsFor(rows, ks), TotalCourses) == GroupSizes(rows, ks)
    decreases |ks|
  {
    if ks != [] {
      var r := StatsFor(rows, ks);
      assert r[1..] == StatsFor(rows, ks[1..]);
      StatsForCourses(rows, ks[1..]);
    }
  }

  lemma {:induction false} GroupSizesUnfold(rows: seq<Enrolment>, ks: seq<string>)
    requires rows != []
    ensures GroupSizes(rows, ks) == multiset(ks)[rows[0].department] + GroupSizes(rows[1..], ks)
    decreases |ks|
  {
    if ks != [] {
      assert ks == [ks[0]] + ks[1..];
      GroupSizesUnfold(rows, ks[1..]);
    }
  }

  lemma {:induction false} AscendingOccursOnce(ks: seq<string>, d: string)
    requires Ascending(ks) && d in ks
    ensures multiset(ks)[d] == 1
    decreases |ks|
  {
    assert ks == [ks[0]] + ks[1..];
    if ks[0] == d {
      assert d !in ks[1..] by {
        if d in ks[1..] {
          var j :| 0 <= j < |ks[1..]| && ks[1..][j] == d;
          AscendingDistinct(ks, 0, j + 1);
        }
      }
    } else {
      AscendingOccursOnce(ks[1..], d);
    }
  }

  /** Departments listed once each and covering every row account for every row once. */
  lemma {:induction false} GroupSizesCover(rows: seq<Enrolment>, ks: seq<string>)
    requires Ascending(ks)
    requires forall r :: r in rows ==> r.department in ks
    ensures GroupSizes(rows, ks) == |rows|
    decreases |rows|
  {
    if rows == [] {
      GroupSizesEmpty(ks);
    } else {
      GroupSizesUnfold(rows, ks);
      AscendingOccursOnce(ks, rows[0].department);
      GroupSizesCover(rows[1..], ks);
    }
  }

  lemma {:induction false} GroupSizesEmpty(ks: seq<string>)
    ensures GroupSizes([], ks) == 0
    decreases |ks|
  {
    if ks != [] { GroupSizesEmpty(ks[1..]); }
  }

  /** total_courses summed over all departments is the number of joined rows. */
  lemma AggregateCoursesTotal(rows: seq<Enrolment>)
    ensures ColumnTotal(Aggregate(rows), TotalCourses) == |rows|
  {
    var ks := Departments(rows);
    StatsForCourses(rows, ks);
    GroupSizesCover(rows, ks);
  }

  // ----- the distinct-employee counts add up when employees have one department -----

  /** No employee_id occurs under two departments. */
  predicate OneDepartmentPerEmployee(rows: seq<Enrolment>)
  {
    forall r1, r2 :: r1 in rows && r2 in rows && r1.employee_id == r2.employee_id
      ==> r1.department == r2.department
  }

  /** The distinct employees of the departments ks. */
  function EmployeeIdsIn(rows: seq<Enrolment>, ks: seq<string>): set<int>
  {
    set r | r in rows && r.department in ks :: r.employee_id
  }

  function GroupEmployees(rows: seq<Enrolment>, ks: seq<string>): nat
    decreases |ks|
  {
    if ks == [] then 0 else |EmployeeIds(Group(rows, ks[0]))| + GroupEmployees(rows, ks[1..])
  }

  lemma {:induction false} StatsForEmployees(rows: seq<Enrolment>, ks: seq<string>)
    requires forall k :: k in ks ==> k in Departments(rows)
    ensures ColumnTotal(StatsFor(rows, ks), TotalEmployees) == GroupEmployees(rows, ks)
    decreases |ks|
  {
    if ks != [] {
      var r := StatsFor(rows, ks);
      assert r[1..] == StatsFor(rows, ks[1..]);
      StatsForEmployees(rows, ks[1..]);
    }
  }

  lemma {:induction false} GroupEmployeesDisjoint(rows: seq<Enrolment>, ks: seq<string>)
    requires Ascending(ks) && OneDepartmentPerEmployee(rows)
    ensures GroupEmployees(rows, ks) == |EmployeeIdsIn(rows, ks)|
    decreases |ks|
  {
    if ks == [] {
      assert EmployeeIdsIn(rows, ks) == {};
    } else {
      var k := ks[0];
      var here := EmployeeIds(Group(rows, k));
      var rest := EmployeeIdsIn(rows, ks[1..]);
      assert Ascending(ks[1..]);
      GroupEmployeesDisjoint(rows, ks[1..]);
      assert ks == [k] + ks[1..];
      GroupMembers(rows, k);
      assert EmployeeIdsIn(rows, ks) == here + rest;
      assert k !in ks[1..] by {
        if k in ks[1..] {
          var j :| 0 <= j < |ks[1..]| && ks[1..][j] == k;
          AscendingDistinct(ks, 0, j + 1);
        }
      }
      forall id | id in rest ensures id !in here {
        var r2 :| r2 in rows && r2.department in ks[1..] && r2.employee_id == id;
        assert r2.department != k;
      }
      assert here * rest == {};
    }
  }

  /**
   * When each employee has one department, total_employees summed over all
   * departments is the number of distinct employees among the joined rows.
   */
  lemma AggregateEmployeesTotal(rows: seq<Enrolment>)
    requires OneDepartmentPerEmployee(rows)
    ensures ColumnTotal(Aggregate(rows), TotalEmployees) == |EmployeeIds(rows)|
  {
    var ks := Departments(rows);
    StatsForEmployees(rows, ks);
    GroupEmployeesDisjoint(rows, ks);
    assert EmployeeIdsIn(rows, ks) == EmployeeIds(rows);
  }

  // ----- the mean lies between the lowest and the highest score -----

  function MinScore(g: seq<Enrolment>): (m: int)
    requires g != []
    ensures exists r :: r in g && r.score == m
    ensures forall r :: r in g ==> m <= r.score
    decreases |g|
  {
    if |g| == 1 then g[0].score
    else
      var m := MinScore(g[1..]);
      assert g == [g[0]] + g[1..];
      if g[0].score <= m then g[0].score else m
  }

  function MaxScore(g: seq<Enrolment>): (m: int)
    requires g != []
    ensures exists r :: r in g && r.score == m
    ensures forall r :: r in g ==> r.score <= m
    decreases |g|
  {
    if |g| == 1 then g[0].score
    else
      var m := MaxScore(g[1..]);
      assert g == [g[0]] + g[1..];
      if g[0].score >= m then g[0].score else m
  }

  /** (n + 1) * x == x + n * x, stated apart so the solver sees it in isolation. */
  lemma MulSucc(n: int, x: int)
    ensures (n + 1) * x == x + n * x
  {
  }

  /** Every score between lo and hi puts the sum between |g| * lo and |g| * hi. */
  lemma {:induction false} ScoreSumBounds(g: seq<Enrolment>, lo: int, hi: int)
    requires forall r :: r in g ==> lo <= r.score <= hi
    ensures |g| * lo <= ScoreSum(g) <= |g| * hi
    decreases |g|
  {
    if g != [] {
      var rest := g[1..];
      assert g[0] in g;
      assert forall r :: r in rest ==> r in g;
      ScoreSumBounds(rest, lo, hi);
      MulSucc(|rest|, lo);
      MulSucc(|rest|, hi);
    }
  }

  /** A quotient by a positive n is at least lo when the dividend is at least n * lo. */
  lemma QuotientAtLeast(s: real, n: real, lo: real)
    requires n > 0.0 && n * lo <= s
    ensures lo <= s / n
  {
  }

  /** A quotient by a positive n is at most hi when the dividend is at most n * hi. */
  lemma QuotientAtMost(s: real, n: real, hi: real)
    requires n > 0.0 && s <= n * hi
    ensures s / n <= hi
  {
  }

  /** The mean of scores that all lie in [lo, hi] lies in [lo, hi]. */
  lemma MeanWithin(g: seq<Enrolment>, lo: int, hi: int)
    requires g != []
    requires forall r :: r in g ==> lo <= r.score <= hi
    ensures lo as real <= Mean(g) <= hi as real
  {
    ScoreSumBounds(g, lo, hi);
    var n := |g| as real;
    var s := ScoreSum(g) as real;
    assert n * (lo as real) <= s <= n * (hi as real);
    QuotientAtLeast(s, n, lo as real);
    QuotientAtMost(s, n, hi as real);
  }

  /** avg_score of a department lies between its lowest and its highest score. */
  lemma AvgBetweenMinAndMax(rows: seq<Enrolment>, d: string)
    requires d in Departments(rows)
    ensures Group(rows, d) != []
    ensures MinScore(Group(rows, d)) as real <= StatsOf(rows, d).avg_score
    ensures StatsOf(rows, d).avg_score <= MaxScore(Group(rows, d)) as real
  {
    var g := Group(rows, d);
    var r :| r in rows && r.department == d;
    GroupMembers(rows, d);
    MeanWithin(g, MinScore(g), MaxScore(g));
  }
}
