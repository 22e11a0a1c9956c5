# Retention analysis pipeline: a Dafny model

This project models the core of `dags/mobile_apps_retention_dag.py`, an Airflow
DAG that consolidates three record lists into per-department statistics:

* employees `(employee_id, department)`,
* training results `(employee_id, course_id, score)`,
* courses `(course_id, course_name)`.

The model covers four steps of one run:

* `transform_data`: the two inner merges and the group-by on `department`.
  Each department gets `total_employees` (distinct ids), `total_courses` (rows)
  and `avg_score` (mean score).
* `load_to_database`: the `retention_analysis` SQLite table. It is a class with
  a `seq` of rows and the AUTOINCREMENT counter. A load runs CREATE TABLE IF NOT
  EXISTS, then DELETE, then appends the new rows.
* `generate_report`: the figures in the report. These are the category count,
  the two column totals, and the best and worst department of the `ORDER BY
  avg_score DESC` query.
* the attachment list of `send_email_with_attachments`.

The modules follow the program:

* `Records`: the record types.
* `Join`: the two merges.
* `LexOrder`: Python string order, used for the group keys.
* `Aggregation`: the group-by.
* `Transform`: `transform_data`.
* `StatsTable`: column sums and the descending sort.
* `Store`: the table and its load.
* `Report`: `generate_report`.
* `Attachments`: the attachment list.
* `Pipeline`: the tasks in DAG order.

How the model follows pandas and SQLite:

* An inner merge emits one row per matching pair and does not check keys for
  uniqueness. `Join.JoinAll` does the same. With unique employee and course
  ids, the joined rows are exactly the training rows whose two keys resolve.
  `Join.JoinAll` lists the rows in the left table's row order, as pandas 2.2
  and later do; no statistic depends on that order.
* `groupby` sorts its keys, so the statistics come in ascending department
  order. Python compares strings by code point.
* Scores are integers, so `avg_score` is kept exactly as a `real` quotient,
  sum / count.

Two behaviours of the code at the edges:

* **Empty input.** An empty record list becomes `pd.DataFrame([])`, which has
  no columns, so the merge on `employee_id` (or on `course_id` when the course
  list is empty) raises KeyError. `Transform.TransformData` returns
  `Err(MissingColumn(..))` exactly then. When all three lists are non-empty
  but nothing matches, the aggregate is empty; the load then rejects it, and
  the table keeps its previous content.
* **Duplicate keys.** The merges do not check keys for uniqueness and pair
  every match; see `Transform.ExampleDuplicateEmployeeId`, where one training
  row gives two joined rows.

## Model

| member | source | states |
|---|---|---|
| Join.MergeOnEmployeeMembers | dags/mobile_apps_retention_dag.py:152 | a row of the first merge is exactly an employee and a training row with equal employee_id, combined |
| Join.MergeOnCourseMembers | dags/mobile_apps_retention_dag.py:156 | a row of the second merge is exactly a first-merge row and a course with equal course_id, combined |
| Join.JoinAllMembers | dags/mobile_apps_retention_dag.py:152-157 | a joined row is exactly the combination of an employee, a training row and a course whose keys agree; unmatched training rows are dropped |
| Join.MatchedMembers | dags/mobile_apps_retention_dag.py:152-157 | the training rows whose employee_id and course_id both resolve are exactly the matched rows, and there are at most as many as training rows |
| Join.JoinAllUniqueKeys | dags/mobile_apps_retention_dag.py:152-157 | with unique employee and course ids, the joined rows correspond one-to-one (as a multiset) to the matched training rows, so their count is at most the training row count |
| LexOrder.BelowTransitive | dags/mobile_apps_retention_dag.py:160 | Python string order is transitive |
| LexOrder.BelowTotal | dags/mobile_apps_retention_dag.py:160 | any two different strings are ordered one way or the other |
| LexOrder.InsertKey | dags/mobile_apps_retention_dag.py:160 | inserting a key into a strictly ascending key list keeps it strictly ascending and adds exactly that key |
| Aggregation.Departments | dags/mobile_apps_retention_dag.py:160 | the group keys are strictly ascending and are exactly the departments that occur in the joined rows |
| Aggregation.GroupMembers | dags/mobile_apps_retention_dag.py:160 | a department's group holds exactly the joined rows of that department |
| Aggregation.EmployeeIdsBounds | dags/mobile_apps_retention_dag.py:161 | a non-empty group has at least one and at most as many distinct employee ids as rows |
| Aggregation.StatsOf | dags/mobile_apps_retention_dag.py:160-163 | a department's row carries its own name and has 1 <= total_employees <= total_courses |
| Aggregation.Aggregate | dags/mobile_apps_retention_dag.py:160-164 | one row per department present in the joined rows and none other, in ascending department order, each equal to that department's statistics; empty exactly when the joined rows are empty |
| Aggregation.AggregateCoursesTotal | dags/mobile_apps_retention_dag.py:162 | total_courses summed over the departments equals the number of joined rows |
| Aggregation.AggregateEmployeesTotal | dags/mobile_apps_retention_dag.py:161 | when no employee_id appears under two departments, total_employees summed over the departments equals the number of distinct joined employees |
| Aggregation.MinScore | dags/mobile_apps_retention_dag.py:163 | the result is a score of the group and no score of the group is lower |
| Aggregation.MaxScore | dags/mobile_apps_retention_dag.py:163 | the result is a score of the group and no score of the group is higher |
| Aggregation.ScoreSumBounds | dags/mobile_apps_retention_dag.py:163 | scores within [lo, hi] give a sum within [n * lo, n * hi] |
| Aggregation.MeanWithin | dags/mobile_apps_retention_dag.py:163 | the mean of scores within [lo, hi] lies within [lo, hi] |
| Aggregation.AvgBetweenMinAndMax | dags/mobile_apps_retention_dag.py:163 | a department's avg_score lies between its lowest and its highest score |
| Transform.TransformData | dags/mobile_apps_retention_dag.py:141-164 | fails exactly when one of the three inputs is empty; otherwise the statistics are empty exactly when no training row joins |
| Transform.JoinedOneDepartment | dags/mobile_apps_retention_dag.py:152-157 | with unique employee ids, every joined employee_id carries a single department |
| Transform.DepartmentEmployeesBound | dags/mobile_apps_retention_dag.py:152-161 | a department's total_employees is at most the number of employees the input lists under that department, with or without unique keys |
| Transform.JoinedEmployeesKnown | dags/mobile_apps_retention_dag.py:152-157 | every joined employee_id is the id of an input employee |
| Transform.TransformTotals | dags/mobile_apps_retention_dag.py:152-163 | with unique keys, total_courses adds up to the matched training rows (at most the training row count), and total_employees adds up to the distinct joined employees |
| Transform.AvgWithinScoreRange | dags/mobile_apps_retention_dag.py:160-163 | training scores within [lo, hi] put every department's avg_score within [lo, hi] |
| Transform.ExampleTwoDepartments | dags/mobile_apps_retention_dag.py:150-164 | a worked run: two departments, HR (1 employee, 1 course, 60) sorted before IT (2 employees, 3 courses, 80) |
| Transform.ExampleUnknownCourse | dags/mobile_apps_retention_dag.py:156 | a training row naming no course is dropped without an error |
| Transform.ExampleDuplicateEmployeeId | dags/mobile_apps_retention_dag.py:152 | two employees sharing an id both pair with the training row; there is no duplicate-key error |
| StatsTable.ColumnTotalPermutation | dags/mobile_apps_retention_dag.py:302-303 | a column sum does not depend on the row order |
| StatsTable.InsertByAvg | dags/mobile_apps_retention_dag.py:277 | inserting into a list ordered by avg_score descending keeps it ordered and adds exactly that row |
| StatsTable.SortByAvgDesc | dags/mobile_apps_retention_dag.py:277 | the result is ordered by avg_score descending and is a permutation of the input |
| StatsTable.SortTiesReversed | dags/mobile_apps_retention_dag.py:277 | the model's sort lists two rows with equal avg_score in reverse table order, one of the orders SQL allows |
| Store.RetentionTable.constructor | dags/mobile_apps_retention_dag.py:207 | a database in which the table does not exist yet |
| Store.RetentionTable.CreateIfAbsent | dags/mobile_apps_retention_dag.py:211-221 | the table exists afterwards; an existing table keeps its rows and its id counter |
| Store.RetentionTable.DeleteAll | dags/mobile_apps_retention_dag.py:224 | no rows remain; the AUTOINCREMENT counter is not reset |
| Store.RetentionTable.Append | dags/mobile_apps_retention_dag.py:227 | the old rows stay, the new ones follow in order, each with the next id; ids stay increasing |
| Store.RetentionTable.Load | dags/mobile_apps_retention_dag.py:200-230 | missing or empty statistics are rejected and leave the table untouched; otherwise the table holds exactly the new statistics, none of the previous rows survives, and every id is new |
| Store.LoadTwice | dags/mobile_apps_retention_dag.py:224-227 | loading the same statistics twice leaves exactly those statistics, as loading once does |
| Store.RetentionTable.SelectByAvgDesc | dags/mobile_apps_retention_dag.py:270-280 | fails exactly when the table does not exist; otherwise returns the table's rows, ordered by avg_score descending |
| Report.FiguresOfOrdered | dags/mobile_apps_retention_dag.py:287-316 | over rows sorted by avg_score: an error exactly when there are none; otherwise the count and totals are the table's, best and worst are rows of the table, and every avg_score lies between worst's and best's |
| Report.GenerateReport | dags/mobile_apps_retention_dag.py:267-316 | a missing table and an empty table are the two errors; otherwise the figures summarise the table's content |
| Attachments.AttachmentList | dags/mobile_apps_retention_dag.py:482-492 | the report file is attached exactly when it exists, likewise the CSV file, nothing else, and the report file before the CSV file |
| Attachments.AttachmentListFilters | dags/mobile_apps_retention_dag.py:482-492 | the attachment list is the two output files filtered by existence, in that order |
| Pipeline.RunFigures | dags/mobile_apps_retention_dag.py:287-303 | figures that summarise the loaded statistics count one category per department, and total_courses equals the joined row count (with unique keys, the matched training rows, at most the training row count) |
| Pipeline.Run | dags/mobile_apps_retention_dag.py:535-538 | an empty input fails the transform; an empty join fails the load; both leave the table, its rows and its id counter as they were. Otherwise the table holds the aggregate, the report summarises it with one category per department and total_courses equal to the joined row count, and both files are attached |

## Left out

- Reading the CSV, Excel and JSON sources (`extract_*`): the three record lists are parameters.
- XCom push and pull: values are passed as parameters and results.
- Airflow wiring (default arguments, the DAG object, the operators): `Pipeline.Run` runs the four tasks in dependency order, and a failed task stops the ones after it.
- All `print` logging, and the task return strings.
- `analysis_date` and `datetime.now()`: wall-clock time is not modelled.
- Aggregation.StatsOf: avg_score is the exact quotient; `round(2)` and float arithmetic are not modelled.
- Store.RetentionTable.SelectByAvgDesc: tie order is left open, as in SQL. The sort uses the exact avg_score, where the table holds the rounded one.
- Join.JoinAll: rows come in left-row order, which is what pandas 2.2 and later produce; earlier pandas versions group the inner merge's rows by key instead. No result of the model depends on that order: the group-by sorts by department, and counts, distinct counts and means ignore order.
- SQLite connections, commits and transactions: each call is one atomic step on the table's state, and no rollback is claimed.
- The report text and HTML layout, writing the report and CSV files, and `send_email` with its fallback message. The existing files are a set of paths, and `Pipeline.Run` adds the two output files to it.
- `dags/generate_data.py` (random test data) and `check_results.py` (a manual inspection script) are not part of this model.
