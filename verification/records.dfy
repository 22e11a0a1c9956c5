/** The records that flow through the retention pipeline, column for column. */
module Records {

  datatype Option<T> = None | Some(value: T)

  datatype Result<T, E> = Ok(value: T) | Err(error: E)

  /** One row of employees.csv. */
  datatype Employee = Employee(employee_id: int, department: string)

  /** One row of training.xlsx. */
  datatype Training = Training(employee_id: int, course_id: int, score: int)

  /** One object of courses.json. */
  datatype Course = Course(course_id: int, course_name: string)

  /** A row of the first merge (employees with training on employee_id). */
  datatype Attendance = Attendance(employee_id: int, department: string, course_id: int, score: int)

  /** A row of the second merge (the first merge with courses on course_id). */
  datatype Enrolment = Enrolment(employee_id: int, department: string, course_id: int, score: int, course_name: string)

  /**
   * One row of dept_stats, and also the four columns the report selects back
   * from the retention_analysis table. avg_score is the exact mean.
   */
  datatype DeptStats = DeptStats(department: string, total_employees: int, total_courses: int, avg_score: real)
}
