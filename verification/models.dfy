/** The three records the exam manager passes around: a course, a student and one
    enrollment of a student in a course. */
module Models {

  datatype Course = Course(courseId: string, courseName: string, department: string)

  /** `batch` and `program` are set by one constructor shape, `semester` by the other. */
  datatype Student = Student(rollNo: string, name: string, semester: int, batch: string, program: string)

  /** There is no default enrollment: both fields are always given. */
  datatype Enrollment = Enrollment(rollNo: string, courseId: string)

  /** `Course()`: all three fields empty. */
  function DefaultCourse(): (c: Course)
    ensures c.courseId == "" && c.courseName == "" && c.department == ""
  {
    Course("", "", "")
  }

  /** `Course(id, name, dept)`: the three strings kept as given. */
  function NewCourse(id: string, name: string, dept: string): (c: Course)
    ensures c.courseId == id && c.courseName == name && c.department == dept
  {
    Course(id, name, dept)
  }

  /** `Student()`: empty strings and semester 0. */
  function DefaultStudent(): (s: Student)
    ensures s.rollNo == "" && s.name == "" && s.semester == 0
    ensures s.batch == "" && s.program == ""
  {
    Student("", "", 0, "", "")
  }

  /** `Student(roll, n, sem)`: batch and program stay empty. */
  function StudentWithSemester(roll: string, n: string, sem: int): (s: Student)
    ensures s.rollNo == roll && s.name == n && s.semester == sem
    ensures s.batch == "" && s.program == ""
  {
    Student(roll, n, sem, "", "")
  }

  /** `Student(roll, n, b, p)`: the semester is 0. */
  function StudentWithBatch(roll: string, n: string, b: string, p: string): (s: Student)
    ensures s.rollNo == roll && s.name == n && s.semester == 0
    ensures s.batch == b && s.program == p
  {
    Student(roll, n, 0, b, p)
  }

  /** `Enrollment(roll, course)`: the pair kept as given. */
  function NewEnrollment(roll: string, course: string): (e: Enrollment)
    ensures e.rollNo == roll && e.courseId == course
  {
    Enrollment(roll, course)
  }

  /** The two student shapes meet only in the default: a semester-shaped student with
      semester 0 and a batch-shaped student with empty batch and program are the same
      record, and otherwise they always differ. */
  lemma StudentShapesAgree(roll: string, n: string, sem: int, b: string, p: string)
    ensures StudentWithSemester(roll, n, sem) == StudentWithBatch(roll, n, b, p)
      <==> sem == 0 && b == "" && p == ""
    ensures StudentWithSemester("", "", 0) == DefaultStudent()
    ensures StudentWithBatch("", "", "", "") == DefaultStudent()
  {
  }
}
