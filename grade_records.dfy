/**
 * Rows of the gradebook tables: classes, students, per-term grades and
 * per-term pedagogical tracking, with the record-level operations of
 * GradeStudent and StudentPedagogicalTracking.
 */
module GradeRecords {
  import opened Wrappers
  import opened WeeklyReview

  /** A row of grade_classes; `owner` is the teacher's user id (`user_id`). */
  datatype GradeClass = GradeClass(
    owner: UserId,
    name: string,
    subject: Option<string>,
    gradeLevel: Option<string>,
    academicYear: string)

  /** A row of grade_students. */
  datatype Student = Student(
    classId: ClassId,
    studentNumber: Option<string>,
    lastName: string,
    firstName: string,
    dateOfBirth: Option<int>,
    specialCase: Option<string>,
    sortOrder: int)

  /**
   * A row of student_grades, in hundredths of a point: behaviour, applications
   * and notebook out of 5, assignment and exam out of 20.
   */
  datatype Grades = Grades(behavior: int, applications: int, notebook: int, assignment: int, exam: int)

  /** A row of student_pedagogical_tracking. */
  datatype Tracking = Tracking(
    oralInterrogation: bool,
    notebookChecked: bool,
    lastInterrogationAt: Option<Instant>,
    lastNotebookCheckAt: Option<Instant>)

  /** Per-term rows are keyed by (student, term), by the tables' unique indexes. */
  type TermKey = (StudentId, int)

  /** The values `getOrCreateTermGrades` and the column defaults give a new grades row. */
  function DefaultGrades(): (g: Grades)
    ensures g.behavior == 500 && g.applications == 500 && g.notebook == 500
    ensures g.assignment == 0 && g.exam == 0
  {
    Grades(500, 500, 500, 0, 0)
  }

  /** The values `getOrCreateTermTracking` gives a new tracking row. */
  function DefaultTracking(): (t: Tracking)
    ensures !t.oralInterrogation && !t.notebookChecked
    ensures t.lastInterrogationAt.None? && t.lastNotebookCheckAt.None?
  {
    Tracking(false, false, None, None)
  }

  /** `markInterrogated`: the interrogation flag is set and stamped `now`. */
  function MarkInterrogated(t: Tracking, now: Instant): (t': Tracking)
    ensures t'.oralInterrogation && t'.lastInterrogationAt == Some(now)
    ensures t'.notebookChecked == t.notebookChecked && t'.lastNotebookCheckAt == t.lastNotebookCheckAt
  {
    t.(oralInterrogation := true, lastInterrogationAt := Some(now))
  }

  /** `markNotebookChecked`: the notebook flag is set and stamped `now`. */
  function MarkNotebookChecked(t: Tracking, now: Instant): (t': Tracking)
    ensures t'.notebookChecked && t'.lastNotebookCheckAt == Some(now)
    ensures t'.oralInterrogation == t.oralInterrogation && t'.lastInterrogationAt == t.lastInterrogationAt
  {
    t.(notebookChecked := true, lastNotebookCheckAt := Some(now))
  }

  /** `toggleInterrogation`: the flag flips; the stamp moves to `now` only when the flag becomes true. */
  function ToggleInterrogation(t: Tracking, now: Instant): (t': Tracking)
    ensures t'.oralInterrogation == !t.oralInterrogation
    ensures t'.lastInterrogationAt == if t'.oralInterrogation then Some(now) else t.lastInterrogationAt
    ensures t'.notebookChecked == t.notebookChecked && t'.lastNotebookCheckAt == t.lastNotebookCheckAt
  {
    var newStatus := !t.oralInterrogation;
    t.(oralInterrogation := newStatus,
       lastInterrogationAt := if newStatus then Some(now) else t.lastInterrogationAt)
  }

  /** `toggleNotebookChecked`: the flag flips; the stamp moves to `now` only when the flag becomes true. */
  function ToggleNotebookChecked(t: Tracking, now: Instant): (t': Tracking)
    ensures t'.notebookChecked == !t.notebookChecked
    ensures t'.lastNotebookCheckAt == if t'.notebookChecked then Some(now) else t.lastNotebookCheckAt
    ensures t'.oralInterrogation == t.oralInterrogation && t'.lastInterrogationAt == t.lastInterrogationAt
  {
    var newStatus := !t.notebookChecked;
    t.(notebookChecked := newStatus,
       lastNotebookCheckAt := if newStatus then Some(now) else t.lastNotebookCheckAt)
  }

  /** Toggling twice restores both flags; a stamp survives only if the first toggle cleared the flag. */
  lemma ToggleTwice(t: Tracking, now1: Instant, now2: Instant)
    ensures ToggleInterrogation(ToggleInterrogation(t, now1), now2).oralInterrogation == t.oralInterrogation
    ensures ToggleNotebookChecked(ToggleNotebookChecked(t, now1), now2).notebookChecked == t.notebookChecked
    ensures t.oralInterrogation ==>
              ToggleInterrogation(ToggleInterrogation(t, now1), now2) == t.(lastInterrogationAt := Some(now2))
    ensures !t.oralInterrogation ==>
              ToggleInterrogation(ToggleInterrogation(t, now1), now2) == t.(lastInterrogationAt := Some(now1))
  {
  }

  /** Marking is toggling when the flag is off, and leaves the flag on otherwise. */
  lemma MarkIsToggleWhenOff(t: Tracking, now: Instant)
    ensures !t.oralInterrogation ==> MarkInterrogated(t, now) == ToggleInterrogation(t, now)
    ensures !t.notebookChecked ==> MarkNotebookChecked(t, now) == ToggleNotebookChecked(t, now)
    ensures MarkInterrogated(MarkInterrogated(t, now), now) == MarkInterrogated(t, now)
  {
  }
}
