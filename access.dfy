/**
 * The ownership checks every gradebook controller action begins with:
 * route-model binding answers 404 for a missing row, and the action
 * answers 403 unless the caller owns the class concerned.
 */
module Access {
  import opened WeeklyReview
  import opened GradebookDb
  import opened Http

  /** The class exists and is the caller's (`$gradeClass->user_id !== Auth::id()`). */
  function ClassAccess(db: Gradebook, user: UserId, c: ClassId): (s: Status)
    reads db
    ensures s == NotFound <==> c !in db.classes
    ensures s == Forbidden <==> c in db.classes && db.classes[c].owner != user
    ensures s == Success <==> db.Owns(user, c)
  {
    if c !in db.classes then NotFound
    else if db.classes[c].owner != user then Forbidden
    else Success
  }

  /** The student exists and the caller owns its class (`$gradeStudent->gradeClass`). */
  function StudentAccess(db: Gradebook, user: UserId, s: StudentId): (st: Status)
    reads db
    requires db.Valid()
    ensures st == NotFound <==> s !in db.students
    ensures st == Forbidden <==> s in db.students && !db.Owns(user, db.students[s].classId)
    ensures st == Success <==> s in db.students && db.Owns(user, db.students[s].classId)
  {
    if s !in db.students then NotFound
    else ClassAccess(db, user, db.students[s].classId)
  }

  /** The review exists and the caller owns its class (`$review->gradeClass`). */
  function ReviewAccess(db: Gradebook, user: UserId, id: ReviewId): (s: Status)
    reads db
    requires db.Valid()
    ensures s == NotFound <==> id !in db.reviews
    ensures s == Forbidden <==> id in db.reviews && !db.Owns(user, db.reviews[id].classId)
    ensures s == Success <==> id in db.reviews && db.Owns(user, db.reviews[id].classId)
  {
    if id !in db.reviews then NotFound
    else ClassAccess(db, user, db.reviews[id].classId)
  }
}
