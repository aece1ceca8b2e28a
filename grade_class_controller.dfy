/**
 * GradeClassController: a teacher's classes. Listing is restricted to the
 * caller's own classes; every other action on an existing class answers
 * 403 unless the caller owns it.
 */
module GradeClassController {
  import opened Wrappers
  import opened WeeklyReview
  import opened GradeRecords
  import opened GradebookDb
  import opened Http
  import opened Access
  import opened Php
  import Listing

  /** The `index` filter: the caller's class, of the requested academic year when one is given. */
  predicate Listed(g: GradeClass, user: UserId, year: Option<string>) {
    g.owner == user && (Filled(year) ==> g.academicYear == year.value)
  }

  /** `index`: the caller's classes, each with its students in `sort_order` order. */
  function Index(db: Gradebook, user: UserId, year: Option<string>): (r: map<ClassId, seq<StudentId>>)
    reads db
    ensures forall c :: c in r ==> c in db.classes && db.classes[c].owner == user
    ensures forall c :: c in db.classes && db.classes[c].owner == user ==>
              (c in r <==> !Filled(year) || db.classes[c].academicYear == year.value)
    ensures forall c :: c in r ==>
              (forall s :: s in r[c] <==> s in db.students && db.students[s].classId == c)
              && Listing.Distinct(r[c]) && BySortOrder(db.students, r[c])
  {
    map c | c in db.classes && Listed(db.classes[c], user, year) :: RosterOf(db.students, c)
  }

  /** Without a year filter the listing holds every class the caller owns and no other. */
  lemma IndexWithoutYear(db: Gradebook, user: UserId)
    ensures forall c :: c in Index(db, user, None) <==> db.Owns(user, c)
    ensures forall c :: c in Index(db, user, Some("0")) <==> db.Owns(user, c)
  {
  }

  /** The body of `store`. */
  datatype ClassInput = ClassInput(
    name: Option<string>,
    subject: Option<string>,
    gradeLevel: Option<string>,
    academicYear: Option<string>)

  /** The rules of `store`: name and year required, lengths 100, 100, 100 and 20. */
  predicate StoreValid(i: ClassInput) {
    i.name.Some? && 1 <= |i.name.value| <= 100
    && (i.subject.Some? ==> |i.subject.value| <= 100)
    && (i.gradeLevel.Some? ==> |i.gradeLevel.value| <= 100)
    && i.academicYear.Some? && 1 <= |i.academicYear.value| <= 20
  }

  /** `store`: a new class owned by the caller. */
  method Store(db: Gradebook, user: UserId, i: ClassInput) returns (status: Status, id: Option<ClassId>)
    requires db.Valid()
    modifies db
    ensures db.Valid()
    ensures status == (if StoreValid(i) then Created else Unprocessable)
    ensures status == Unprocessable ==> id.None? && db.classes == old(db.classes) && db.nextId == old(db.nextId)
    ensures status == Created ==>
              id.Some? && id.value !in old(db.classes)
              && db.classes == old(db.classes)[id.value := GradeClass(user, i.name.value, i.subject, i.gradeLevel, i.academicYear.value)]
              && db.Owns(user, id.value)
    ensures db.students == old(db.students) && db.grades == old(db.grades)
    ensures db.tracking == old(db.tracking) && db.reviews == old(db.reviews)
  {
    if !StoreValid(i) {
      return Unprocessable, None;
    }
    var c := db.InsertClass(GradeClass(user, i.name.value, i.subject, i.gradeLevel, i.academicYear.value));
    return Created, Some(c);
  }

  /** What `show` returns: the class, its students in order, and their grades of every term. */
  datatype ClassView = ClassView(cls: GradeClass, roster: seq<StudentId>, grades: map<TermKey, Grades>)

  /** `show`: the class with its students and their grades. */
  function Show(db: Gradebook, user: UserId, c: ClassId): (r: (Status, Option<ClassView>))
    reads db
    ensures r.0 == ClassAccess(db, user, c)
    ensures r.1.Some? <==> r.0 == Success
    ensures r.1.Some? ==>
              r.1.value.cls == db.classes[c]
              && (forall s :: s in r.1.value.roster <==> s in db.students && db.students[s].classId == c)
              && Listing.Distinct(r.1.value.roster) && BySortOrder(db.students, r.1.value.roster)
              && (forall k :: k in r.1.value.grades <==> k in db.grades && k.0 in db.students && db.students[k.0].classId == c)
              && (forall k :: k in r.1.value.grades ==> r.1.value.grades[k] == db.grades[k])
  {
    var status := ClassAccess(db, user, c);
    if status != Success then (status, None)
    else
      var gs := map k | k in db.grades && k.0 in db.students && db.students[k.0].classId == c :: db.grades[k];
      (Success, Some(ClassView(db.classes[c], RosterOf(db.students, c), gs)))
  }

  /** The body of `update`; `Some(None)` is an explicit null. */
  datatype ClassPatch = ClassPatch(
    name: Option<Option<string>>,
    subject: Option<Option<string>>,
    gradeLevel: Option<Option<string>>)

  /** The rules of `update`: a name, when sent, is a string of 1 to 100 characters; the others are nullable. */
  predicate PatchValid(p: ClassPatch) {
    (p.name.Some? ==> p.name.value.Some? && 1 <= |p.name.value.value| <= 100)
    && (p.subject.Some? && p.subject.value.Some? ==> |p.subject.value.value| <= 100)
    && (p.gradeLevel.Some? && p.gradeLevel.value.Some? ==> |p.gradeLevel.value.value| <= 100)
  }

  /** The class after `update`: sent fields replaced; owner and academic year kept. */
  function ApplyPatch(g: GradeClass, p: ClassPatch): (g': GradeClass)
    requires PatchValid(p)
    ensures g'.owner == g.owner && g'.academicYear == g.academicYear
    ensures g'.name == (if p.name.Some? then p.name.value.value else g.name)
    ensures g'.subject == p.subject.GetOr(g.subject) && g'.gradeLevel == p.gradeLevel.GetOr(g.gradeLevel)
  {
    g.(name := if p.name.Some? then p.name.value.value else g.name,
       subject := p.subject.GetOr(g.subject),
       gradeLevel := p.gradeLevel.GetOr(g.gradeLevel))
  }

  /** Sending the same patch twice is the same as sending it once. */
  lemma ApplyPatchIdempotent(g: GradeClass, p: ClassPatch)
    requires PatchValid(p)
    ensures ApplyPatch(ApplyPatch(g, p), p) == ApplyPatch(g, p)
  {
  }

  /** `update`: the owner edits name, subject and grade level. */
  method Update(db: Gradebook, user: UserId, c: ClassId, p: ClassPatch) returns (status: Status)
    requires db.Valid()
    modifies db
    ensures db.Valid()
    ensures old(ClassAccess(db, user, c)) != Success ==> status == old(ClassAccess(db, user, c))
    ensures old(ClassAccess(db, user, c)) == Success ==> status == (if PatchValid(p) then Success else Unprocessable)
    ensures status == Success ==> db.classes == old(db.classes)[c := ApplyPatch(old(db.classes)[c], p)]
    ensures status != Success ==> db.classes == old(db.classes)
    ensures db.students == old(db.students) && db.grades == old(db.grades) && db.tracking == old(db.tracking)
    ensures db.reviews == old(db.reviews) && db.nextId == old(db.nextId)
  {
    status := ClassAccess(db, user, c);
    if status != Success {
      return;
    }
    if !PatchValid(p) {
      return Unprocessable;
    }
    db.SetClass(c, ApplyPatch(db.classes[c], p));
  }

  /** `destroy`: the class goes, and its students with their grades, tracking and reviews. */
  method Destroy(db: Gradebook, user: UserId, c: ClassId) returns (status: Status)
    requires db.Valid()
    modifies db
    ensures db.Valid()
    ensures status == old(ClassAccess(db, user, c))
    ensures status == Success ==>
              db.classes == old(db.classes) - {c}
              && db.students == StudentsOutside(old(db.students), c)
              && db.grades == DropStudentRows(old(db.grades), old(db.ClassStudents(c)))
              && db.tracking == DropStudentRows(old(db.tracking), old(db.ClassStudents(c)))
              && db.reviews == ReviewsOutside(old(db.reviews), c, old(db.ClassStudents(c)))
    ensures status != Success ==>
              db.classes == old(db.classes) && db.students == old(db.students) && db.grades == old(db.grades)
              && db.tracking == old(db.tracking) && db.reviews == old(db.reviews)
    ensures db.nextId == old(db.nextId)
  {
    status := ClassAccess(db, user, c);
    if status == Success {
      db.DeleteClass(c);
    }
  }
}
