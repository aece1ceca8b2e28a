/**
 * StudentGradeController: per-term grades of one student, or of many in
 * one request. A grade row is keyed by (student, term); a missing row is
 * created with the column defaults before the sent fields are applied.
 */
module StudentGradeController {
  import opened Wrappers
  import opened WeeklyReview
  import opened GradeRecords
  import opened GradebookDb
  import opened Http
  import opened Access

  /**
   * The grade fields of a request, in hundredths. An absent field is `None`
   * and an explicit null is `Some(None)`, which `numeric` rejects.
   */
  datatype GradesPatch = GradesPatch(
    behavior: Option<Option<int>>,
    applications: Option<Option<int>>,
    notebook: Option<Option<int>>,
    assignment: Option<Option<int>>,
    exam: Option<Option<int>>)

  /** `in:1,2,3`. */
  predicate TermValid(term: int) {
    1 <= term <= 3
  }

  /** `sometimes|numeric|min:0|max:max`: when sent, a number (not null) in range. */
  predicate InRange(v: Option<Option<int>>, max: int) {
    v.Some? ==> v.value.Some? && 0 <= v.value.value <= max
  }

  /** The grade rules: behaviour, applications and notebook out of 5, assignment and exam out of 20. */
  predicate PatchValid(p: GradesPatch) {
    InRange(p.behavior, 500) && InRange(p.applications, 500) && InRange(p.notebook, 500)
    && InRange(p.assignment, 2000) && InRange(p.exam, 2000)
  }

  /** Every grade of the row lies within its scale. */
  predicate GradesInRange(g: Grades) {
    0 <= g.behavior <= 500 && 0 <= g.applications <= 500 && 0 <= g.notebook <= 500
    && 0 <= g.assignment <= 2000 && 0 <= g.exam <= 2000
  }

  /** The row after `updateOrCreate`: sent fields replaced, the others kept (a null never gets past `PatchValid`). */
  function ApplyGrades(g: Grades, p: GradesPatch): (g': Grades)
    ensures g'.behavior == p.behavior.GetOr(None).GetOr(g.behavior)
    ensures g'.applications == p.applications.GetOr(None).GetOr(g.applications)
    ensures g'.notebook == p.notebook.GetOr(None).GetOr(g.notebook)
    ensures g'.assignment == p.assignment.GetOr(None).GetOr(g.assignment)
    ensures g'.exam == p.exam.GetOr(None).GetOr(g.exam)
  {
    Grades(p.behavior.GetOr(None).GetOr(g.behavior), p.applications.GetOr(None).GetOr(g.applications), p.notebook.GetOr(None).GetOr(g.notebook),
           p.assignment.GetOr(None).GetOr(g.assignment), p.exam.GetOr(None).GetOr(g.exam))
  }

  /** A validated patch keeps a row, new or stored, within the scales. */
  lemma ApplyGradesInRange(g: Grades, p: GradesPatch)
    requires GradesInRange(g) && PatchValid(p)
    ensures GradesInRange(ApplyGrades(g, p))
    ensures GradesInRange(DefaultGrades())
  {
  }

  /** Applying the same patch again changes nothing. */
  lemma ApplyGradesIdempotent(g: Grades, p: GradesPatch)
    ensures ApplyGrades(ApplyGrades(g, p), p) == ApplyGrades(g, p)
  {
  }

  /** The grades table after one `updateOrCreate(['term' => term], fields)` for student `s`. */
  function Upsert(grades: map<TermKey, Grades>, s: StudentId, term: int, p: GradesPatch): (r: map<TermKey, Grades>)
    ensures r.Keys == grades.Keys + {(s, term)}
    ensures r[(s, term)] == ApplyGrades(RowOr(grades, s, term, DefaultGrades()), p)
    ensures forall k :: k in grades && k != (s, term) ==> r[k] == grades[k]
  {
    grades[(s, term) := ApplyGrades(RowOr(grades, s, term, DefaultGrades()), p)]
  }

  /** `update`: the owner of the student's class sets some grades of one term. */
  method Update(db: Gradebook, user: UserId, s: StudentId, term: int, p: GradesPatch) returns (status: Status)
    requires db.Valid()
    modifies db
    ensures db.Valid()
    ensures old(StudentAccess(db, user, s)) != Success ==> status == old(StudentAccess(db, user, s))
    ensures old(StudentAccess(db, user, s)) == Success ==>
              status == (if TermValid(term) && PatchValid(p) then Success else Unprocessable)
    ensures status == Success ==> db.grades == Upsert(old(db.grades), s, term, p)
    ensures status != Success ==> db.grades == old(db.grades)
    ensures db.classes == old(db.classes) && db.students == old(db.students) && db.tracking == old(db.tracking)
    ensures db.reviews == old(db.reviews) && db.nextId == old(db.nextId)
  {
    status := StudentAccess(db, user, s);
    if status != Success {
      return;
    }
    if !(TermValid(term) && PatchValid(p)) {
      return Unprocessable;
    }
    db.PutGrades((s, term), ApplyGrades(RowOr(db.grades, s, term, DefaultGrades()), p));
  }

  // ------------------------------------------------------------ batchUpdate

  /** One element of `grades` in `batchUpdate`. */
  datatype GradeItem = GradeItem(studentId: StudentId, patch: GradesPatch)

  /** The rules of `batchUpdate`: a valid term and a non-empty list of existing students with valid grades. */
  predicate BatchValid(students: map<StudentId, Student>, term: int, items: seq<GradeItem>) {
    TermValid(term) && |items| >= 1
    && forall i :: 0 <= i < |items| ==> items[i].studentId in students && PatchValid(items[i].patch)
  }

  /** The student exists and belongs to a class of `user`. */
  predicate OwnedBy(classes: map<ClassId, GradeClass>, students: map<StudentId, Student>, user: UserId, s: StudentId) {
    s in students && students[s].classId in classes && classes[students[s].classId].owner == user
  }

  /** The grades table after the loop of `batchUpdate` over `items`: items of other teachers' students are skipped. */
  function BatchApplied(grades: map<TermKey, Grades>, classes: map<ClassId, GradeClass>, students: map<StudentId, Student>,
                        user: UserId, term: int, items: seq<GradeItem>): map<TermKey, Grades>
    decreases |items|
  {
    if items == [] then grades
    else
      var before := BatchApplied(grades, classes, students, user, term, items[..|items| - 1]);
      var last := items[|items| - 1];
      if OwnedBy(classes, students, user, last.studentId) then Upsert(before, last.studentId, term, last.patch)
      else before
  }

  /** The number of items the loop does not skip (`$updated`). */
  function CountOwned(classes: map<ClassId, GradeClass>, students: map<StudentId, Student>,
                      user: UserId, items: seq<GradeItem>): (n: nat)
    ensures n <= |items|
    decreases |items|
  {
    if items == [] then 0
    else
      CountOwned(classes, students, user, items[..|items| - 1])
      + if OwnedBy(classes, students, user, items[|items| - 1].studentId) then 1 else 0
  }

  /**
   * `batchUpdate` writes only the term's rows of the caller's own students
   * named in the request; it adds a row exactly for such a student that had
   * none, and every other row is left as it was.
   */
  lemma {:induction false} BatchOnlyTouchesOwned(grades: map<TermKey, Grades>, classes: map<ClassId, GradeClass>,
                                                 students: map<StudentId, Student>, user: UserId, term: int,
                                                 items: seq<GradeItem>)
    ensures var r := BatchApplied(grades, classes, students, user, term, items);
            forall k :: k in r <==>
              k in grades || (k.1 == term && OwnedBy(classes, students, user, k.0)
                              && exists i :: 0 <= i < |items| && items[i].studentId == k.0)
    ensures var r := BatchApplied(grades, classes, students, user, term, items);
            forall k :: k in grades && (k.1 != term || !OwnedBy(classes, students, user, k.0)) ==> r[k] == grades[k]
    decreases |items|
  {
    if items != [] {
      var init := items[..|items| - 1];
      BatchOnlyTouchesOwned(grades, classes, students, user, term, init);
      var r := BatchApplied(grades, classes, students, user, term, items);
      forall k ensures k in r <==>
          k in grades || (k.1 == term && OwnedBy(classes, students, user, k.0)
                          && exists i :: 0 <= i < |items| && items[i].studentId == k.0)
      {
        if k.1 == term && OwnedBy(classes, students, user, k.0) && k !in grades {
          if exists i :: 0 <= i < |items| && items[i].studentId == k.0 {
            var i :| 0 <= i < |items| && items[i].studentId == k.0;
            if i < |init| {
              assert init[i].studentId == k.0;
            }
          }
          if exists i :: 0 <= i < |init| && init[i].studentId == k.0 {
            var i :| 0 <= i < |init| && init[i].studentId == k.0;
            assert items[i].studentId == k.0;
          }
        }
      }
    }
  }

  /** The transaction of `batchUpdate`. */
  method ApplyItems(db: Gradebook, user: UserId, term: int, items: seq<GradeItem>) returns (updated: nat)
    requires db.Valid()
    modifies db
    ensures db.Valid()
    ensures db.grades == BatchApplied(old(db.grades), db.classes, db.students, user, term, items)
    ensures updated == CountOwned(db.classes, db.students, user, items)
    ensures db.classes == old(db.classes) && db.students == old(db.students) && db.tracking == old(db.tracking)
    ensures db.reviews == old(db.reviews) && db.nextId == old(db.nextId)
  {
    updated := 0;
    var k := 0;
    while k < |items|
      invariant 0 <= k <= |items|
      invariant db.Valid()
      invariant db.classes == old(db.classes) && db.students == old(db.students) && db.tracking == old(db.tracking)
      invariant db.reviews == old(db.reviews) && db.nextId == old(db.nextId)
      invariant db.grades == BatchApplied(old(db.grades), db.classes, db.students, user, term, items[..k])
      invariant updated == CountOwned(db.classes, db.students, user, items[..k])
    {
      var item := items[k];
      assert items[..k + 1][..k] == items[..k];
      if OwnedBy(db.classes, db.students, user, item.studentId) {
        db.PutGrades((item.studentId, term), ApplyGrades(RowOr(db.grades, item.studentId, term, DefaultGrades()), item.patch));
        updated := updated + 1;
      }
      k := k + 1;
    }
    assert items[..k] == items;
  }

  /** `batchUpdate`: validate, then apply each item whose student the caller owns, counting them. */
  method BatchUpdate(db: Gradebook, user: UserId, term: int, items: seq<GradeItem>) returns (status: Status, updated: nat)
    requires db.Valid()
    modifies db
    ensures db.Valid()
    ensures status == (if BatchValid(old(db.students), term, items) then Success else Unprocessable)
    ensures status == Success ==>
              db.grades == BatchApplied(old(db.grades), db.classes, db.students, user, term, items)
              && updated == CountOwned(db.classes, db.students, user, items)
    ensures status != Success ==> db.grades == old(db.grades) && updated == 0
    ensures db.classes == old(db.classes) && db.students == old(db.students) && db.tracking == old(db.tracking)
    ensures db.reviews == old(db.reviews) && db.nextId == old(db.nextId)
  {
    if !BatchValid(db.students, term, items) {
      return Unprocessable, 0;
    }
    updated := ApplyItems(db, user, term, items);
    status := Success;
  }
}
