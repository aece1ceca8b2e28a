/**
 * GradeStudentController: the students of a class with their term grades
 * and tracking, adding (one or many), editing, deleting, moving to
 * another class and reordering. Every action checks that the caller owns
 * the class the student or the request belongs to.
 */
module GradeStudentController {
  import opened Wrappers
  import opened WeeklyReview
  import opened GradeRecords
  import opened GradebookDb
  import opened Http
  import opened Access

  // ------------------------------------------------------------------ index

  /** One line of `index`: the student with this term's grades and tracking. */
  datatype StudentRow = StudentRow(id: StudentId, student: Student, grades: Grades, tracking: Tracking)

  /**
   * `m'` is `m` with a row holding `d` added for term `term` of every
   * student in `ids` that had none, and nothing else changed.
   */
  ghost predicate FilledTerm<V>(m: map<TermKey, V>, m': map<TermKey, V>, ids: seq<StudentId>, term: int, d: V) {
    (forall k :: k in m' <==> k in m || (k.0 in ids && k.1 == term))
    && (forall k :: k in m ==> m'[k] == m[k])
    && (forall k :: k in m' && k !in m ==> m'[k] == d)
  }

  /** One `getOrCreate` of the `index` loop extends the filled rows by one student and reads `RowOr`. */
  lemma FilledStep<V>(m: map<TermKey, V>, m1: map<TermKey, V>, m2: map<TermKey, V>,
                      roster: seq<StudentId>, k: nat, term: int, d: V)
    requires k < |roster|
    requires FilledTerm(m, m1, roster[..k], term, d)
    requires (roster[k], term) in m1 ==> m2 == m1
    requires (roster[k], term) !in m1 ==> m2 == m1[(roster[k], term) := d]
    ensures FilledTerm(m, m2, roster[..k + 1], term, d)
    ensures (roster[k], term) in m2 && m2[(roster[k], term)] == RowOr(m, roster[k], term, d)
  {
    assert roster[..k + 1] == roster[..k] + [roster[k]];
  }

  /** The row `index` shows for a student: the stored rows of the term, or the defaults. */
  function ShownRow(students: map<StudentId, Student>, grades: map<TermKey, Grades>, tracking: map<TermKey, Tracking>,
                    s: StudentId, term: int): StudentRow
    requires s in students
  {
    StudentRow(s, students[s], RowOr(grades, s, term, DefaultGrades()), RowOr(tracking, s, term, DefaultTracking()))
  }

  /** The rows `index` shows for a roster, in roster order. */
  function ShownRows(students: map<StudentId, Student>, grades: map<TermKey, Grades>, tracking: map<TermKey, Tracking>,
                     roster: seq<StudentId>, term: int): seq<StudentRow>
    requires forall i :: 0 <= i < |roster| ==> roster[i] in students
    decreases |roster|
  {
    if roster == [] then []
    else
      var n := |roster| - 1;
      ShownRows(students, grades, tracking, roster[..n], term) + [ShownRow(students, grades, tracking, roster[n], term)]
  }

  lemma {:induction false} ShownRowsIndex(students: map<StudentId, Student>, grades: map<TermKey, Grades>,
                                          tracking: map<TermKey, Tracking>, roster: seq<StudentId>, term: int)
    requires forall i :: 0 <= i < |roster| ==> roster[i] in students
    ensures |ShownRows(students, grades, tracking, roster, term)| == |roster|
    ensures forall i :: 0 <= i < |roster| ==>
              ShownRows(students, grades, tracking, roster, term)[i] == ShownRow(students, grades, tracking, roster[i], term)
    decreases |roster|
  {
    if roster != [] {
      var n := |roster| - 1;
      ShownRowsIndex(students, grades, tracking, roster[..n], term);
      forall i | 0 <= i < n
        ensures roster[..n][i] == roster[i]
      {
      }
    }
  }

  /** One student of the `index` loop: the shown rows grow by that student's row and the filled rows by its term. */
  lemma LoadStep(students: map<StudentId, Student>, grades: map<TermKey, Grades>, tracking: map<TermKey, Tracking>,
                 g0: map<TermKey, Grades>, g1: map<TermKey, Grades>, t0: map<TermKey, Tracking>, t1: map<TermKey, Tracking>,
                 roster: seq<StudentId>, k: nat, term: int, rows: seq<StudentRow>, row: StudentRow)
    requires k < |roster| && forall i :: 0 <= i < |roster| ==> roster[i] in students
    requires rows == ShownRows(students, grades, tracking, roster[..k], term)
    requires FilledTerm(grades, g0, roster[..k], term, DefaultGrades())
    requires FilledTerm(tracking, t0, roster[..k], term, DefaultTracking())
    requires (roster[k], term) in g0 ==> g1 == g0
    requires (roster[k], term) !in g0 ==> g1 == g0[(roster[k], term) := DefaultGrades()]
    requires (roster[k], term) in t0 ==> t1 == t0
    requires (roster[k], term) !in t0 ==> t1 == t0[(roster[k], term) := DefaultTracking()]
    requires (roster[k], term) in g1 && (roster[k], term) in t1
    requires row == StudentRow(roster[k], students[roster[k]], g1[(roster[k], term)], t1[(roster[k], term)])
    ensures rows + [row] == ShownRows(students, grades, tracking, roster[..k + 1], term)
    ensures FilledTerm(grades, g1, roster[..k + 1], term, DefaultGrades())
    ensures FilledTerm(tracking, t1, roster[..k + 1], term, DefaultTracking())
  {
    FilledStep(grades, g0, g1, roster, k, term, DefaultGrades());
    FilledStep(tracking, t0, t1, roster, k, term, DefaultTracking());
    assert roster[..k + 1][..k] == roster[..k];
  }

  /**
   * The `map` of `index`: for each student of the roster, in order, read
   * the term's grades and tracking, creating the missing rows.
   */
  method LoadRows(db: Gradebook, roster: seq<StudentId>, term: int) returns (rows: seq<StudentRow>)
    requires db.Valid() && forall i :: 0 <= i < |roster| ==> roster[i] in db.students
    modifies db
    ensures db.Valid()
    ensures db.classes == old(db.classes) && db.students == old(db.students)
    ensures db.reviews == old(db.reviews) && db.nextId == old(db.nextId)
    ensures |rows| == |roster|
    ensures forall i :: 0 <= i < |roster| ==>
              rows[i] == ShownRow(old(db.students), old(db.grades), old(db.tracking), roster[i], term)
    ensures FilledTerm(old(db.grades), db.grades, roster, term, DefaultGrades())
    ensures FilledTerm(old(db.tracking), db.tracking, roster, term, DefaultTracking())
  {
    rows := [];
    var k := 0;
    ghost var students, grades, tracking := db.students, db.grades, db.tracking;
    while k < |roster|
      invariant 0 <= k <= |roster| && |rows| == k
      invariant db.Valid()
      invariant db.classes == old(db.classes) && db.students == students
      invariant db.reviews == old(db.reviews) && db.nextId == old(db.nextId)
      invariant rows == ShownRows(students, grades, tracking, roster[..k], term)
      invariant FilledTerm(grades, db.grades, roster[..k], term, DefaultGrades())
      invariant FilledTerm(tracking, db.tracking, roster[..k], term, DefaultTracking())
    {
      var s := roster[k];
      ghost var g0, t0 := db.grades, db.tracking;
      var g := db.GetOrCreateTermGrades(s, term);
      var t := db.GetOrCreateTermTracking(s, term);
      var row := StudentRow(s, db.students[s], g, t);
      LoadStep(students, grades, tracking, g0, db.grades, t0, db.tracking, roster, k, term, rows, row);
      rows := rows + [row];
      k := k + 1;
    }
    assert roster[..k] == roster;
    ShownRowsIndex(students, grades, tracking, roster, term);
  }

  /**
   * `index`: the class's students in `sort_order` order, with the grades
   * and tracking of the `term` query parameter (term 1 when absent).
   */
  method Index(db: Gradebook, user: UserId, c: ClassId, termParam: Option<int>) returns (status: Status, rows: seq<StudentRow>)
    requires db.Valid()
    modifies db
    ensures db.Valid()
    ensures status == old(ClassAccess(db, user, c))
    ensures status != Success ==> rows == [] && db.grades == old(db.grades) && db.tracking == old(db.tracking)
    ensures status == Success ==>
              var roster := RosterOf(old(db.students), c);
              |rows| == |roster|
              && (forall i :: 0 <= i < |rows| ==>
                    rows[i] == ShownRow(old(db.students), old(db.grades), old(db.tracking), roster[i], termParam.GetOr(1)))
              && FilledTerm(old(db.grades), db.grades, roster, termParam.GetOr(1), DefaultGrades())
              && FilledTerm(old(db.tracking), db.tracking, roster, termParam.GetOr(1), DefaultTracking())
    ensures db.classes == old(db.classes) && db.students == old(db.students)
    ensures db.reviews == old(db.reviews) && db.nextId == old(db.nextId)
  {
    status := ClassAccess(db, user, c);
    rows := [];
    if status != Success {
      return;
    }
    var roster := RosterOf(db.students, c);
    rows := LoadRows(db, roster, termParam.GetOr(1));
  }

  // ------------------------------------------------------------ store, batchStore

  /** One student in the body of `store` or `batchStore`; the date of birth is a day number. */
  datatype StudentInput = StudentInput(
    studentNumber: Option<string>,
    lastName: Option<string>,
    firstName: Option<string>,
    dateOfBirth: Option<int>,
    specialCase: Option<string>)

  /** The rules for one student: both names required, lengths 50, 100, 100 and 50. */
  predicate InputValid(i: StudentInput) {
    (i.studentNumber.Some? ==> |i.studentNumber.value| <= 50)
    && i.lastName.Some? && 1 <= |i.lastName.value| <= 100
    && i.firstName.Some? && 1 <= |i.firstName.value| <= 100
    && (i.specialCase.Some? ==> |i.specialCase.value| <= 50)
  }

  /** The row created for a validated input in class `c` at position `order`. */
  function NewStudent(c: ClassId, i: StudentInput, order: int): (st: Student)
    requires InputValid(i)
    ensures st.classId == c && st.sortOrder == order
    ensures st.lastName == i.lastName.value && st.firstName == i.firstName.value
    ensures st.studentNumber == i.studentNumber && st.dateOfBirth == i.dateOfBirth && st.specialCase == i.specialCase
  {
    Student(c, i.studentNumber, i.lastName.value, i.firstName.value, i.dateOfBirth, i.specialCase, order)
  }

  /** `store`: the new student goes last, one past the class's largest `sort_order` (or 1 in an empty class). */
  method Store(db: Gradebook, user: UserId, c: ClassId, i: StudentInput) returns (status: Status, id: Option<StudentId>)
    requires db.Valid()
    modifies db
    ensures db.Valid()
    ensures old(ClassAccess(db, user, c)) != Success ==> status == old(ClassAccess(db, user, c))
    ensures old(ClassAccess(db, user, c)) == Success ==> status == (if InputValid(i) then Created else Unprocessable)
    ensures status != Created ==> id.None? && db.students == old(db.students) && db.nextId == old(db.nextId)
    ensures status == Created ==>
              id.Some? && id.value !in old(db.students)
              && db.students == old(db.students)[id.value := NewStudent(c, i, old(db.MaxSortOrder(c)) + 1)]
              && (forall s :: s in old(db.students) && old(db.students)[s].classId == c ==>
                    old(db.students)[s].sortOrder < db.students[id.value].sortOrder)
    ensures db.classes == old(db.classes) && db.grades == old(db.grades)
    ensures db.tracking == old(db.tracking) && db.reviews == old(db.reviews)
  {
    status := ClassAccess(db, user, c);
    id := None;
    if status != Success {
      return;
    }
    if !InputValid(i) {
      return Unprocessable, None;
    }
    var maxOrder := db.MaxSortOrder(c);
    var s := db.InsertStudent(NewStudent(c, i, maxOrder + 1));
    return Created, Some(s);
  }

  /** The transaction of `batchStore`: each input becomes a new student, numbered on from `maxOrder`. */
  method CreateAll(db: Gradebook, c: ClassId, items: seq<StudentInput>, maxOrder: int) returns (ids: seq<StudentId>)
    requires db.Valid() && c in db.classes
    requires forall i :: 0 <= i < |items| ==> InputValid(items[i])
    modifies db
    ensures db.Valid()
    ensures |ids| == |items|
    ensures forall i :: 0 <= i < |ids| ==>
              ids[i] !in old(db.students) && ids[i] in db.students
              && db.students[ids[i]] == NewStudent(c, items[i], maxOrder + i + 1)
    ensures forall i, j :: 0 <= i < j < |ids| ==> ids[i] != ids[j]
    ensures forall s :: s in old(db.students) ==> s in db.students && db.students[s] == old(db.students)[s]
    ensures forall s :: s in db.students ==> s in old(db.students) || s in ids
    ensures db.classes == old(db.classes) && db.grades == old(db.grades)
    ensures db.tracking == old(db.tracking) && db.reviews == old(db.reviews)
  {
    ids := [];
    var order := maxOrder;
    var k := 0;
    ghost var start := db.students;
    ghost var first := db.nextId;
    assert forall s :: s in start ==> s < first;
    while k < |items|
      invariant 0 <= k <= |items| && |ids| == k && order == maxOrder + k
      invariant db.Valid() && db.nextId == first + k
      invariant forall i :: 0 <= i < k ==> ids[i] == first + i
      invariant db.students == Added(start, first, c, items[..k], maxOrder)
      invariant db.classes == old(db.classes) && db.grades == old(db.grades)
      invariant db.tracking == old(db.tracking) && db.reviews == old(db.reviews)
    {
      AddedStep(start, first, c, items, k, maxOrder);
      order := order + 1;
      var s := db.InsertStudent(NewStudent(c, items[k], order));
      ids := ids + [s];
      k := k + 1;
    }
    assert items[..k] == items;
    AddedRows(start, first, c, items, maxOrder, ids);
  }

  /** The students after inserting `items` with ids `first`, `first + 1`, ... */
  function Added(students: map<StudentId, Student>, first: StudentId, c: ClassId, items: seq<StudentInput>,
                 maxOrder: int): map<StudentId, Student>
    requires forall i :: 0 <= i < |items| ==> InputValid(items[i])
    decreases |items|
  {
    if items == [] then students
    else
      var n := |items| - 1;
      Added(students, first, c, items[..n], maxOrder)[first + n := NewStudent(c, items[n], maxOrder + n + 1)]
  }

  /** The rows `CreateAll` promises, read off `Added` for the ids `first`, `first + 1`, ... */
  lemma AddedRows(start: map<StudentId, Student>, first: StudentId, c: ClassId, items: seq<StudentInput>,
                  maxOrder: int, ids: seq<StudentId>)
    requires forall i :: 0 <= i < |items| ==> InputValid(items[i])
    requires forall s :: s in start ==> s < first
    requires |ids| == |items| && forall i :: 0 <= i < |ids| ==> ids[i] == first + i
    ensures forall i :: 0 <= i < |ids| ==>
              ids[i] !in start && ids[i] in Added(start, first, c, items, maxOrder)
              && Added(start, first, c, items, maxOrder)[ids[i]] == NewStudent(c, items[i], maxOrder + i + 1)
    ensures forall i, j :: 0 <= i < j < |ids| ==> ids[i] != ids[j]
    ensures forall s :: s in start ==>
              s in Added(start, first, c, items, maxOrder) && Added(start, first, c, items, maxOrder)[s] == start[s]
    ensures forall s :: s in Added(start, first, c, items, maxOrder) ==> s in start || s in ids
  {
    var m := Added(start, first, c, items, maxOrder);
    AddedContents(start, first, c, items, maxOrder);
    forall i | 0 <= i < |ids|
      ensures ids[i] !in start && ids[i] in m && m[ids[i]] == NewStudent(c, items[i], maxOrder + i + 1)
    {
      assert m[first + i] == NewStudent(c, items[i], maxOrder + i + 1);
    }
    forall s | s in m && s !in start
      ensures s in ids
    {
      assert ids[s - first] == s;
    }
  }

  /** One more item adds one row at `first + k`. */
  lemma AddedStep(students: map<StudentId, Student>, first: StudentId, c: ClassId, items: seq<StudentInput>,
                  k: nat, maxOrder: int)
    requires forall i :: 0 <= i < |items| ==> InputValid(items[i])
    requires k < |items|
    ensures Added(students, first, c, items[..k + 1], maxOrder) ==
            Added(students, first, c, items[..k], maxOrder)[first + k := NewStudent(c, items[k], maxOrder + k + 1)]
  {
    assert items[..k + 1][..k] == items[..k];
  }

  /** With every existing id below `first`, the old rows stay and the new ones sit at `first + i`. */
  lemma {:induction false} AddedContents(students: map<StudentId, Student>, first: StudentId, c: ClassId,
                                         items: seq<StudentInput>, maxOrder: int)
    requires forall i :: 0 <= i < |items| ==> InputValid(items[i])
    requires forall s :: s in students ==> s < first
    ensures forall s :: s in Added(students, first, c, items, maxOrder) <==> s in students || first <= s < first + |items|
    ensures forall s :: s in students ==> Added(students, first, c, items, maxOrder)[s] == students[s]
    ensures forall i :: 0 <= i < |items| ==>
              Added(students, first, c, items, maxOrder)[first + i] == NewStudent(c, items[i], maxOrder + i + 1)
    decreases |items|
  {
    if items != [] {
      var n := |items| - 1;
      AddedContents(students, first, c, items[..n], maxOrder);
      forall i | 0 <= i < n
        ensures items[..n][i] == items[i]
      {
      }
    }
  }

  /** `batchStore`: the inputs become new students, in order, after every existing student of the class. */
  method BatchStore(db: Gradebook, user: UserId, c: ClassId, items: seq<StudentInput>)
    returns (status: Status, ids: seq<StudentId>)
    requires db.Valid()
    modifies db
    ensures db.Valid()
    ensures old(ClassAccess(db, user, c)) != Success ==> status == old(ClassAccess(db, user, c))
    ensures old(ClassAccess(db, user, c)) == Success ==>
              status == (if |items| >= 1 && forall i :: 0 <= i < |items| ==> InputValid(items[i]) then Created else Unprocessable)
    ensures status != Created ==> ids == [] && db.students == old(db.students) && db.nextId == old(db.nextId)
    ensures status == Created ==>
              |ids| == |items|
              && (forall i :: 0 <= i < |ids| ==>
                    ids[i] !in old(db.students) && ids[i] in db.students
                    && db.students[ids[i]] == NewStudent(c, items[i], old(db.MaxSortOrder(c)) + i + 1))
              && (forall i, j :: 0 <= i < j < |ids| ==> db.students[ids[i]].sortOrder < db.students[ids[j]].sortOrder)
              && (forall s, i :: s in old(db.students) && old(db.students)[s].classId == c && 0 <= i < |ids| ==>
                    old(db.students)[s].sortOrder < db.students[ids[i]].sortOrder)
              && (forall s :: s in old(db.students) ==> s in db.students && db.students[s] == old(db.students)[s])
              && (forall s :: s in db.students ==> s in old(db.students) || s in ids)
    ensures db.classes == old(db.classes) && db.grades == old(db.grades)
    ensures db.tracking == old(db.tracking) && db.reviews == old(db.reviews)
  {
    status := ClassAccess(db, user, c);
    ids := [];
    if status != Success {
      return;
    }
    if !(|items| >= 1 && forall i :: 0 <= i < |items| ==> InputValid(items[i])) {
      return Unprocessable, [];
    }
    var maxOrder := db.MaxSortOrder(c);
    ids := CreateAll(db, c, items, maxOrder);
    status := Created;
  }

  // ----------------------------------------------------------------- update

  /** The body of `update`; `Some(None)` is an explicit null. */
  datatype StudentPatch = StudentPatch(
    studentNumber: Option<Option<string>>,
    lastName: Option<Option<string>>,
    firstName: Option<Option<string>>,
    dateOfBirth: Option<Option<int>>,
    specialCase: Option<Option<string>>)

  /** The rules of `update`: names, when sent, are non-null strings of 1 to 100 characters. */
  predicate PatchValid(p: StudentPatch) {
    (p.studentNumber.Some? && p.studentNumber.value.Some? ==> |p.studentNumber.value.value| <= 50)
    && (p.lastName.Some? ==> p.lastName.value.Some? && 1 <= |p.lastName.value.value| <= 100)
    && (p.firstName.Some? ==> p.firstName.value.Some? && 1 <= |p.firstName.value.value| <= 100)
    && (p.specialCase.Some? && p.specialCase.value.Some? ==> |p.specialCase.value.value| <= 50)
  }

  /** The student after `update`: sent fields replaced; class and position kept. */
  function ApplyPatch(st: Student, p: StudentPatch): (st': Student)
    requires PatchValid(p)
    ensures st'.classId == st.classId && st'.sortOrder == st.sortOrder
    ensures st'.studentNumber == p.studentNumber.GetOr(st.studentNumber)
    ensures st'.lastName == (if p.lastName.Some? then p.lastName.value.value else st.lastName)
    ensures st'.firstName == (if p.firstName.Some? then p.firstName.value.value else st.firstName)
    ensures st'.dateOfBirth == p.dateOfBirth.GetOr(st.dateOfBirth)
    ensures st'.specialCase == p.specialCase.GetOr(st.specialCase)
  {
    st.(studentNumber := p.studentNumber.GetOr(st.studentNumber),
        lastName := if p.lastName.Some? then p.lastName.value.value else st.lastName,
        firstName := if p.firstName.Some? then p.firstName.value.value else st.firstName,
        dateOfBirth := p.dateOfBirth.GetOr(st.dateOfBirth),
        specialCase := p.specialCase.GetOr(st.specialCase))
  }

  /** `update`: the owner edits the student's identity fields. */
  method Update(db: Gradebook, user: UserId, s: StudentId, p: StudentPatch) returns (status: Status)
    requires db.Valid()
    modifies db
    ensures db.Valid()
    ensures old(StudentAccess(db, user, s)) != Success ==> status == old(StudentAccess(db, user, s))
    ensures old(StudentAccess(db, user, s)) == Success ==> status == (if PatchValid(p) then Success else Unprocessable)
    ensures status == Success ==> db.students == old(db.students)[s := ApplyPatch(old(db.students)[s], p)]
    ensures status != Success ==> db.students == old(db.students)
    ensures db.classes == old(db.classes) && db.grades == old(db.grades) && db.tracking == old(db.tracking)
    ensures db.reviews == old(db.reviews) && db.nextId == old(db.nextId)
  {
    status := StudentAccess(db, user, s);
    if status != Success {
      return;
    }
    if !PatchValid(p) {
      return Unprocessable;
    }
    db.SetStudent(s, ApplyPatch(db.students[s], p));
  }

  /** `destroy`: the student goes, with their grades, tracking and weekly reviews. */
  method Destroy(db: Gradebook, user: UserId, s: StudentId) returns (status: Status)
    requires db.Valid()
    modifies db
    ensures db.Valid()
    ensures status == old(StudentAccess(db, user, s))
    ensures status == Success ==>
              db.students == old(db.students) - {s}
              && db.grades == DropStudentRows(old(db.grades), {s})
              && db.tracking == DropStudentRows(old(db.tracking), {s})
              && db.reviews == ReviewsNotOf(old(db.reviews), {s})
    ensures status != Success ==>
              db.students == old(db.students) && db.grades == old(db.grades)
              && db.tracking == old(db.tracking) && db.reviews == old(db.reviews)
    ensures db.classes == old(db.classes) && db.nextId == old(db.nextId)
  {
    status := StudentAccess(db, user, s);
    if status == Success {
      db.DeleteStudent(s);
    }
  }

  // ------------------------------------------------------------------- move

  /**
   * `move`: the student joins the target class, placed after its students.
   * 422 when the target class does not exist, 404 when it is another
   * teacher's.
   */
  method Move(db: Gradebook, user: UserId, s: StudentId, target: ClassId) returns (status: Status)
    requires db.Valid()
    modifies db
    ensures db.Valid()
    ensures old(StudentAccess(db, user, s)) != Success ==> status == old(StudentAccess(db, user, s))
    ensures old(StudentAccess(db, user, s)) == Success ==>
              status == (if target !in old(db.classes) then Unprocessable
                         else if old(db.classes)[target].owner != user then NotFound
                         else Success)
    ensures status == Success ==>
              db.students == old(db.students)[s := old(db.students)[s].(classId := target, sortOrder := old(db.MaxSortOrder(target)) + 1)]
              && (forall o :: o in old(db.students) && old(db.students)[o].classId == target ==>
                    old(db.students)[o].sortOrder < db.students[s].sortOrder)
    ensures status != Success ==> db.students == old(db.students)
    ensures db.classes == old(db.classes) && db.grades == old(db.grades) && db.tracking == old(db.tracking)
    ensures db.reviews == old(db.reviews) && db.nextId == old(db.nextId)
  {
    status := StudentAccess(db, user, s);
    if status != Success {
      return;
    }
    if target !in db.classes {
      return Unprocessable;
    }
    if db.classes[target].owner != user {
      return NotFound;
    }
    var maxOrder := db.MaxSortOrder(target);
    db.SetStudent(s, db.students[s].(classId := target, sortOrder := maxOrder + 1));
  }

  // ---------------------------------------------------------------- reorder

  /** The last position of `s` in `order`. */
  function LastIndex(order: seq<StudentId>, s: StudentId): (i: nat)
    requires s in order
    ensures i < |order| && order[i] == s
    ensures forall j :: i < j < |order| ==> order[j] != s
  {
    if order[|order| - 1] == s then |order| - 1
    else LastIndex(order[..|order| - 1], s)
  }

  /**
   * The students after `reorder` as written: every listed student, of
   * whatever class, gets its last position in `order` plus one.
   */
  function Reordered(students: map<StudentId, Student>, order: seq<StudentId>): (r: map<StudentId, Student>)
    ensures r.Keys == students.Keys
    ensures forall s :: s in students && s !in order ==> r[s] == students[s]
    ensures forall s :: s in students && s in order ==> r[s] == students[s].(sortOrder := LastIndex(order, s) + 1)
  {
    map s | s in students :: if s in order then students[s].(sortOrder := LastIndex(order, s) + 1) else students[s]
  }

  /** One more update of the `reorder` loop. */
  lemma {:induction false} ReorderedStep(students: map<StudentId, Student>, order: seq<StudentId>, k: nat)
    requires k < |order| && order[k] in students
    ensures Reordered(students, order[..k + 1])
            == Reordered(students, order[..k])[order[k] := Reordered(students, order[..k])[order[k]].(sortOrder := k + 1)]
  {
    var before, after := order[..k], order[..k + 1];
    assert after[..k] == before && after[k] == order[k];
    var m0 := Reordered(students, before);
    var m1 := Reordered(students, after);
    var target := m0[order[k] := m0[order[k]].(sortOrder := k + 1)];
    forall s | s in m1
      ensures s in target && m1[s] == target[s]
    {
      if s == order[k] {
        assert LastIndex(after, s) == k;
      } else if s in before {
        assert s in after;
        assert LastIndex(after, s) == LastIndex(before, s);
      } else {
        assert s !in after;
      }
    }
    assert m1 == target;
  }

  /** An empty order changes nothing. */
  lemma ReorderedNone(students: map<StudentId, Student>)
    ensures Reordered(students, []) == students
  {
  }

  /** With no repeated ids, the listed students are numbered 1, 2, 3, ... in the order given. */
  lemma ReorderNumbersPositions(students: map<StudentId, Student>, order: seq<StudentId>)
    requires forall i :: 0 <= i < |order| ==> order[i] in students
    requires forall i, j :: 0 <= i < j < |order| ==> order[i] != order[j]
    ensures forall i :: 0 <= i < |order| ==> Reordered(students, order)[order[i]].sortOrder == i + 1
  {
    forall i | 0 <= i < |order| ensures Reordered(students, order)[order[i]].sortOrder == i + 1 {
      var j := LastIndex(order, order[i]);
      assert j == i;
    }
  }

  /** The rules of `reorder`: a non-empty list of existing student ids, of any class. */
  predicate ReorderValid(students: map<StudentId, Student>, order: seq<StudentId>) {
    |order| >= 1 && forall i :: 0 <= i < |order| ==> order[i] in students
  }

  /** `reorder`: each listed student's `sort_order` becomes its position plus one, in a transaction. */
  method Reorder(db: Gradebook, user: UserId, c: ClassId, order: seq<StudentId>) returns (status: Status)
    requires db.Valid()
    modifies db
    ensures db.Valid()
    ensures old(ClassAccess(db, user, c)) != Success ==> status == old(ClassAccess(db, user, c))
    ensures old(ClassAccess(db, user, c)) == Success ==>
              status == (if ReorderValid(old(db.students), order) then Success else Unprocessable)
    ensures status == Success ==> db.students == Reordered(old(db.students), order)
    ensures status != Success ==> db.students == old(db.students)
    ensures db.classes == old(db.classes) && db.grades == old(db.grades) && db.tracking == old(db.tracking)
    ensures db.reviews == old(db.reviews) && db.nextId == old(db.nextId)
  {
    status := ClassAccess(db, user, c);
    if status != Success {
      return;
    }
    if !ReorderValid(db.students, order) {
      return Unprocessable;
    }
    ApplyOrder(db, order);
  }

  /** The transaction of `reorder`: the i-th listed student gets `sort_order` i + 1. */
  method ApplyOrder(db: Gradebook, order: seq<StudentId>)
    requires db.Valid() && forall i :: 0 <= i < |order| ==> order[i] in db.students
    modifies db
    ensures db.Valid()
    ensures db.students == Reordered(old(db.students), order)
    ensures db.classes == old(db.classes) && db.grades == old(db.grades) && db.tracking == old(db.tracking)
    ensures db.reviews == old(db.reviews) && db.nextId == old(db.nextId)
  {
    var k := 0;
    ghost var start := db.students;
    ReorderedNone(start);
    assert order[..0] == [];
    while k < |order|
      invariant 0 <= k <= |order|
      invariant db.Valid()
      invariant db.students.Keys == start.Keys
      invariant db.students == Reordered(start, order[..k])
      invariant db.classes == old(db.classes) && db.grades == old(db.grades) && db.tracking == old(db.tracking)
      invariant db.reviews == old(db.reviews) && db.nextId == old(db.nextId)
    {
      ReorderedStep(start, order, k);
      db.SetSortOrder(order[k], k + 1);
      k := k + 1;
    }
    assert order[..|order|] == order;
  }

  /** `reorder` as written reaches a student of another teacher's class. */
  lemma ReorderReachesOtherClasses()
    ensures var students := map[7 := Student(2, None, "A", "B", None, None, 5)];
            var r := Reordered(students, [7]);
            students[7].classId != 1 && r[7].sortOrder != students[7].sortOrder
  {
    var students := map[7 := Student(2, None, "A", "B", None, None, 5)];
    assert LastIndex([7], 7) == 0;
  }

  /** The evidently intended `reorder` of class `c`: only the class's own students are renumbered. */
  function ReorderedInClass(students: map<StudentId, Student>, c: ClassId, order: seq<StudentId>): (r: map<StudentId, Student>)
    ensures r.Keys == students.Keys
    ensures forall s :: s in students && students[s].classId != c ==> r[s] == students[s]
    ensures forall s :: s in students && students[s].classId == c && s in order ==>
              r[s] == students[s].(sortOrder := LastIndex(order, s) + 1)
    ensures forall s :: s in students && s !in order ==> r[s] == students[s]
  {
    map s | s in students :: if s in order && students[s].classId == c then students[s].(sortOrder := LastIndex(order, s) + 1) else students[s]
  }

  /** When every listed student is in the class, the code as written and the intended reorder agree. */
  lemma ReorderAgreesWithinClass(students: map<StudentId, Student>, c: ClassId, order: seq<StudentId>)
    requires forall i :: 0 <= i < |order| ==> order[i] in students && students[order[i]].classId == c
    ensures Reordered(students, order) == ReorderedInClass(students, c, order)
  {
    forall s | s in students ensures Reordered(students, order)[s] == ReorderedInClass(students, c, order)[s] {
      if s in order {
        var i :| 0 <= i < |order| && order[i] == s;
      }
    }
  }
}
