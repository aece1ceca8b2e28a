/**
 * The gradebook tables (grade_classes, grade_students, student_grades,
 * student_pedagogical_tracking, student_weekly_reviews) as one database
 * object whose methods are the row-level writes the models perform:
 * `firstOrCreate`, `updateOrCreate`, `update`, and deletes with the
 * foreign-key cascades of the schema.
 */
module GradebookDb {
  import opened Wrappers
  import opened WeeklyReview
  import opened GradeRecords
  import Listing

  /** Keep the per-term rows of students not in `gone` (the `onDelete('cascade')` of grade_student_id). */
  function DropStudentRows<V>(m: map<TermKey, V>, gone: set<StudentId>): (r: map<TermKey, V>)
    ensures forall k :: k in r <==> k in m && k.0 !in gone
    ensures forall k :: k in r ==> r[k] == m[k]
  {
    map k | k in m && k.0 !in gone :: m[k]
  }

  /** The per-term row of student `s`: the stored one, or `d`, the row `getOrCreate` would write. */
  function RowOr<V>(m: map<TermKey, V>, s: StudentId, term: int, d: V): (v: V)
    ensures (s, term) in m ==> v == m[(s, term)]
    ensures (s, term) !in m ==> v == d
  {
    if (s, term) in m then m[(s, term)] else d
  }

  /** Two reviews share the unique key (student, year, week). */
  predicate SameKey(a: Review, b: Review) {
    Key(a) == Key(b)
  }

  /** Dropping rows keeps the unique index satisfied. */
  lemma UniqueKeysOfSubmap(rs: Reviews, sub: Reviews)
    requires UniqueKeys(rs)
    requires forall id :: id in sub ==> id in rs && sub[id] == rs[id]
    ensures UniqueKeys(sub)
  {
  }

  /** Overwriting a row with one of the same key keeps the unique index satisfied. */
  lemma UniqueKeysAfterReplace(rs: Reviews, id: ReviewId, r: Review)
    requires UniqueKeys(rs) && id in rs && SameKey(rs[id], r)
    ensures UniqueKeys(rs[id := r])
  {
    var rs' := rs[id := r];
    forall a, b | a in rs' && b in rs' && a != b
      ensures Key(rs'[a]) != Key(rs'[b])
    {
      assert Key(rs'[a]) == Key(rs[a]) && Key(rs'[b]) == Key(rs[b]);
    }
  }

  /** Inserting a row whose key no row has keeps the unique index satisfied. */
  lemma UniqueKeysAfterInsert(rs: Reviews, id: ReviewId, r: Review)
    requires UniqueKeys(rs) && id !in rs && forall o :: o in rs ==> !SameKey(rs[o], r)
    ensures UniqueKeys(rs[id := r])
  {
  }

  /** Referential integrity, the unique indexes, the validated week range, and freshness of `nextId`. */
  ghost predicate Consistent(
    classes: map<ClassId, GradeClass>, students: map<StudentId, Student>,
    grades: map<TermKey, Grades>, tracking: map<TermKey, Tracking>, reviews: Reviews, nextId: nat)
  {
    (forall s :: s in students ==> students[s].classId in classes)
    && (forall k :: k in grades ==> k.0 in students)
    && (forall k :: k in tracking ==> k.0 in students)
    && (forall id :: id in reviews ==>
          reviews[id].studentId in students && reviews[id].classId in classes
          && 1 <= reviews[id].week <= 53)
    && UniqueKeys(reviews)
    && (forall id :: id in classes ==> id < nextId)
    && (forall id :: id in students ==> id < nextId)
    && (forall id :: id in reviews ==> id < nextId)
  }

  class Gradebook {
    var classes: map<ClassId, GradeClass>
    var students: map<StudentId, Student>
    var grades: map<TermKey, Grades>
    var tracking: map<TermKey, Tracking>
    var reviews: map<ReviewId, Review>
    /** The next fresh id; stands in for UUID generation and auto-increment. */
    var nextId: nat

    /** The tables are consistent (see `Consistent`). */
    ghost predicate Valid()
      reads this
    {
      Consistent(classes, students, grades, tracking, reviews, nextId)
    }

    constructor ()
      ensures Valid()
      ensures classes == map[] && students == map[] && grades == map[]
      ensures tracking == map[] && reviews == map[] && nextId == 0
    {
      classes, students, grades, tracking, reviews, nextId := map[], map[], map[], map[], map[], 0;
    }

    /** The class exists and `user` is its owner (`$gradeClass->user_id === Auth::id()`). */
    predicate Owns(user: UserId, c: ClassId)
      reads this
    {
      c in classes && classes[c].owner == user
    }

    /** The students of class `c` (`$gradeClass->students()`). */
    function ClassStudents(c: ClassId): (r: set<StudentId>)
      reads this
      ensures forall s :: s in r <==> s in students && students[s].classId == c
    {
      set s | s in students && students[s].classId == c
    }

    /** `$class->students()->max('sort_order') ?? 0`. */
    function MaxSortOrder(c: ClassId): (m: int)
      reads this
      ensures ClassStudents(c) == {} ==> m == 0
      ensures forall s :: s in ClassStudents(c) ==> students[s].sortOrder <= m
      ensures ClassStudents(c) != {} ==> exists s :: s in ClassStudents(c) && students[s].sortOrder == m
    {
      var members := ClassStudents(c);
      if members == {} then 0
      else
        var orders := set s | s in members :: students[s].sortOrder;
        assert forall s :: s in members ==> students[s].sortOrder in orders;
        Listing.Max(orders)
    }

    /** `getOrCreateTermGrades`: the row for (s, term), created with the defaults if missing. */
    method GetOrCreateTermGrades(s: StudentId, term: int) returns (g: Grades)
      requires Valid() && s in students
      modifies this
      ensures Valid()
      ensures (s, term) in old(grades) ==> grades == old(grades) && g == old(grades)[(s, term)]
      ensures (s, term) !in old(grades) ==> grades == old(grades)[(s, term) := DefaultGrades()] && g == DefaultGrades()
      ensures classes == old(classes) && students == old(students) && tracking == old(tracking)
      ensures reviews == old(reviews) && nextId == old(nextId)
    {
      if (s, term) in grades {
        g := grades[(s, term)];
      } else {
        g := DefaultGrades();
        grades := grades[(s, term) := g];
      }
    }

    /** `getOrCreateTermTracking`: the row for (s, term), created with both flags false if missing. */
    method GetOrCreateTermTracking(s: StudentId, term: int) returns (t: Tracking)
      requires Valid() && s in students
      modifies this
      ensures Valid()
      ensures (s, term) in old(tracking) ==> tracking == old(tracking) && t == old(tracking)[(s, term)]
      ensures (s, term) !in old(tracking) ==> tracking == old(tracking)[(s, term) := DefaultTracking()] && t == DefaultTracking()
      ensures classes == old(classes) && students == old(students) && grades == old(grades)
      ensures reviews == old(reviews) && nextId == old(nextId)
    {
      if (s, term) in tracking {
        t := tracking[(s, term)];
      } else {
        t := DefaultTracking();
        tracking := tracking[(s, term) := t];
      }
    }

    /** Write a tracking row in place (`$tracking->update(...)`). */
    method SetTracking(key: TermKey, t: Tracking)
      requires Valid() && key in tracking
      modifies this
      ensures Valid()
      ensures tracking == old(tracking)[key := t]
      ensures classes == old(classes) && students == old(students) && grades == old(grades)
      ensures reviews == old(reviews) && nextId == old(nextId)
    {
      tracking := tracking[key := t];
    }

    /** Write a grades row, creating it if missing (`updateOrCreate(['term' => ...], ...)`). */
    method PutGrades(key: TermKey, g: Grades)
      requires Valid() && key.0 in students
      modifies this
      ensures Valid()
      ensures grades == old(grades)[key := g]
      ensures classes == old(classes) && students == old(students) && tracking == old(tracking)
      ensures reviews == old(reviews) && nextId == old(nextId)
    {
      grades := grades[key := g];
    }

    /** `markInterrogated` on the stored tracking row. */
    method MarkInterrogatedRow(key: TermKey, now: Instant)
      requires Valid() && key in tracking
      modifies this
      ensures Valid()
      ensures tracking == old(tracking)[key := MarkInterrogated(old(tracking)[key], now)]
      ensures classes == old(classes) && students == old(students) && grades == old(grades)
      ensures reviews == old(reviews) && nextId == old(nextId)
    {
      SetTracking(key, MarkInterrogated(tracking[key], now));
    }

    /** `markNotebookChecked` on the stored tracking row. */
    method MarkNotebookCheckedRow(key: TermKey, now: Instant)
      requires Valid() && key in tracking
      modifies this
      ensures Valid()
      ensures tracking == old(tracking)[key := MarkNotebookChecked(old(tracking)[key], now)]
      ensures classes == old(classes) && students == old(students) && grades == old(grades)
      ensures reviews == old(reviews) && nextId == old(nextId)
    {
      SetTracking(key, MarkNotebookChecked(tracking[key], now));
    }

    /** `toggleInterrogation` on the stored tracking row. */
    method ToggleInterrogationRow(key: TermKey, now: Instant)
      requires Valid() && key in tracking
      modifies this
      ensures Valid()
      ensures tracking == old(tracking)[key := ToggleInterrogation(old(tracking)[key], now)]
      ensures classes == old(classes) && students == old(students) && grades == old(grades)
      ensures reviews == old(reviews) && nextId == old(nextId)
    {
      SetTracking(key, ToggleInterrogation(tracking[key], now));
    }

    /** `toggleNotebookChecked` on the stored tracking row. */
    method ToggleNotebookCheckedRow(key: TermKey, now: Instant)
      requires Valid() && key in tracking
      modifies this
      ensures Valid()
      ensures tracking == old(tracking)[key := ToggleNotebookChecked(old(tracking)[key], now)]
      ensures classes == old(classes) && students == old(students) && grades == old(grades)
      ensures reviews == old(reviews) && nextId == old(nextId)
    {
      SetTracking(key, ToggleNotebookChecked(tracking[key], now));
    }

    /**
     * `updateOrCreate` keyed by (student, year, week): the row with that key
     * becomes `r`, or a new row is inserted when there is none.
     */
    method UpsertReview(r: Review) returns (id: ReviewId)
      requires Valid()
      requires r.studentId in students && r.classId in classes && 1 <= r.week <= 53
      modifies this
      ensures Valid()
      ensures reviews == old(reviews)[id := r]
      ensures id in old(reviews) ==> SameKey(old(reviews)[id], r) && nextId == old(nextId)
      ensures id !in old(reviews) ==>
                id == old(nextId) && nextId == old(nextId) + 1
                && forall o :: o in old(reviews) ==> !SameKey(old(reviews)[o], r)
      ensures classes == old(classes) && students == old(students)
      ensures grades == old(grades) && tracking == old(tracking)
    {
      if existing :| existing in reviews && SameKey(reviews[existing], r) {
        id := existing;
        UniqueKeysAfterReplace(reviews, id, r);
        reviews := reviews[id := r];
      } else {
        id := nextId;
        UniqueKeysAfterInsert(reviews, id, r);
        reviews := reviews[id := r];
        nextId := nextId + 1;
      }
    }

    /** Write a stored review in place (`$review->update(...)`), its key unchanged. */
    method SetReview(id: ReviewId, r: Review)
      requires Valid() && id in reviews && SameKey(reviews[id], r) && r.classId in classes
      modifies this
      ensures Valid()
      ensures reviews == old(reviews)[id := r]
      ensures classes == old(classes) && students == old(students)
      ensures grades == old(grades) && tracking == old(tracking) && nextId == old(nextId)
    {
      reviews := reviews[id := r];
    }

    /** `markResolved` on a stored review. */
    method MarkResolvedRow(id: ReviewId, now: Instant)
      requires Valid() && id in reviews
      modifies this
      ensures Valid()
      ensures reviews == old(reviews)[id := MarkResolved(old(reviews)[id], now)]
      ensures classes == old(classes) && students == old(students)
      ensures grades == old(grades) && tracking == old(tracking) && nextId == old(nextId)
    {
      SetReview(id, MarkResolved(reviews[id], now));
    }

    /** Delete a review. */
    method DeleteReview(id: ReviewId)
      requires Valid()
      modifies this
      ensures Valid()
      ensures reviews == old(reviews) - {id}
      ensures classes == old(classes) && students == old(students)
      ensures grades == old(grades) && tracking == old(tracking) && nextId == old(nextId)
    {
      reviews := reviews - {id};
    }

    /** Insert a class under a fresh id. */
    method InsertClass(c: GradeClass) returns (id: ClassId)
      requires Valid()
      modifies this
      ensures Valid()
      ensures id == old(nextId) && id !in old(classes) && nextId == old(nextId) + 1
      ensures classes == old(classes)[id := c]
      ensures students == old(students) && grades == old(grades)
      ensures tracking == old(tracking) && reviews == old(reviews)
    {
      id := nextId;
      classes := classes[id := c];
      nextId := nextId + 1;
    }

    /** Write a stored class in place. */
    method SetClass(id: ClassId, c: GradeClass)
      requires Valid() && id in classes
      modifies this
      ensures Valid()
      ensures classes == old(classes)[id := c]
      ensures students == old(students) && grades == old(grades)
      ensures tracking == old(tracking) && reviews == old(reviews) && nextId == old(nextId)
    {
      classes := classes[id := c];
    }

    /** Insert a student under a fresh id. */
    method InsertStudent(st: Student) returns (id: StudentId)
      requires Valid() && st.classId in classes
      modifies this
      ensures Valid()
      ensures id == old(nextId) && id !in old(students) && nextId == old(nextId) + 1
      ensures students == old(students)[id := st]
      ensures classes == old(classes) && grades == old(grades)
      ensures tracking == old(tracking) && reviews == old(reviews)
    {
      id := nextId;
      students := students[id := st];
      nextId := nextId + 1;
    }

    /** Set one student's `sort_order`, nothing else. */
    method SetSortOrder(id: StudentId, pos: int)
      requires Valid() && id in students
      modifies this
      ensures Valid()
      ensures students == old(students)[id := old(students)[id].(sortOrder := pos)]
      ensures classes == old(classes) && grades == old(grades)
      ensures tracking == old(tracking) && reviews == old(reviews) && nextId == old(nextId)
    {
      students := students[id := students[id].(sortOrder := pos)];
    }

    /** Write a stored student in place. */
    method SetStudent(id: StudentId, st: Student)
      requires Valid() && id in students && st.classId in classes
      modifies this
      ensures Valid()
      ensures students == old(students)[id := st]
      ensures classes == old(classes) && grades == old(grades)
      ensures tracking == old(tracking) && reviews == old(reviews) && nextId == old(nextId)
    {
      students := students[id := st];
    }

    /** Delete a student with its grades, tracking rows and weekly reviews. */
    method DeleteStudent(id: StudentId)
      requires Valid()
      modifies this
      ensures Valid()
      ensures students == old(students) - {id}
      ensures grades == DropStudentRows(old(grades), {id})
      ensures tracking == DropStudentRows(old(tracking), {id})
      ensures reviews == ReviewsNotOf(old(reviews), {id})
      ensures classes == old(classes) && nextId == old(nextId)
    {
      StudentCascadeConsistent(classes, students, grades, tracking, reviews, nextId, id);
      students := students - {id};
      grades, tracking := DropStudentRows(grades, {id}), DropStudentRows(tracking, {id});
      reviews := ReviewsNotOf(reviews, {id});
    }

    /** Delete a class with its students and everything that cascades from them. */
    method DeleteClass(c: ClassId)
      requires Valid()
      modifies this
      ensures Valid()
      ensures classes == old(classes) - {c}
      ensures students == StudentsOutside(old(students), c)
      ensures grades == DropStudentRows(old(grades), old(ClassStudents(c)))
      ensures tracking == DropStudentRows(old(tracking), old(ClassStudents(c)))
      ensures reviews == ReviewsOutside(old(reviews), c, old(ClassStudents(c)))
      ensures nextId == old(nextId)
    {
      var gone := ClassStudents(c);
      ClassCascadeConsistent(classes, students, grades, tracking, reviews, nextId, c, gone);
      classes, students := classes - {c}, StudentsOutside(students, c);
      grades, tracking := DropStudentRows(grades, gone), DropStudentRows(tracking, gone);
      reviews := ReviewsOutside(reviews, c, gone);
    }
  }

  /** `r` lists students by non-decreasing `sort_order`. */
  predicate BySortOrder(students: map<StudentId, Student>, r: seq<StudentId>) {
    forall i, j :: 0 <= i < j < |r| ==>
      (r[i] in students && r[j] in students && students[r[i]].sortOrder <= students[r[j]].sortOrder)
  }

  /** The students of class `c` in `sort_order` order (the `students()` relation of GradeClass). */
  function RosterOf(students: map<StudentId, Student>, c: ClassId): (r: seq<StudentId>)
    ensures forall s :: s in r <==> s in students && students[s].classId == c
    ensures Listing.Distinct(r)
    ensures BySortOrder(students, r)
  {
    Listing.SelectSorted(students, (st: Student) => st.classId == c, (st: Student) => st.sortOrder)
  }

  /** The students not in class `c`. */
  function StudentsOutside(students: map<StudentId, Student>, c: ClassId): (r: map<StudentId, Student>)
    ensures forall s :: s in r <==> s in students && students[s].classId != c
    ensures forall s :: s in r ==> r[s] == students[s]
  {
    map s | s in students && students[s].classId != c :: students[s]
  }

  /** The reviews neither of class `c` nor of a student in `gone`. */
  function ReviewsOutside(rs: Reviews, c: ClassId, gone: set<StudentId>): (r: Reviews)
    ensures forall id :: id in r <==> id in rs && rs[id].classId != c && rs[id].studentId !in gone
    ensures forall id :: id in r ==> r[id] == rs[id]
  {
    map id | id in rs && rs[id].classId != c && rs[id].studentId !in gone :: rs[id]
  }

  /** The reviews of students not in `gone`. */
  function ReviewsNotOf(rs: Reviews, gone: set<StudentId>): (r: Reviews)
    ensures forall id :: id in r <==> id in rs && rs[id].studentId !in gone
    ensures forall id :: id in r ==> r[id] == rs[id]
  {
    map id | id in rs && rs[id].studentId !in gone :: rs[id]
  }

  /** Deleting a student with the rows that cascade from it keeps the tables consistent. */
  lemma StudentCascadeConsistent(
    classes: map<ClassId, GradeClass>, students: map<StudentId, Student>,
    grades: map<TermKey, Grades>, tracking: map<TermKey, Tracking>, reviews: Reviews,
    nextId: nat, s: StudentId)
    requires Consistent(classes, students, grades, tracking, reviews, nextId)
    ensures Consistent(classes, students - {s}, DropStudentRows(grades, {s}),
                       DropStudentRows(tracking, {s}), ReviewsNotOf(reviews, {s}), nextId)
  {
    var rs := ReviewsNotOf(reviews, {s});
    UniqueKeysOfSubmap(reviews, rs);
    forall k | k in DropStudentRows(grades, {s}) ensures k.0 in students - {s} {
      assert k in grades;
    }
    forall k | k in DropStudentRows(tracking, {s}) ensures k.0 in students - {s} {
      assert k in tracking;
    }
    forall id | id in rs ensures rs[id].studentId in students - {s} {
      assert id in reviews;
    }
  }

  /** Deleting a class with the rows that cascade from it keeps the tables consistent. */
  lemma ClassCascadeConsistent(
    classes: map<ClassId, GradeClass>, students: map<StudentId, Student>,
    grades: map<TermKey, Grades>, tracking: map<TermKey, Tracking>, reviews: Reviews,
    nextId: nat, c: ClassId, gone: set<StudentId>)
    requires Consistent(classes, students, grades, tracking, reviews, nextId)
    requires forall s :: s in gone <==> s in students && students[s].classId == c
    ensures Consistent(classes - {c}, StudentsOutside(students, c), DropStudentRows(grades, gone),
                       DropStudentRows(tracking, gone), ReviewsOutside(reviews, c, gone), nextId)
  {
    var kept := StudentsOutside(students, c);
    var rs := ReviewsOutside(reviews, c, gone);
    UniqueKeysOfSubmap(reviews, rs);
    forall k | k in DropStudentRows(grades, gone) ensures k.0 in kept {
      assert k in grades && k.0 !in gone;
    }
    forall k | k in DropStudentRows(tracking, gone) ensures k.0 in kept {
      assert k in tracking && k.0 !in gone;
    }
    forall id | id in rs ensures rs[id].studentId in kept {
      assert id in reviews && reviews[id].studentId !in gone;
    }
  }
}
