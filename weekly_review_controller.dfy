/**
 * StudentWeeklyReviewController: the class summary for the current and the
 * previous ISO week, the filtered listing, the batch upsert, and the
 * update, resolve and delete actions on one review. Every action first
 * checks that the class belongs to the caller.
 */
module WeeklyReviewController {
  import opened Wrappers
  import opened IsoWeek
  import opened WeeklyReview
  import opened GradeRecords
  import opened GradebookDb
  import opened ReviewUpserts
  import opened Http
  import opened Access
  import Listing

  // ---------------------------------------------------------------- summary

  /** The fields of this week's review shown in the summary. */
  datatype ThisWeekView = ThisWeekView(
    id: ReviewId,
    observation: Observation,
    notebookChecked: bool,
    lessonWritten: bool,
    homeworkDone: bool,
    score: Option<int>,
    notes: Option<string>)

  /** The fields of last week's review shown in the summary. */
  datatype LastReviewView = LastReviewView(
    id: ReviewId,
    week: int,
    year: int,
    observation: Observation,
    alertResolved: bool)

  /** One student's line of the summary. */
  datatype StudentSummary = StudentSummary(
    reviewedThisWeek: bool,
    reviewedLastWeek: bool,
    thisWeekReview: Option<ThisWeekView>,
    lastReview: Option<LastReviewView>,
    hasPendingAlert: bool)

  /** The review belongs to class `c` and student `s` and is for ISO week `w`. */
  predicate InWeek(r: Review, c: ClassId, s: StudentId, w: WeekInfo) {
    r.classId == c && r.studentId == s && r.year == w.year && r.week == w.week
  }

  function ThisWeekViewOf(id: ReviewId, r: Review): ThisWeekView {
    ThisWeekView(id, r.observation, r.notebookChecked, r.lessonWritten, r.homeworkDone, r.score, r.notes)
  }

  function LastReviewViewOf(id: ReviewId, r: Review): LastReviewView {
    LastReviewView(id, r.week, r.year, r.observation, r.alertResolved)
  }

  /**
   * What the summary promises for student `s`: the two flags say whether a
   * review of the class exists for the current and for the previous week,
   * the two views are present exactly then and show that review, and the
   * alert is pending exactly when last week's review has a pending alert
   * and there is no review this week.
   */
  ghost predicate SummaryFaithful(rs: Reviews, c: ClassId, s: StudentId, current: WeekInfo, last: WeekInfo, e: StudentSummary) {
    (e.reviewedThisWeek <==> exists id :: id in rs && InWeek(rs[id], c, s, current))
    && (e.reviewedLastWeek <==> exists id :: id in rs && InWeek(rs[id], c, s, last))
    && (e.thisWeekReview.Some? <==> e.reviewedThisWeek)
    && (e.lastReview.Some? <==> e.reviewedLastWeek)
    && (e.thisWeekReview.Some? ==>
          exists id :: id in rs && InWeek(rs[id], c, s, current) && e.thisWeekReview.value == ThisWeekViewOf(id, rs[id]))
    && (e.lastReview.Some? ==>
          exists id :: id in rs && InWeek(rs[id], c, s, last) && e.lastReview.value == LastReviewViewOf(id, rs[id]))
    && (e.hasPendingAlert <==>
          !e.reviewedThisWeek && exists id :: id in rs && InWeek(rs[id], c, s, last) && HasPendingAlert(rs[id]))
  }

  /** The review of student `s` in class `c` for week `w`, if any (`$studentReviews->first(...)`). */
  method FindWeekReview(rs: Reviews, c: ClassId, s: StudentId, w: WeekInfo) returns (found: Option<ReviewId>)
    ensures found.Some? ==> found.value in rs && InWeek(rs[found.value], c, s, w)
    ensures found.None? ==> forall id :: id in rs ==> !InWeek(rs[id], c, s, w)
  {
    if id :| id in rs && InWeek(rs[id], c, s, w) {
      found := Some(id);
    } else {
      found := None;
    }
  }

  /** The summary line of one student. */
  method SummarizeStudent(rs: Reviews, c: ClassId, s: StudentId, current: WeekInfo, last: WeekInfo)
    returns (e: StudentSummary)
    requires UniqueKeys(rs)
    ensures SummaryFaithful(rs, c, s, current, last, e)
  {
    var thisWeek := FindWeekReview(rs, c, s, current);
    var lastWeek := FindWeekReview(rs, c, s, last);
    var pending := false;
    if lastWeek.Some? && HasPendingAlert(rs[lastWeek.value]) && thisWeek.None? {
      pending := true;
    }
    if pending {
      assert InWeek(rs[lastWeek.value], c, s, last) && HasPendingAlert(rs[lastWeek.value]);
    } else if thisWeek.None? && lastWeek.Some? {
      forall id | id in rs && InWeek(rs[id], c, s, last) ensures !HasPendingAlert(rs[id]) {
        assert Key(rs[id]) == Key(rs[lastWeek.value]);
        assert id == lastWeek.value;
      }
    }
    e := StudentSummary(
      thisWeek.Some?,
      lastWeek.Some?,
      if thisWeek.Some? then Some(ThisWeekViewOf(thisWeek.value, rs[thisWeek.value])) else None,
      if lastWeek.Some? then Some(LastReviewViewOf(lastWeek.value, rs[lastWeek.value])) else None,
      pending);
  }

  /** `summary`: one line per student of the class, for the current and the previous ISO week. */
  method Summary(db: Gradebook, user: UserId, c: ClassId, now: Instant)
    returns (status: Status, current: WeekInfo, last: WeekInfo, entries: map<StudentId, StudentSummary>)
    requires db.Valid()
    ensures status == NotFound <==> c !in db.classes
    ensures status == Forbidden <==> c in db.classes && db.classes[c].owner != user
    ensures status == Success || status == NotFound || status == Forbidden
    ensures status != Success ==> entries == map[]
    ensures status == Success ==>
              current == CurrentWeek(DayOf(now)) && last == LastWeek(DayOf(now))
              && entries.Keys == db.ClassStudents(c)
              && forall s :: s in entries ==> SummaryFaithful(db.reviews, c, s, current, last, entries[s])
  {
    current, last := CurrentWeek(DayOf(now)), LastWeek(DayOf(now));
    entries := map[];
    if c !in db.classes {
      return NotFound, current, last, entries;
    }
    if db.classes[c].owner != user {
      return Forbidden, current, last, entries;
    }
    var roster := db.ClassStudents(c);
    var remaining := roster;
    while remaining != {}
      invariant remaining <= roster
      invariant entries.Keys == roster - remaining
      invariant forall s :: s in entries ==> SummaryFaithful(db.reviews, c, s, current, last, entries[s])
      decreases remaining
    {
      var s :| s in remaining;
      var e := SummarizeStudent(db.reviews, c, s, current, last);
      entries := entries[s := e];
      remaining := remaining - {s};
    }
    status := Success;
  }

  // ------------------------------------------------------------------ index

  /** The listing filters: year and week together, one student, pending alerts only. */
  predicate IndexSelects(r: Review, c: ClassId, year: Option<int>, week: Option<int>,
                         student: Option<StudentId>, pendingOnly: bool) {
    r.classId == c
    && (year.Some? && week.Some? ==> r.year == year.value && r.week == week.value)
    && (student.Some? ==> r.studentId == student.value)
    && (pendingOnly ==> HasPendingAlert(r))
  }

  /** The reviews `ids`, newest (year, week) first (`orderBy('year', 'desc')->orderBy('week', 'desc')`). */
  function NewestFirst(rs: Reviews, ids: set<ReviewId>): (rows: seq<ReviewId>)
    requires forall id :: id in ids ==> id in rs && 1 <= rs[id].week <= 53
    ensures forall id :: id in rows <==> id in ids
    ensures Listing.Distinct(rows)
    ensures forall i, j :: 0 <= i < j < |rows| ==> WeekNotAfter(rs[rows[j]], rs[rows[i]])
  {
    var key := (id: ReviewId) => if id in rs then -WeekOrdinal(rs[id]) else 0;
    var sorted := Listing.Ascending(ids);
    var rows := Listing.SortBy(sorted, key);
    Listing.DistinctPermutation(sorted, rows);
    assert forall id :: id in rows <==> id in sorted by {
      forall id ensures id in rows <==> id in sorted {
        assert id in rows <==> id in multiset(rows);
        assert id in sorted <==> id in multiset(sorted);
      }
    }
    assert forall i, j :: 0 <= i < j < |rows| ==> WeekNotAfter(rs[rows[j]], rs[rows[i]]) by {
      forall i, j | 0 <= i < j < |rows| ensures WeekNotAfter(rs[rows[j]], rs[rows[i]]) {
        assert key(rows[i]) <= key(rows[j]);
        WeekOrdinalOrder(rs[rows[j]], rs[rows[i]]);
      }
    }
    rows
  }

  /** `index`: the class's reviews under the filters, newest (year, week) first. */
  method Index(db: Gradebook, user: UserId, c: ClassId, year: Option<int>, week: Option<int>,
               student: Option<StudentId>, pendingOnly: bool)
    returns (status: Status, rows: seq<ReviewId>)
    requires db.Valid()
    ensures status == NotFound <==> c !in db.classes
    ensures status == Forbidden <==> c in db.classes && db.classes[c].owner != user
    ensures status == Success || status == NotFound || status == Forbidden
    ensures status != Success ==> rows == []
    ensures status == Success ==>
              (forall id :: id in rows <==> id in db.reviews && IndexSelects(db.reviews[id], c, year, week, student, pendingOnly))
              && Listing.Distinct(rows)
              && forall i, j :: 0 <= i < j < |rows| ==> WeekNotAfter(db.reviews[rows[j]], db.reviews[rows[i]])
  {
    if c !in db.classes {
      return NotFound, [];
    }
    if db.classes[c].owner != user {
      return Forbidden, [];
    }
    var rs := db.reviews;
    var selected := set id | id in rs && IndexSelects(rs[id], c, year, week, student, pendingOnly);
    rows := NewestFirst(rs, selected);
    status := Success;
  }

  // ------------------------------------------------------------ batchStore

  /**
   * One element of the `reviews` array. The three flags and `observationType`
   * tell an absent key (`None`) from an explicit null (`Some(None)`), which
   * their rules reject; `score` and `notes` are nullable, so for them absent
   * and null are both `None`.
   */
  datatype ReviewInput = ReviewInput(
    studentId: StudentId,
    notebookChecked: Option<Option<bool>>,
    lessonWritten: Option<Option<bool>>,
    homeworkDone: Option<Option<bool>>,
    score: Option<int>,
    observationType: Option<Option<string>>,
    notes: Option<string>)

  /** A `sometimes` rule without `nullable` on a sent key: the value may not be null. */
  predicate NotNull<T>(o: Option<Option<T>>) {
    o.Some? ==> o.value.Some?
  }

  /** A sent `observation_type` names a known observation. */
  predicate ObservationSent(o: Option<Option<string>>) {
    o.Some? ==> o.value.Some? && ParseObservation(o.value.value).Some?
  }

  /**
   * The per-item rules: a student of this class, no null flag, score 0..20,
   * a known observation, notes of at most 1000 characters.
   */
  predicate ItemValid(students: map<StudentId, Student>, c: ClassId, item: ReviewInput) {
    item.studentId in students && students[item.studentId].classId == c
    && NotNull(item.notebookChecked) && NotNull(item.lessonWritten) && NotNull(item.homeworkDone)
    && (item.score.Some? ==> 0 <= item.score.value <= 2000)
    && ObservationSent(item.observationType)
    && (item.notes.Some? ==> |item.notes.value| <= 1000)
  }

  /** The request rules of `batchStore`. */
  predicate BatchValid(students: map<StudentId, Student>, c: ClassId, year: int, week: int, items: seq<ReviewInput>) {
    2020 <= year <= 2100 && 1 <= week <= 53 && |items| >= 1
    && forall i :: 0 <= i < |items| ==> ItemValid(students, c, items[i])
  }

  /** The row `updateOrCreate` writes for one item: omitted fields take their defaults and the alert reopens. */
  function ReviewFromInput(item: ReviewInput, c: ClassId, user: UserId, year: int, week: int, weekStart: Day): (r: Review)
    ensures r.studentId == item.studentId && r.year == year && r.week == week
    ensures r.classId == c && r.teacherId == user && r.weekStart == weekStart
    ensures r.notebookChecked == (item.notebookChecked == Some(Some(true)))
    ensures r.lessonWritten == (item.lessonWritten != Some(Some(false)))
    ensures r.homeworkDone == (item.homeworkDone != Some(Some(false)))
    ensures r.score == item.score && r.notes == item.notes
    ensures item.observationType.None? ==> r.observation == Ok
    ensures ObservationSent(item.observationType) && item.observationType.Some? ==>
              ObservationName(r.observation) == item.observationType.value.value
    ensures !r.alertResolved && r.resolvedAt.None? && !(HasPendingAlert(r) && r.observation == Ok)
  {
    Review(item.studentId, c, user, year, week, weekStart,
      item.notebookChecked.GetOr(None).GetOr(false),
      item.lessonWritten.GetOr(None).GetOr(true),
      item.homeworkDone.GetOr(None).GetOr(true),
      item.score,
      match item.observationType case Some(Some(v)) => ParseObservation(v).GetOr(Ok) case _ => Ok,
      item.notes,
      false,
      None)
  }

  /** The rows `batchStore` writes, one per item, in order. */
  function BatchRows(items: seq<ReviewInput>, c: ClassId, user: UserId, year: int, week: int): (rows: seq<Review>)
    ensures |rows| == |items|
    ensures forall i :: 0 <= i < |items| ==>
              rows[i] == ReviewFromInput(items[i], c, user, year, week, CalculateWeekStartDate(year, week))
  {
    var weekStart := CalculateWeekStartDate(year, week);
    seq(|items|, i requires 0 <= i < |items| => ReviewFromInput(items[i], c, user, year, week, weekStart))
  }

  /**
   * The transaction of `batchStore`: one `updateOrCreate` per row, in order.
   * The `foreach` is unrolled from the end: the earlier rows are saved
   * first, then the last one.
   */
  method StoreAll(db: Gradebook, rows: seq<Review>) returns (saved: seq<(ReviewId, Review)>)
    requires db.Valid()
    requires forall i :: 0 <= i < |rows| ==>
               rows[i].studentId in db.students && rows[i].classId in db.classes && 1 <= rows[i].week <= 53
    modifies db
    ensures db.Valid()
    ensures db.classes == old(db.classes) && db.students == old(db.students)
    ensures db.grades == old(db.grades) && db.tracking == old(db.tracking)
    ensures SavedRows(saved) == rows
    ensures Upserted(old(db.reviews), db.reviews, saved)
    decreases |rows|
  {
    if rows == [] {
      saved := [];
    } else {
      var n := |rows| - 1;
      saved := StoreAll(db, rows[..n]);
      saved := SaveOne(db, old(db.reviews), saved, rows[n]);
      assert rows[..n] + [rows[n]] == rows;
    }
  }

  /**
   * `batchStore`: after validation, each item is upserted by (student, year,
   * week) in order. The result lists each item's row as it was saved; the
   * table keeps, for each student, the row of the last item naming them.
   */
  method BatchStore(db: Gradebook, user: UserId, c: ClassId, year: int, week: int, items: seq<ReviewInput>)
    returns (status: Status, saved: seq<(ReviewId, Review)>)
    requires db.Valid()
    modifies db
    ensures db.Valid()
    ensures status == NotFound <==> c !in old(db.classes)
    ensures status == Forbidden <==> c in old(db.classes) && old(db.classes)[c].owner != user
    ensures status == Unprocessable <==>
              c in old(db.classes) && old(db.classes)[c].owner == user && !BatchValid(old(db.students), c, year, week, items)
    ensures status == Created || status == NotFound || status == Forbidden || status == Unprocessable
    ensures status != Created ==> saved == [] && db.reviews == old(db.reviews) && db.nextId == old(db.nextId)
    ensures db.classes == old(db.classes) && db.students == old(db.students)
    ensures db.grades == old(db.grades) && db.tracking == old(db.tracking)
    ensures status == Created ==>
              |saved| == |items|
              && (forall i :: 0 <= i < |items| ==>
                    saved[i].1 == ReviewFromInput(items[i], c, user, year, week, CalculateWeekStartDate(year, week)))
              && Upserted(old(db.reviews), db.reviews, saved)
  {
    saved := [];
    if c !in db.classes {
      return NotFound, saved;
    }
    if db.classes[c].owner != user {
      return Forbidden, saved;
    }
    if !BatchValid(db.students, c, year, week, items) {
      return Unprocessable, saved;
    }
    saved := StoreAll(db, BatchRows(items, c, user, year, week));
    status := Created;
  }

  // ----------------------------------------------------------------- update

  /** The editable fields of `update`; each tells absent (`None`) from null (`Some(None)`). */
  datatype ReviewPatch = ReviewPatch(
    notebookChecked: Option<Option<bool>>,
    lessonWritten: Option<Option<bool>>,
    homeworkDone: Option<Option<bool>>,
    score: Option<Option<int>>,
    observationType: Option<Option<string>>,
    notes: Option<Option<string>>)

  /** The request rules of `update`: only `score` and `notes` may be null. */
  predicate PatchValid(p: ReviewPatch) {
    NotNull(p.notebookChecked) && NotNull(p.lessonWritten) && NotNull(p.homeworkDone)
    && (p.score.Some? && p.score.value.Some? ==> 0 <= p.score.value.value <= 2000)
    && ObservationSent(p.observationType)
    && (p.notes.Some? && p.notes.value.Some? ==> |p.notes.value.value| <= 1000)
  }

  /** The row after `update`: supplied fields replaced, every other field, the alert fields included, kept. */
  function ApplyPatch(r: Review, p: ReviewPatch): (r': Review)
    requires PatchValid(p)
    ensures r'.notebookChecked == p.notebookChecked.GetOr(Some(r.notebookChecked)).value
    ensures r'.lessonWritten == p.lessonWritten.GetOr(Some(r.lessonWritten)).value
    ensures r'.homeworkDone == p.homeworkDone.GetOr(Some(r.homeworkDone)).value
    ensures r'.score == p.score.GetOr(r.score) && r'.notes == p.notes.GetOr(r.notes)
    ensures p.observationType.None? ==> r'.observation == r.observation
    ensures p.observationType.Some? ==> ObservationName(r'.observation) == p.observationType.value.value
    ensures r'.alertResolved == r.alertResolved && r'.resolvedAt == r.resolvedAt
    ensures SameKey(r', r) && r'.classId == r.classId && r'.teacherId == r.teacherId && r'.weekStart == r.weekStart
  {
    r.(notebookChecked := p.notebookChecked.GetOr(Some(r.notebookChecked)).value,
       lessonWritten := p.lessonWritten.GetOr(Some(r.lessonWritten)).value,
       homeworkDone := p.homeworkDone.GetOr(Some(r.homeworkDone)).value,
       score := p.score.GetOr(r.score),
       observation := if p.observationType.Some? then ParseObservation(p.observationType.value.value).value else r.observation,
       notes := p.notes.GetOr(r.notes))
  }

  /** An empty patch changes nothing. */
  lemma EmptyPatchIsIdentity(r: Review)
    ensures ApplyPatch(r, ReviewPatch(None, None, None, None, None, None)) == r
  {
  }

  /** `update`: a partial patch of one review by the owner of its class. */
  method Update(db: Gradebook, user: UserId, id: ReviewId, p: ReviewPatch) returns (status: Status)
    requires db.Valid()
    modifies db
    ensures db.Valid()
    ensures old(ReviewAccess(db, user, id)) != Success ==> status == old(ReviewAccess(db, user, id))
    ensures old(ReviewAccess(db, user, id)) == Success ==> status == (if PatchValid(p) then Success else Unprocessable)
    ensures status == Success ==> db.reviews == old(db.reviews)[id := ApplyPatch(old(db.reviews)[id], p)]
    ensures status != Success ==> db.reviews == old(db.reviews)
    ensures db.classes == old(db.classes) && db.students == old(db.students) && db.grades == old(db.grades)
    ensures db.tracking == old(db.tracking) && db.nextId == old(db.nextId)
  {
    status := ReviewAccess(db, user, id);
    if status != Success {
      return;
    }
    if !PatchValid(p) {
      return Unprocessable;
    }
    db.SetReview(id, ApplyPatch(db.reviews[id], p));
  }

  /** `resolve`: the owner of the class closes the review's alert at `now`. */
  method Resolve(db: Gradebook, user: UserId, id: ReviewId, now: Instant) returns (status: Status)
    requires db.Valid()
    modifies db
    ensures db.Valid()
    ensures status == old(ReviewAccess(db, user, id))
    ensures status == Success ==> db.reviews == old(db.reviews)[id := MarkResolved(old(db.reviews)[id], now)]
    ensures status != Success ==> db.reviews == old(db.reviews)
    ensures db.classes == old(db.classes) && db.students == old(db.students) && db.grades == old(db.grades)
    ensures db.tracking == old(db.tracking) && db.nextId == old(db.nextId)
  {
    status := ReviewAccess(db, user, id);
    if status == Success {
      db.MarkResolvedRow(id, now);
    }
  }

  /** `destroy`: the owner of the class deletes the review. */
  method Destroy(db: Gradebook, user: UserId, id: ReviewId) returns (status: Status)
    requires db.Valid()
    modifies db
    ensures db.Valid()
    ensures status == old(ReviewAccess(db, user, id))
    ensures status == Success ==> db.reviews == old(db.reviews) - {id}
    ensures status != Success ==> db.reviews == old(db.reviews)
    ensures db.classes == old(db.classes) && db.students == old(db.students) && db.grades == old(db.grades)
    ensures db.tracking == old(db.tracking) && db.nextId == old(db.nextId)
  {
    status := ReviewAccess(db, user, id);
    if status == Success {
      db.DeleteReview(id);
    }
  }
}
