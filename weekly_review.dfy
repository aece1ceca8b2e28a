/**
 * The StudentWeeklyReview record: one teacher's weekly check of one student's
 * notebook, lesson and homework, with an observation and an alert that stays
 * pending until it is resolved.
 */
module WeeklyReview {
  import opened Wrappers
  import opened IsoWeek

  type UserId = nat
  type ClassId = nat
  type StudentId = nat
  type ReviewId = nat
  /** A timestamp in seconds since 1970-01-01 00:00 UTC. */
  type Instant = int

  /** The day an instant falls on (the clock is taken in UTC). */
  function DayOf(now: Instant): (d: Day)
    ensures d * 86400 <= now < d * 86400 + 86400
  {
    now / 86400
  }

  /** The seven observation types, stored in the database as upper-case strings. */
  datatype Observation =
    | Ok
    | NoNotebook
    | LessonNotWritten
    | Incomplete
    | HomeworkMissing
    | CommunicationNote
    | MultipleIssues

  /** The stored string of each observation type. */
  function ObservationName(o: Observation): string {
    match o
    case Ok => "OK"
    case NoNotebook => "NO_NOTEBOOK"
    case LessonNotWritten => "LESSON_NOT_WRITTEN"
    case Incomplete => "INCOMPLETE"
    case HomeworkMissing => "HOMEWORK_MISSING"
    case CommunicationNote => "COMMUNICATION_NOTE"
    case MultipleIssues => "MULTIPLE_ISSUES"
  }

  /** The list of valid observation types, in declaration order. */
  const ObservationTypes: seq<Observation> :=
    [Ok, NoNotebook, LessonNotWritten, Incomplete, HomeworkMissing, CommunicationNote, MultipleIssues]

  /** The list holds every observation type exactly once. */
  lemma ObservationTypesComplete(o: Observation)
    ensures o in ObservationTypes
    ensures multiset(ObservationTypes)[o] == 1
  {
  }

  /** The `in:` validation rule over the observation list: a string is accepted exactly when it names a type. */
  function ParseObservation(s: string): (r: Option<Observation>)
    ensures r.Some? ==> ObservationName(r.value) == s
    ensures r.None? ==> forall o :: ObservationName(o) != s
  {
    if s == "OK" then Some(Ok)
    else if s == "NO_NOTEBOOK" then Some(NoNotebook)
    else if s == "LESSON_NOT_WRITTEN" then Some(LessonNotWritten)
    else if s == "INCOMPLETE" then Some(Incomplete)
    else if s == "HOMEWORK_MISSING" then Some(HomeworkMissing)
    else if s == "COMMUNICATION_NOTE" then Some(CommunicationNote)
    else if s == "MULTIPLE_ISSUES" then Some(MultipleIssues)
    else None
  }

  /** Every stored name parses back to its type. */
  lemma ObservationRoundTrip(o: Observation)
    ensures ParseObservation(ObservationName(o)) == Some(o)
  {
  }

  /** A row of the student_weekly_reviews table; the score is in hundredths of a point. */
  datatype Review = Review(
    studentId: StudentId,
    classId: ClassId,
    teacherId: UserId,
    year: int,
    week: int,
    weekStart: Day,
    notebookChecked: bool,
    lessonWritten: bool,
    homeworkDone: bool,
    score: Option<int>,
    observation: Observation,
    notes: Option<string>,
    alertResolved: bool,
    resolvedAt: Option<Instant>)

  /** The review has an issue: its observation is anything but OK. */
  predicate HasIssue(r: Review) {
    r.observation != Ok
  }

  /** `hasIssue` compares the stored string with "OK". */
  lemma HasIssueByName(r: Review)
    ensures HasIssue(r) <==> ObservationName(r.observation) != "OK"
  {
  }

  /** The alert is pending: there is an issue and it is not resolved. */
  predicate HasPendingAlert(r: Review) {
    HasIssue(r) && !r.alertResolved
  }

  /** An OK review never raises an alert. */
  lemma OkHasNoAlert(r: Review)
    requires r.observation == Ok
    ensures !HasPendingAlert(r)
  {
  }

  /** `markResolved`: the alert is closed at `now`. */
  function MarkResolved(r: Review, now: Instant): (r': Review)
    ensures r'.alertResolved && r'.resolvedAt == Some(now)
    ensures !HasPendingAlert(r')
    ensures r'.(alertResolved := r.alertResolved, resolvedAt := r.resolvedAt) == r
  {
    r.(alertResolved := true, resolvedAt := Some(now))
  }

  /** The reviews table. */
  type Reviews = map<ReviewId, Review>

  /** `scopeForClass`. */
  function ForClass(rs: Reviews, c: ClassId): Reviews {
    map id | id in rs && rs[id].classId == c :: rs[id]
  }

  /** `scopeForWeek`. */
  function ForWeek(rs: Reviews, year: int, week: int): Reviews {
    map id | id in rs && rs[id].year == year && rs[id].week == week :: rs[id]
  }

  /** `scopeForStudent`. */
  function ForStudent(rs: Reviews, s: StudentId): Reviews {
    map id | id in rs && rs[id].studentId == s :: rs[id]
  }

  /** `scopeWithIssues`: observation different from OK. */
  function WithIssues(rs: Reviews): Reviews {
    map id | id in rs && rs[id].observation != Ok :: rs[id]
  }

  /** `scopeUnresolved`: alert not resolved. */
  function Unresolved(rs: Reviews): Reviews {
    map id | id in rs && !rs[id].alertResolved :: rs[id]
  }

  /** `scopePendingAlerts`: the two scopes above, one after the other. */
  function PendingAlerts(rs: Reviews): (r: Reviews)
    ensures forall id :: id in r <==> id in rs && HasPendingAlert(rs[id])
    ensures forall id :: id in r ==> r[id] == rs[id]
  {
    Unresolved(WithIssues(rs))
  }

  /** Every scope keeps stored rows as they are and only drops rows. */
  lemma ScopesOnlyFilter(rs: Reviews, c: ClassId, s: StudentId, year: int, week: int)
    ensures ForClass(rs, c).Keys <= rs.Keys && ForStudent(rs, s).Keys <= rs.Keys
    ensures ForWeek(rs, year, week).Keys <= rs.Keys
    ensures WithIssues(rs).Keys <= rs.Keys && Unresolved(rs).Keys <= rs.Keys
    ensures forall id :: id in ForClass(rs, c) ==> ForClass(rs, c)[id] == rs[id]
    ensures forall id :: id in ForStudent(rs, s) ==> ForStudent(rs, s)[id] == rs[id]
    ensures forall id :: id in ForWeek(rs, year, week) ==> ForWeek(rs, year, week)[id] == rs[id]
    ensures forall id :: id in WithIssues(rs) ==> WithIssues(rs)[id] == rs[id] && HasIssue(rs[id])
    ensures forall id :: id in Unresolved(rs) ==> Unresolved(rs)[id] == rs[id]
  {
  }

  /** The key of the unique index `unique_student_week`. */
  function Key(r: Review): (StudentId, int, int) {
    (r.studentId, r.year, r.week)
  }

  /** Two rows never share the key (student, year, week), by the unique index `unique_student_week`. */
  ghost predicate UniqueKeys(rs: Reviews) {
    forall a, b {:trigger Key(rs[a]), Key(rs[b])} :: a in rs && b in rs && a != b ==> Key(rs[a]) != Key(rs[b])
  }

  /** The (year, week) of `a` is not after that of `b`, in lexicographic order. */
  predicate WeekNotAfter(a: Review, b: Review) {
    a.year < b.year || (a.year == b.year && a.week <= b.week)
  }

  /** A single integer that orders weeks 1..53 the way (year, week) does. */
  function WeekOrdinal(r: Review): int {
    r.year * 54 + r.week
  }

  /** For valid week numbers, comparing ordinals is comparing (year, week) lexicographically. */
  lemma WeekOrdinalOrder(a: Review, b: Review)
    requires 1 <= a.week <= 53 && 1 <= b.week <= 53
    ensures WeekOrdinal(a) <= WeekOrdinal(b) <==> WeekNotAfter(a, b)
  {
    if a.year < b.year {
      assert a.year * 54 + 54 <= b.year * 54;
    } else if a.year > b.year {
      assert b.year * 54 + 54 <= a.year * 54;
    }
  }

  /**
   * `latestWeeklyReview`: of the student's reviews, the one first under
   * "order by year descending, then week number descending".
   */
  ghost predicate IsLatestReview(rs: Reviews, s: StudentId, id: ReviewId) {
    id in rs && rs[id].studentId == s
    && forall other :: other in rs && rs[other].studentId == s ==> WeekNotAfter(rs[other], rs[id])
  }

  /** Under the unique index, at most one review is the latest. */
  lemma LatestReviewUnique(rs: Reviews, s: StudentId, a: ReviewId, b: ReviewId)
    requires UniqueKeys(rs)
    requires IsLatestReview(rs, s, a) && IsLatestReview(rs, s, b)
    ensures a == b
  {
    assert WeekNotAfter(rs[a], rs[b]) && WeekNotAfter(rs[b], rs[a]);
    assert Key(rs[a]) == Key(rs[b]);
  }

  /** A student with at least one review has a latest one. */
  lemma {:induction false} LatestReviewExists(rs: Reviews, s: StudentId, some: ReviewId)
    requires some in rs && rs[some].studentId == s
    ensures exists id :: IsLatestReview(rs, s, id)
    decreases |rs|
  {
    var rest := rs - {some};
    if other :| other in rest && rest[other].studentId == s {
      LatestReviewExists(rest, s, other);
      var best: ReviewId :| IsLatestReview(rest, s, best);
      var winner := if WeekNotAfter(rs[some], rs[best]) then best else some;
      forall o | o in rs && rs[o].studentId == s
        ensures WeekNotAfter(rs[o], rs[winner])
      {
        if o != some {
          assert o in rest && rest[o] == rs[o];
        }
      }
      assert IsLatestReview(rs, s, winner);
    } else {
      assert forall o :: o in rs && o != some ==> o in rest && rest[o] == rs[o];
      assert IsLatestReview(rs, s, some);
    }
  }
}
