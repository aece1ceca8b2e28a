/**
 * StudentPedagogicalTrackingController: setting the oral-interrogation
 * and notebook-checked flags of one student for one term. A flag that
 * goes from false to true is stamped with the current time; a flag that
 * is cleared, or set again, keeps its old stamp.
 */
module TrackingController {
  import opened Wrappers
  import opened WeeklyReview
  import opened GradeRecords
  import opened GradebookDb
  import opened Http
  import opened Access

  /**
   * The body of UpdatePedagogicalTrackingRequest: an absent flag is `None`
   * and an explicit null is `Some(None)`.
   */
  datatype TrackingRequest = TrackingRequest(term: int, oralInterrogation: Option<Option<bool>>, notebookChecked: Option<Option<bool>>)

  /** `sometimes|boolean`: when sent, a boolean and not null. */
  predicate FlagValid(f: Option<Option<bool>>) {
    f.Some? ==> f.value.Some?
  }

  /** The request rules: `term` is 1, 2 or 3 and neither flag is sent as null. */
  predicate RequestValid(r: TrackingRequest) {
    1 <= r.term <= 3 && FlagValid(r.oralInterrogation) && FlagValid(r.notebookChecked)
  }

  /** A flag sent as null fails validation, whatever else is sent, while an absent flag does not. */
  lemma NullFlagRefused(term: int, other: Option<Option<bool>>)
    ensures !RequestValid(TrackingRequest(term, Some(None), other))
    ensures !RequestValid(TrackingRequest(term, other, Some(None)))
    ensures RequestValid(TrackingRequest(term, None, None)) <==> 1 <= term <= 3
  {
  }

  /** The row after the update: sent flags written, a stamp set to `now` only on a false-to-true change. */
  function ApplyRequest(t: Tracking, r: TrackingRequest, now: Instant): (t': Tracking)
    ensures t'.oralInterrogation == r.oralInterrogation.GetOr(None).GetOr(t.oralInterrogation)
    ensures t'.notebookChecked == r.notebookChecked.GetOr(None).GetOr(t.notebookChecked)
    ensures t'.lastInterrogationAt ==
              if r.oralInterrogation == Some(Some(true)) && !t.oralInterrogation then Some(now) else t.lastInterrogationAt
    ensures t'.lastNotebookCheckAt ==
              if r.notebookChecked == Some(Some(true)) && !t.notebookChecked then Some(now) else t.lastNotebookCheckAt
  {
    var oral := r.oralInterrogation.GetOr(None);
    var notebook := r.notebookChecked.GetOr(None);
    var t1 := if oral.Some? then
                t.(oralInterrogation := oral.value,
                   lastInterrogationAt := if oral.value && !t.oralInterrogation then Some(now) else t.lastInterrogationAt)
              else t;
    if notebook.Some? then
      t1.(notebookChecked := notebook.value,
          lastNotebookCheckAt := if notebook.value && !t.notebookChecked then Some(now) else t.lastNotebookCheckAt)
    else t1
  }

  /** Sending the same request again changes nothing: the stamps are not refreshed. */
  lemma ApplyRequestIdempotent(t: Tracking, r: TrackingRequest, now1: Instant, now2: Instant)
    ensures ApplyRequest(ApplyRequest(t, r, now1), r, now2) == ApplyRequest(t, r, now1)
  {
  }

  /** A request without flags leaves the row as it was. */
  lemma EmptyRequestKeepsRow(t: Tracking, term: int, now: Instant)
    ensures ApplyRequest(t, TrackingRequest(term, None, None), now) == t
  {
  }

  /** Sending the opposite of a flag is the model's toggle; sending `true` to a cleared flag is its mark. */
  lemma ApplyRequestAgreesWithRecord(t: Tracking, term: int, now: Instant)
    ensures ApplyRequest(t, TrackingRequest(term, Some(Some(!t.oralInterrogation)), None), now) == ToggleInterrogation(t, now)
    ensures ApplyRequest(t, TrackingRequest(term, None, Some(Some(!t.notebookChecked))), now) == ToggleNotebookChecked(t, now)
    ensures !t.oralInterrogation ==>
              ApplyRequest(t, TrackingRequest(term, Some(Some(true)), None), now) == MarkInterrogated(t, now)
    ensures !t.notebookChecked ==>
              ApplyRequest(t, TrackingRequest(term, None, Some(Some(true))), now) == MarkNotebookChecked(t, now)
  {
  }

  /**
   * `update`: 404 for an unknown student, 422 for an invalid request (the
   * form request is validated before the action runs), 403 for another
   * teacher's student; otherwise the term's row is fetched or created and
   * the request applied to it.
   */
  method Update(db: Gradebook, user: UserId, s: StudentId, r: TrackingRequest, now: Instant)
    returns (status: Status, row: Option<Tracking>)
    requires db.Valid()
    modifies db
    ensures db.Valid()
    ensures status ==
              if s !in old(db.students) then NotFound
              else if !RequestValid(r) then Unprocessable
              else old(StudentAccess(db, user, s))
    ensures status != Success ==> row.None? && db.tracking == old(db.tracking)
    ensures status == Success ==>
              var t' := ApplyRequest(RowOr(old(db.tracking), s, r.term, DefaultTracking()), r, now);
              row == Some(t') && db.tracking == old(db.tracking)[(s, r.term) := t']
    ensures db.classes == old(db.classes) && db.students == old(db.students) && db.grades == old(db.grades)
    ensures db.reviews == old(db.reviews) && db.nextId == old(db.nextId)
  {
    row := None;
    if s !in db.students {
      return NotFound, row;
    }
    if !RequestValid(r) {
      return Unprocessable, row;
    }
    status := StudentAccess(db, user, s);
    if status != Success {
      return;
    }
    var t := db.GetOrCreateTermTracking(s, r.term);
    var t' := ApplyRequest(t, r, now);
    if r.oralInterrogation.Some? || r.notebookChecked.Some? {
      db.SetTracking((s, r.term), t');
    } else {
      assert old(db.tracking)[(s, r.term) := t'] == db.tracking;
    }
    row := Some(t');
  }

  /**
   * The feature scenario for `update`: the owner of a student without
   * tracking rows sets `oral_interrogation` for term 1; the answer is 200
   * with the interrogation flag on and the notebook flag off, and the term
   * 1 row is stored with the flag on.
   */
  method OwnStudentScenario(db: Gradebook, user: UserId, s: StudentId, now: Instant)
    returns (status: Status, row: Option<Tracking>)
    requires db.Valid() && s in db.students && db.Owns(user, db.students[s].classId)
    requires (s, 1) !in db.tracking
    modifies db
    ensures status == Success && Code(status) == 200
    ensures row.Some? && row.value.oralInterrogation && !row.value.notebookChecked
    ensures (s, 1) in db.tracking && db.tracking[(s, 1)].oralInterrogation
  {
    status, row := Update(db, user, s, TrackingRequest(1, Some(Some(true)), None), now);
  }
}
