/** Batches of `updateOrCreate` on the weekly reviews table. */
module ReviewUpserts {
  import opened WeeklyReview
  import opened GradebookDb

  /** No later entry of `saved` has the same (student, year, week) as entry `i`. */
  predicate LastOfKey(saved: seq<(ReviewId, Review)>, i: int)
    requires 0 <= i < |saved|
  {
    forall j :: i < j < |saved| ==> !SameKey(saved[j].1, saved[i].1)
  }

  /** Some entry of `saved` was written to row `id`. */
  predicate WasSaved(saved: seq<(ReviewId, Review)>, id: ReviewId) {
    exists i :: 0 <= i < |saved| && saved[i].0 == id
  }

  /** Every saved row is stored under its key. */
  ghost predicate SavedStored(rs: Reviews, saved: seq<(ReviewId, Review)>) {
    forall i :: 0 <= i < |saved| ==> saved[i].0 in rs && SameKey(rs[saved[i].0], saved[i].1)
  }

  /** The last write to each key is what the table holds. */
  ghost predicate LastWriteWins(rs: Reviews, saved: seq<(ReviewId, Review)>)
    requires SavedStored(rs, saved)
  {
    forall i :: 0 <= i < |saved| && LastOfKey(saved, i) ==> rs[saved[i].0] == saved[i].1
  }

  /** Writes with the same key went to the same row. */
  ghost predicate OneRowPerKey(saved: seq<(ReviewId, Review)>) {
    forall i, j :: 0 <= i < |saved| && 0 <= j < |saved| && SameKey(saved[i].1, saved[j].1) ==>
      saved[i].0 == saved[j].0
  }

  /** No row disappears, rows nobody wrote are unchanged, and every new row was written. */
  ghost predicate OnlyWritesChange(rs0: Reviews, rs: Reviews, saved: seq<(ReviewId, Review)>) {
    (forall id :: id in rs0 ==> id in rs)
    && (forall id :: id in rs0 && !WasSaved(saved, id) ==> rs[id] == rs0[id])
    && (forall id :: id in rs ==> id in rs0 || WasSaved(saved, id))
  }

  /** The table `rs` after the upserts listed in `saved` were applied, in order, to `rs0`. */
  ghost predicate Upserted(rs0: Reviews, rs: Reviews, saved: seq<(ReviewId, Review)>) {
    SavedStored(rs, saved) && LastWriteWins(rs, saved) && OneRowPerKey(saved) && OnlyWritesChange(rs0, rs, saved)
  }

  /** What `updateOrCreate` guarantees about the row `id` it writes `r` to. */
  predicate UpsertTarget(rs: Reviews, id: ReviewId, r: Review) {
    (id in rs ==> SameKey(rs[id], r)) && (id !in rs ==> forall o :: o in rs ==> !SameKey(rs[o], r))
  }

  lemma {:induction false} StepStored(rs: Reviews, saved: seq<(ReviewId, Review)>, id: ReviewId, r: Review)
    requires SavedStored(rs, saved) && UpsertTarget(rs, id, r)
    ensures SavedStored(rs[id := r], saved + [(id, r)])
  {
    var rs', saved' := rs[id := r], saved + [(id, r)];
    forall i | 0 <= i < |saved'| ensures saved'[i].0 in rs' && SameKey(rs'[saved'[i].0], saved'[i].1) {
      if i < |saved| {
        assert saved'[i] == saved[i];
      }
    }
  }

  lemma {:induction false} StepLastWins(rs: Reviews, saved: seq<(ReviewId, Review)>, id: ReviewId, r: Review)
    requires SavedStored(rs, saved) && LastWriteWins(rs, saved) && UpsertTarget(rs, id, r)
    requires SavedStored(rs[id := r], saved + [(id, r)])
    ensures LastWriteWins(rs[id := r], saved + [(id, r)])
  {
    var rs', saved' := rs[id := r], saved + [(id, r)];
    forall i | 0 <= i < |saved'| && LastOfKey(saved', i) ensures rs'[saved'[i].0] == saved'[i].1 {
      if i < |saved| {
        assert saved'[i] == saved[i];
        assert !SameKey(saved'[|saved|].1, saved[i].1);
        assert LastOfKey(saved, i) by {
          forall j | i < j < |saved| ensures !SameKey(saved[j].1, saved[i].1) {
            assert saved'[j] == saved[j];
          }
        }
      }
    }
  }

  lemma {:induction false} StepOneRow(rs: Reviews, saved: seq<(ReviewId, Review)>, id: ReviewId, r: Review)
    requires SavedStored(rs, saved) && OneRowPerKey(saved) && UniqueKeys(rs) && UpsertTarget(rs, id, r)
    ensures OneRowPerKey(saved + [(id, r)])
  {
    var saved' := saved + [(id, r)];
    forall i, j | 0 <= i < |saved'| && 0 <= j < |saved'| && SameKey(saved'[i].1, saved'[j].1)
      ensures saved'[i].0 == saved'[j].0
    {
      if i < |saved| && j < |saved| {
        assert saved'[i] == saved[i] && saved'[j] == saved[j];
      } else if i < |saved| {
        assert saved'[i] == saved[i];
        assert SameKey(rs[saved[i].0], r);
      } else if j < |saved| {
        assert saved'[j] == saved[j];
        assert SameKey(rs[saved[j].0], r);
      }
    }
  }

  lemma {:induction false} StepOnlyWrites(rs0: Reviews, rs: Reviews, saved: seq<(ReviewId, Review)>, id: ReviewId, r: Review)
    requires OnlyWritesChange(rs0, rs, saved)
    ensures OnlyWritesChange(rs0, rs[id := r], saved + [(id, r)])
  {
    var rs', saved' := rs[id := r], saved + [(id, r)];
    assert saved'[|saved|].0 == id;
    forall o | o in rs0 && !WasSaved(saved', o) ensures rs'[o] == rs0[o] {
      forall i | 0 <= i < |saved| ensures saved[i].0 != o {
        assert saved'[i] == saved[i];
      }
    }
    forall o | o in rs' ensures o in rs0 || WasSaved(saved', o) {
      if o != id && o !in rs0 {
        var i :| 0 <= i < |saved| && saved[i].0 == o;
        assert saved'[i].0 == o;
      }
    }
  }

  /** One more `updateOrCreate` keeps the table `Upserted` from the starting one. */
  lemma UpsertStep(rs0: Reviews, rs: Reviews, saved: seq<(ReviewId, Review)>, id: ReviewId, r: Review)
    requires Upserted(rs0, rs, saved) && UniqueKeys(rs) && UpsertTarget(rs, id, r)
    ensures Upserted(rs0, rs[id := r], saved + [(id, r)])
  {
    StepStored(rs, saved, id, r);
    StepLastWins(rs, saved, id, r);
    StepOneRow(rs, saved, id, r);
    StepOnlyWrites(rs0, rs, saved, id, r);
  }

  /** The rows recorded in `saved`, in order. */
  function SavedRows(saved: seq<(ReviewId, Review)>): (rows: seq<Review>)
    ensures |rows| == |saved| && forall i :: 0 <= i < |saved| ==> rows[i] == saved[i].1
  {
    seq(|saved|, i requires 0 <= i < |saved| => saved[i].1)
  }

  /** One `updateOrCreate` of the transaction, recorded at the end of `saved`. */
  method SaveOne(db: Gradebook, ghost start: Reviews, saved: seq<(ReviewId, Review)>, r: Review)
    returns (saved': seq<(ReviewId, Review)>)
    requires db.Valid() && Upserted(start, db.reviews, saved)
    requires r.studentId in db.students && r.classId in db.classes && 1 <= r.week <= 53
    modifies db
    ensures db.Valid() && Upserted(start, db.reviews, saved')
    ensures SavedRows(saved') == SavedRows(saved) + [r]
    ensures db.classes == old(db.classes) && db.students == old(db.students)
    ensures db.grades == old(db.grades) && db.tracking == old(db.tracking)
  {
    ghost var before := db.reviews;
    var id := db.UpsertReview(r);
    UpsertStep(start, before, saved, id, r);
    saved' := saved + [(id, r)];
  }
}
