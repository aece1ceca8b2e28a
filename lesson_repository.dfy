/**
 * The lessons table and its repository. Lessons are soft-deleted: a
 * deleted row stays in the table, marked trashed, and every query skips
 * it.
 */
module LessonRepository {
  import opened Wrappers
  import opened Php
  import Listing

  type LessonId = nat
  type UserId = nat
  type InstitutionId = nat

  const StatusDraft: string := "draft"
  const StatusPublished: string := "published"

  datatype Lesson = Lesson(
    institutionId: InstitutionId,
    teacherId: UserId,
    title: string,
    content: Option<string>,
    lessonDate: int,          // a day number
    academicYear: Option<string>,
    className: Option<string>,
    subjectName: Option<string>,
    status: string,
    trashed: bool)

  /** The listing filters; a date bound is a day number. */
  datatype LessonFilters = LessonFilters(
    status: Option<string>,
    className: Option<string>,
    subjectName: Option<string>,
    academicYear: Option<string>,
    dateFrom: Option<int>,
    dateTo: Option<int>)

  const NoFilters := LessonFilters(None, None, None, None, None, None)

  /**
   * `applyFilters`: each text filter applies only when set and not empty;
   * the date range applies only when both ends are set, and includes both.
   */
  predicate Matches(l: Lesson, f: LessonFilters) {
    (Filled(f.status) ==> l.status == f.status.value)
    && (Filled(f.className) ==> l.className == Some(f.className.value))
    && (Filled(f.subjectName) ==> l.subjectName == Some(f.subjectName.value))
    && (Filled(f.academicYear) ==> l.academicYear == Some(f.academicYear.value))
    && (f.dateFrom.Some? && f.dateTo.Some? ==> f.dateFrom.value <= l.lessonDate <= f.dateTo.value)
  }

  /** Filters that are absent, empty or `"0"`, with at most one date bound, select everything. */
  lemma BlankFiltersMatchAll(l: Lesson, f: LessonFilters)
    requires !Filled(f.status) && !Filled(f.className) && !Filled(f.subjectName) && !Filled(f.academicYear)
    requires f.dateFrom.None? || f.dateTo.None?
    ensures Matches(l, f)
  {
  }

  /** With both date bounds and no other filter, a lesson matches exactly when its date lies between them, both included. */
  lemma DateRangeInclusive(l: Lesson, f: LessonFilters)
    requires !Filled(f.status) && !Filled(f.className) && !Filled(f.subjectName) && !Filled(f.academicYear)
    requires f.dateFrom.Some? && f.dateTo.Some?
    ensures Matches(l, f) <==> f.dateFrom.value <= l.lessonDate <= f.dateTo.value
  {
  }

  /** The fillable columns `update` may change; `Some(None)` writes a null. */
  datatype LessonPatch = LessonPatch(
    institutionId: Option<InstitutionId>,
    teacherId: Option<UserId>,
    title: Option<string>,
    content: Option<Option<string>>,
    lessonDate: Option<int>,
    academicYear: Option<Option<string>>,
    className: Option<Option<string>>,
    subjectName: Option<Option<string>>,
    status: Option<string>)

  /** The lesson after `$lesson->update($data)`: each sent column replaced, the others kept. */
  function ApplyPatch(l: Lesson, p: LessonPatch): (l': Lesson)
    ensures l'.trashed == l.trashed
    ensures l'.teacherId == p.teacherId.GetOr(l.teacherId) && l'.institutionId == p.institutionId.GetOr(l.institutionId)
    ensures l'.subjectName == p.subjectName.GetOr(l.subjectName) && l'.status == p.status.GetOr(l.status)
    ensures l'.title == p.title.GetOr(l.title) && l'.content == p.content.GetOr(l.content)
    ensures l'.lessonDate == p.lessonDate.GetOr(l.lessonDate)
    ensures l'.academicYear == p.academicYear.GetOr(l.academicYear) && l'.className == p.className.GetOr(l.className)
  {
    Lesson(p.institutionId.GetOr(l.institutionId), p.teacherId.GetOr(l.teacherId), p.title.GetOr(l.title),
           p.content.GetOr(l.content), p.lessonDate.GetOr(l.lessonDate), p.academicYear.GetOr(l.academicYear),
           p.className.GetOr(l.className), p.subjectName.GetOr(l.subjectName), p.status.GetOr(l.status), l.trashed)
  }

  class Repository {
    var lessons: map<LessonId, Lesson>
    var nextId: LessonId

    /** Ids lie below the next id. */
    predicate Valid()
      reads this
    {
      forall id :: id in lessons ==> id < nextId
    }

    constructor ()
      ensures Valid() && lessons == map[] && nextId == 0
    {
      lessons := map[];
      nextId := 0;
    }

    /** `getByTeacher`: the teacher's live lessons passing the filters, latest date first. */
    function GetByTeacher(teacherId: UserId, f: LessonFilters): (r: seq<LessonId>)
      reads this
      ensures forall id :: id in r <==>
                id in lessons && !lessons[id].trashed && lessons[id].teacherId == teacherId && Matches(lessons[id], f)
      ensures Listing.Distinct(r)
      ensures forall i, j :: 0 <= i < j < |r| ==>
                r[i] in lessons && r[j] in lessons && lessons[r[i]].lessonDate >= lessons[r[j]].lessonDate
    {
      Listing.SelectSorted(lessons, (l: Lesson) => !l.trashed && l.teacherId == teacherId && Matches(l, f),
                           (l: Lesson) => -l.lessonDate)
    }

    /** `getByInstitution`: the institution's live lessons passing the filters, latest date first. */
    function GetByInstitution(institutionId: InstitutionId, f: LessonFilters): (r: seq<LessonId>)
      reads this
      ensures forall id :: id in r <==>
                id in lessons && !lessons[id].trashed && lessons[id].institutionId == institutionId && Matches(lessons[id], f)
      ensures Listing.Distinct(r)
      ensures forall i, j :: 0 <= i < j < |r| ==>
                r[i] in lessons && r[j] in lessons && lessons[r[i]].lessonDate >= lessons[r[j]].lessonDate
    {
      Listing.SelectSorted(lessons, (l: Lesson) => !l.trashed && l.institutionId == institutionId && Matches(l, f),
                           (l: Lesson) => -l.lessonDate)
    }

    /** `findById`: a live lesson. */
    function FindById(id: LessonId): (r: Option<Lesson>)
      reads this
      ensures r.Some? <==> id in lessons && !lessons[id].trashed
      ensures r.Some? ==> r.value == lessons[id]
    {
      if id in lessons && !lessons[id].trashed then Some(lessons[id]) else None
    }

    /** `findByIdInInstitution`: a live lesson, only when it belongs to the institution. */
    function FindByIdInInstitution(id: LessonId, institutionId: InstitutionId): (r: Option<Lesson>)
      reads this
      ensures r.Some? <==> FindById(id).Some? && lessons[id].institutionId == institutionId
      ensures r.Some? ==> r.value == lessons[id]
    {
      if id in lessons && !lessons[id].trashed && lessons[id].institutionId == institutionId then Some(lessons[id])
      else None
    }

    /** `create`: a new live row. */
    method Create(l: Lesson) returns (id: LessonId)
      requires Valid()
      modifies this
      ensures Valid()
      ensures id !in old(lessons) && lessons == old(lessons)[id := l.(trashed := false)]
    {
      id := nextId;
      lessons := lessons[id := l.(trashed := false)];
      nextId := nextId + 1;
    }

    /** `update`: an unknown or trashed id raises an error and changes nothing. */
    method Update(id: LessonId, p: LessonPatch) returns (found: bool)
      requires Valid()
      modifies this
      ensures Valid() && nextId == old(nextId)
      ensures found <==> old(FindById(id)).Some?
      ensures found ==> lessons == old(lessons)[id := ApplyPatch(old(lessons)[id], p)]
      ensures !found ==> lessons == old(lessons)
    {
      if FindById(id).None? {
        return false;
      }
      lessons := lessons[id := ApplyPatch(lessons[id], p)];
      found := true;
    }

    /** `delete`: a soft delete; `false`, and no change, for an unknown or trashed id. */
    method Delete(id: LessonId) returns (deleted: bool)
      requires Valid()
      modifies this
      ensures Valid() && nextId == old(nextId)
      ensures deleted <==> old(FindById(id)).Some?
      ensures deleted ==> lessons == old(lessons)[id := old(lessons)[id].(trashed := true)]
      ensures !deleted ==> lessons == old(lessons)
      ensures FindById(id).None?
    {
      if FindById(id).None? {
        return false;
      }
      lessons := lessons[id := lessons[id].(trashed := true)];
      deleted := true;
    }
  }
}
