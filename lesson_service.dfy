/**
 * The lesson service: identity fields come from the caller and the
 * teacher's profile, never from the request, and the statistics count the
 * teacher's lessons by status.
 */
module LessonService {
  import opened Wrappers
  import Users
  import opened LessonRepository

  /** The validated body of a create request; the identity fields it may carry are ignored. */
  datatype LessonInput = LessonInput(
    title: string,
    content: Option<string>,
    lessonDate: int,
    academicYear: Option<string>,
    className: Option<string>,
    status: Option<string>,
    sentTeacherId: Option<UserId>,
    sentInstitutionId: Option<InstitutionId>,
    sentSubjectName: Option<string>)

  /** The row `createLesson` stores. */
  function NewLesson(users: map<Users.UserId, Users.User>, teacherId: UserId, institutionId: InstitutionId,
                     i: LessonInput): (l: Lesson)
    ensures l.teacherId == teacherId && l.institutionId == institutionId
    ensures l.subjectName == Some(Users.ResolveSubject(users, teacherId))
    ensures l.status == i.status.GetOr(StatusDraft)
    ensures l.title == i.title && l.content == i.content && l.lessonDate == i.lessonDate
    ensures l.academicYear == i.academicYear && l.className == i.className && !l.trashed
  {
    Lesson(institutionId, teacherId, i.title, i.content, i.lessonDate, i.academicYear, i.className,
           Some(Users.ResolveSubject(users, teacherId)), i.status.GetOr(StatusDraft), false)
  }

  /** The sent identity fields never reach the row. */
  lemma CreateIgnoresSentIdentity(users: map<Users.UserId, Users.User>, teacherId: UserId,
                                  institutionId: InstitutionId, i: LessonInput,
                                  t: Option<UserId>, n: Option<InstitutionId>, s: Option<string>)
    ensures NewLesson(users, teacherId, institutionId, i)
            == NewLesson(users, teacherId, institutionId, i.(sentTeacherId := t, sentInstitutionId := n, sentSubjectName := s))
  {
  }

  /** `createLesson`. */
  method CreateLesson(repo: Repository, users: map<Users.UserId, Users.User>, teacherId: UserId,
                      institutionId: InstitutionId, i: LessonInput) returns (id: LessonId)
    requires repo.Valid()
    modifies repo
    ensures repo.Valid()
    ensures id !in old(repo.lessons) && repo.lessons == old(repo.lessons)[id := NewLesson(users, teacherId, institutionId, i)]
  {
    id := repo.Create(NewLesson(users, teacherId, institutionId, i));
  }

  /** `unset($data['teacher_id'], $data['institution_id'], $data['subject_name'])`. */
  function StripIdentity(p: LessonPatch): (p': LessonPatch)
    ensures p'.teacherId.None? && p'.institutionId.None? && p'.subjectName.None?
    ensures p'.title == p.title && p'.content == p.content && p'.lessonDate == p.lessonDate
    ensures p'.academicYear == p.academicYear && p'.className == p.className && p'.status == p.status
  {
    p.(teacherId := None, institutionId := None, subjectName := None)
  }

  /** `updateLesson`: an update never moves a lesson to another teacher, institution or subject. */
  method UpdateLesson(repo: Repository, id: LessonId, p: LessonPatch) returns (found: bool)
    requires repo.Valid()
    modifies repo
    ensures repo.Valid()
    ensures found <==> old(repo.FindById(id)).Some?
    ensures found ==> repo.lessons == old(repo.lessons)[id := ApplyPatch(old(repo.lessons)[id], StripIdentity(p))]
    ensures !found ==> repo.lessons == old(repo.lessons)
    ensures found ==> repo.lessons[id].teacherId == old(repo.lessons)[id].teacherId
                      && repo.lessons[id].institutionId == old(repo.lessons)[id].institutionId
                      && repo.lessons[id].subjectName == old(repo.lessons)[id].subjectName
  {
    found := repo.Update(id, StripIdentity(p));
  }

  /** How many of the listed lessons have the given status. */
  function CountStatus(lessons: map<LessonId, Lesson>, ids: seq<LessonId>, status: string): (n: nat)
    requires forall id :: id in ids ==> id in lessons
    ensures n <= |ids|
    decreases |ids|
  {
    if ids == [] then 0
    else
      CountStatus(lessons, ids[..|ids| - 1], status)
      + if lessons[ids[|ids| - 1]].status == status then 1 else 0
  }

  /** Drafts and published lessons are disjoint, so together they are at most all of them. */
  lemma {:induction false} DraftAndPublishedWithinTotal(lessons: map<LessonId, Lesson>, ids: seq<LessonId>)
    requires forall id :: id in ids ==> id in lessons
    ensures CountStatus(lessons, ids, StatusDraft) + CountStatus(lessons, ids, StatusPublished) <= |ids|
    decreases |ids|
  {
    if ids != [] {
      DraftAndPublishedWithinTotal(lessons, ids[..|ids| - 1]);
    }
  }

  datatype LessonStats = LessonStats(total: nat, draft: nat, published: nat)

  /** The loop of `getStatistics`: one pass over the listed lessons counting drafts and published ones. */
  method CountDraftAndPublished(lessons: map<LessonId, Lesson>, all: seq<LessonId>) returns (draft: nat, published: nat)
    requires forall id :: id in all ==> id in lessons
    ensures draft == CountStatus(lessons, all, StatusDraft)
    ensures published == CountStatus(lessons, all, StatusPublished)
  {
    draft := 0;
    published := 0;
    var k := 0;
    while k < |all|
      invariant 0 <= k <= |all|
      invariant draft == CountStatus(lessons, all[..k], StatusDraft)
      invariant published == CountStatus(lessons, all[..k], StatusPublished)
    {
      assert all[..k + 1][..k] == all[..k];
      var status := lessons[all[k]].status;
      if status == StatusDraft {
        draft := draft + 1;
      } else if status == StatusPublished {
        published := published + 1;
      }
      k := k + 1;
    }
    assert all[..k] == all;
  }

  /** `getStatistics`: the teacher's lesson count and the drafts and published ones among them. */
  method GetStatistics(repo: Repository, teacherId: UserId) returns (stats: LessonStats)
    ensures var all := repo.GetByTeacher(teacherId, NoFilters);
            stats.total == |all|
            && stats.draft == CountStatus(repo.lessons, all, StatusDraft)
            && stats.published == CountStatus(repo.lessons, all, StatusPublished)
    ensures stats.draft + stats.published <= stats.total
  {
    var all := repo.GetByTeacher(teacherId, NoFilters);
    var draft, published := CountDraftAndPublished(repo.lessons, all);
    DraftAndPublishedWithinTotal(repo.lessons, all);
    stats := LessonStats(|all|, draft, published);
  }
}
