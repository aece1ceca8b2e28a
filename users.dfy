/**
 * Accounts of the platform. A user carries a role name and a status name,
 * both free strings in the table; the role predicates compare the role
 * with one of six fixed names.
 */
module Users {
  import opened Wrappers

  type UserId = nat
  type InstitutionId = nat

  const RoleSuperAdmin: string := "super_admin"
  const RoleAdmin: string := "admin"
  const RoleManager: string := "manager"
  const RoleTeacher: string := "teacher"
  const RoleStudent: string := "student"
  const RoleParent: string := "parent"

  /**
   * The `subjects` column, cast as a JSON array: absent, a list of subject
   * names, or a decoded value that is not an array.
   */
  datatype Subjects = NoSubjects | SubjectList(items: seq<string>) | NotAList

  datatype User = User(
    id: UserId,
    name: string,
    email: string,
    role: string,
    status: string,
    institutionId: Option<InstitutionId>,
    subjects: Subjects,
    createdAt: int)

  predicate IsSuperAdmin(u: User) {
    u.role == RoleSuperAdmin
  }

  predicate IsAdmin(u: User) {
    u.role == RoleAdmin
  }

  predicate IsManager(u: User) {
    u.role == RoleManager
  }

  predicate IsTeacher(u: User) {
    u.role == RoleTeacher
  }

  /** How many of the four staff-role predicates hold. */
  function StaffRoleCount(u: User): (n: nat)
    ensures n <= 1
    ensures n == 1 <==> u.role in {RoleSuperAdmin, RoleAdmin, RoleManager, RoleTeacher}
  {
    (if IsSuperAdmin(u) then 1 else 0) + (if IsAdmin(u) then 1 else 0)
    + (if IsManager(u) then 1 else 0) + (if IsTeacher(u) then 1 else 0)
  }

  /** At most one role predicate holds, whatever the role string. */
  lemma AtMostOneRole(u: User)
    ensures !(IsSuperAdmin(u) && IsAdmin(u)) && !(IsSuperAdmin(u) && IsManager(u))
    ensures !(IsSuperAdmin(u) && IsTeacher(u)) && !(IsAdmin(u) && IsManager(u))
    ensures !(IsAdmin(u) && IsTeacher(u)) && !(IsManager(u) && IsTeacher(u))
  {
    assert StaffRoleCount(u) <= 1;
  }

  /** Students and parents satisfy none of the role predicates. */
  lemma StudentsAndParentsHaveNoStaffRole(u: User)
    requires u.role == RoleStudent || u.role == RoleParent
    ensures StaffRoleCount(u) == 0
    ensures !IsSuperAdmin(u) && !IsAdmin(u) && !IsManager(u) && !IsTeacher(u)
  {
  }

  /** `scopeForInstitution`: the users whose `institution_id` is `inst`; a user without one never matches. */
  function ForInstitution(users: map<UserId, User>, inst: InstitutionId): (r: map<UserId, User>)
    ensures forall id :: id in r <==> id in users && users[id].institutionId == Some(inst)
    ensures forall id :: id in r ==> r[id] == users[id]
    ensures r.Keys <= users.Keys
  {
    map id | id in users && users[id].institutionId == Some(inst) :: users[id]
  }

  /**
   * `resolveSubjectFromTeacher`, shared by the lesson and preparation
   * services: `Unknown` for a missing teacher, the first subject of a
   * non-empty list, `General` otherwise.
   */
  function ResolveSubject(users: map<UserId, User>, teacherId: UserId): (s: string)
    ensures teacherId !in users ==> s == "Unknown"
    ensures teacherId in users && users[teacherId].subjects.SubjectList? && |users[teacherId].subjects.items| > 0
            ==> s == users[teacherId].subjects.items[0]
    ensures teacherId in users && !(users[teacherId].subjects.SubjectList? && |users[teacherId].subjects.items| > 0)
            ==> s == "General"
  {
    if teacherId !in users then "Unknown"
    else
      match users[teacherId].subjects
      case SubjectList(items) => if |items| > 0 then items[0] else "General"
      case NoSubjects => "General"
      case NotAList => "General"
  }
}
