/**
 * The authorization policies. A policy with a `before` hook is consulted
 * the way the framework's gate does it: a non-null answer of `before`
 * decides, otherwise the ability method does.
 */
module Policies {
  import opened Wrappers
  import opened Users

  datatype Ability = ViewAny | View | Create | Update | Delete | Restore | ForceDelete

  /** The gate: the `before` hook's answer when it gives one, else the ability's. */
  function Gate(before: Option<bool>, ability: bool): (allowed: bool)
    ensures before.Some? ==> allowed == before.value
    ensures before.None? ==> allowed == ability
  {
    if before.Some? then before.value else ability
  }

  /** The `before` hook shared by the user, lesson and preparation policies. */
  function SuperAdminBefore(u: User): (r: Option<bool>)
    ensures r.Some? <==> IsSuperAdmin(u)
    ensures r.Some? ==> r.value
  {
    if IsSuperAdmin(u) then Some(true) else None
  }

  // ------------------------------------------------------------ UserPolicy

  /** The ability methods of `UserPolicy`; `target` is ignored by `viewAny` and `create`. */
  function UserAbility(a: Ability, actor: User, target: User): bool {
    match a
    case ViewAny => IsAdmin(actor) || IsManager(actor)
    case View => actor.id == target.id || IsAdmin(actor) || IsManager(actor)
    case Create => IsAdmin(actor) || IsManager(actor)
    case Update =>
      if actor.id == target.id then true
      else if IsAdmin(actor) then !IsSuperAdmin(target) && !IsAdmin(target)
      else if IsManager(actor) then !IsSuperAdmin(target) && !IsAdmin(target) && !IsManager(target)
      else false
    case Delete =>
      if actor.id == target.id then false
      else if IsAdmin(actor) then !IsSuperAdmin(target) && !IsAdmin(target)
      else if IsManager(actor) then !IsSuperAdmin(target) && !IsAdmin(target) && !IsManager(target)
      else false
    case Restore => false
    case ForceDelete => false
  }

  /** What the gate answers for an ability of `UserPolicy`. */
  function UserAllows(a: Ability, actor: User, target: User): (allowed: bool)
    ensures IsSuperAdmin(actor) ==> allowed
    ensures !IsSuperAdmin(actor) ==>
              (a == ViewAny || a == Create ==> (allowed <==> IsAdmin(actor) || IsManager(actor)))
    ensures !IsSuperAdmin(actor) && a == View ==>
              (allowed <==> actor.id == target.id || IsAdmin(actor) || IsManager(actor))
    ensures a == Update && actor.id == target.id ==> allowed
    ensures !IsSuperAdmin(actor) && a == Delete && actor.id == target.id ==> !allowed
    ensures a == Restore || a == ForceDelete ==> (allowed <==> IsSuperAdmin(actor))
  {
    Gate(SuperAdminBefore(actor), UserAbility(a, actor, target))
  }

  /**
   * Whom an admin or a manager may update or delete: an admin anyone but
   * super admins and admins, a manager also no manager; other roles only
   * update themselves and delete nobody.
   */
  lemma UserManagementByRole(a: Ability, actor: User, target: User)
    requires a == Update || a == Delete
    requires actor.id != target.id
    ensures IsAdmin(actor) ==> (UserAllows(a, actor, target) <==> !IsSuperAdmin(target) && !IsAdmin(target))
    ensures IsManager(actor) ==>
              (UserAllows(a, actor, target) <==> !IsSuperAdmin(target) && !IsAdmin(target) && !IsManager(target))
    ensures !IsSuperAdmin(actor) && !IsAdmin(actor) && !IsManager(actor) ==> !UserAllows(a, actor, target)
  {
  }

  /** Nobody but a super admin may delete their own account. */
  lemma NoSelfDeletion(actor: User)
    ensures UserAllows(Delete, actor, actor) <==> IsSuperAdmin(actor)
  {
  }

  /** A manager can never act on an admin, so no manager can delete an admin. */
  lemma ManagerCannotRemoveAdmin(actor: User, target: User)
    requires IsManager(actor) && IsAdmin(target)
    ensures !UserAllows(Delete, actor, target)
    ensures UserAllows(Update, actor, target) <==> actor.id == target.id
  {
  }

  // ------------------------------------------------------------ LessonPolicy

  /** The ability methods of `LessonPolicy`; `teacherId` is the lesson's owner. */
  function LessonAbility(a: Ability, actor: User, teacherId: UserId): bool {
    match a
    case ViewAny => IsTeacher(actor) || IsAdmin(actor) || IsManager(actor)
    case View => actor.id == teacherId
    case Create => IsTeacher(actor)
    case Update => actor.id == teacherId
    case Delete => actor.id == teacherId
    case Restore => actor.id == teacherId
    case ForceDelete => false
  }

  /** What the gate answers for an ability of `LessonPolicy`. */
  function LessonAllows(a: Ability, actor: User, teacherId: UserId): (allowed: bool)
    ensures IsSuperAdmin(actor) ==> allowed
    ensures !IsSuperAdmin(actor) && a == ViewAny ==> (allowed <==> IsTeacher(actor) || IsAdmin(actor) || IsManager(actor))
    ensures !IsSuperAdmin(actor) && a == Create ==> (allowed <==> IsTeacher(actor))
    ensures !IsSuperAdmin(actor) && a in {View, Update, Delete, Restore} ==> (allowed <==> actor.id == teacherId)
    ensures a == ForceDelete ==> (allowed <==> IsSuperAdmin(actor))
  {
    Gate(SuperAdminBefore(actor), LessonAbility(a, actor, teacherId))
  }

  // ------------------------------------------------------------ LessonPreparationPolicy

  /** The ability methods of `LessonPreparationPolicy`; `teacherId` is the preparation's owner. */
  function PreparationAbility(a: Ability, actor: User, teacherId: UserId): bool {
    match a
    case ViewAny => IsTeacher(actor)
    case Create => IsTeacher(actor)
    case View => actor.id == teacherId
    case Update => actor.id == teacherId
    case Delete => actor.id == teacherId
    case Restore => actor.id == teacherId
    case ForceDelete => actor.id == teacherId
  }

  /** What the gate answers for an ability of `LessonPreparationPolicy`. */
  function PreparationAllows(a: Ability, actor: User, teacherId: UserId): (allowed: bool)
    ensures IsSuperAdmin(actor) ==> allowed
    ensures !IsSuperAdmin(actor) && (a == ViewAny || a == Create) ==> (allowed <==> IsTeacher(actor))
    ensures !IsSuperAdmin(actor) && a !in {ViewAny, Create} ==> (allowed <==> actor.id == teacherId)
  {
    Gate(SuperAdminBefore(actor), PreparationAbility(a, actor, teacherId))
  }

  /** The owner of a preparation may force-delete it; the owner of a lesson, unless super admin, may not. */
  lemma ForceDeleteDiffers(actor: User)
    requires !IsSuperAdmin(actor)
    ensures PreparationAllows(ForceDelete, actor, actor.id)
    ensures !LessonAllows(ForceDelete, actor, actor.id)
  {
  }

  // ------------------------------------------------------------ InstitutionPolicy

  /** `InstitutionPolicy`, which has no `before` hook; `inst` is the institution's id. */
  function InstitutionAllows(a: Ability, actor: User, inst: InstitutionId): (allowed: bool)
    ensures a == ViewAny || a == View ==> allowed
    ensures a == Create ==> (allowed <==> actor.role in {RoleSuperAdmin, RoleAdmin})
    ensures a == Update ==> (allowed <==> IsSuperAdmin(actor) || (IsAdmin(actor) && actor.institutionId == Some(inst)))
    ensures a in {Delete, Restore, ForceDelete} ==> (allowed <==> IsSuperAdmin(actor))
  {
    match a
    case ViewAny => true
    case View => true
    case Create => actor.role in [RoleSuperAdmin, RoleAdmin]
    case Update =>
      if actor.role in [RoleSuperAdmin] then true
      else actor.role == RoleAdmin && actor.institutionId == Some(inst)
    case Delete => actor.role == RoleSuperAdmin
    case Restore => actor.role == RoleSuperAdmin
    case ForceDelete => actor.role == RoleSuperAdmin
  }

  /** An admin may update only their own institution, and never delete one. */
  lemma AdminConfinedToOwnInstitution(actor: User, inst: InstitutionId)
    requires IsAdmin(actor)
    ensures InstitutionAllows(Update, actor, inst) <==> actor.institutionId == Some(inst)
    ensures !InstitutionAllows(Delete, actor, inst)
  {
  }
}
