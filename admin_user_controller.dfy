/**
 * The staff listing an institution administrator sees: the admins,
 * managers and teachers of the administrator's own institution, newest
 * first, optionally narrowed by role and by a search on name or email.
 */
module AdminUserController {
  import opened Wrappers
  import opened Php
  import opened Http
  import opened Users
  import Policies
  import Listing

  /** The roles the listing may show. */
  const StaffRoles: set<string> := {RoleAdmin, RoleManager, RoleTeacher}

  datatype StaffListing = Refused(status: Status) | Listed(ids: seq<UserId>)

  /** Whether a user is shown, given the `role` and `search` parameters. */
  predicate Shown(u: User, inst: InstitutionId, role: Option<string>, search: Option<string>) {
    u.institutionId == Some(inst)
    && u.role in StaffRoles
    && (role.Some? && role.value in StaffRoles ==> u.role == role.value)
    && (search.Some? ==> Contains(u.name, search.value) || Contains(u.email, search.value))
  }

  /**
   * `index`: 403 for an administrator without an institution (absent or
   * 0), 403 when the policy refuses `viewAny`, otherwise the shown users,
   * newest first.
   */
  function Index(users: map<UserId, User>, admin: User, role: Option<string>, search: Option<string>): (r: StaffListing)
    ensures admin.institutionId.None? || admin.institutionId == Some(0) ==> r == Refused(Forbidden)
    ensures r.Listed? <==> (admin.institutionId.Some? && admin.institutionId.value != 0
                            && Policies.UserAllows(Policies.ViewAny, admin, admin))
    ensures r.Refused? ==> r.status == Forbidden
    ensures r.Listed? ==> forall id :: id in r.ids <==>
              id in users && Shown(users[id], admin.institutionId.value, role, search)
    ensures r.Listed? ==> Listing.Distinct(r.ids)
    ensures r.Listed? ==> forall i, j :: 0 <= i < j < |r.ids| ==>
              r.ids[i] in users && r.ids[j] in users && users[r.ids[i]].createdAt >= users[r.ids[j]].createdAt
  {
    if admin.institutionId.None? || admin.institutionId.value == 0 then Refused(Forbidden)
    else if !Policies.UserAllows(Policies.ViewAny, admin, admin) then Refused(Forbidden)
    else
      var inst := admin.institutionId.value;
      Listed(Listing.SelectSorted(users, (u: User) => Shown(u, inst, role, search), (u: User) => -u.createdAt))
  }

  /** Students, parents and super admins never appear, whatever the parameters. */
  lemma OnlyStaffListed(users: map<UserId, User>, admin: User, role: Option<string>, search: Option<string>, id: UserId)
    requires id in users && !(users[id].role in StaffRoles)
    ensures Index(users, admin, role, search).Listed? ==> id !in Index(users, admin, role, search).ids
  {
  }

  /** Users of other institutions never appear. */
  lemma OwnInstitutionOnly(users: map<UserId, User>, admin: User, role: Option<string>, search: Option<string>, id: UserId)
    requires id in users && users[id].institutionId != admin.institutionId
    ensures Index(users, admin, role, search).Listed? ==> id !in Index(users, admin, role, search).ids
  {
  }

  /** A `role` parameter outside the three staff roles is ignored. */
  lemma UnknownRoleIgnored(users: map<UserId, User>, admin: User, role: string, search: Option<string>)
    requires !(role in StaffRoles)
    ensures Index(users, admin, Some(role), search).Listed? == Index(users, admin, None, search).Listed?
    ensures Index(users, admin, Some(role), search).Listed? ==>
              forall id :: id in Index(users, admin, Some(role), search).ids <==> id in Index(users, admin, None, search).ids
  {
  }

  /** Teachers, students and parents are refused by the policy even inside an institution. */
  lemma OnlyAdminsAndManagersList(users: map<UserId, User>, admin: User, role: Option<string>, search: Option<string>)
    requires !(admin.role in {RoleSuperAdmin, RoleAdmin, RoleManager})
    ensures Index(users, admin, role, search) == Refused(Forbidden)
  {
  }
}
