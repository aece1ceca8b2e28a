/**
 * The roles table behind the role administration endpoints. System roles
 * (the five seeded ones) keep their names and cannot be deleted; a role
 * still assigned to users cannot be deleted either.
 */
module RoleController {
  import opened Wrappers
  import opened Php
  import opened Http

  type RoleId = nat

  datatype Role = Role(name: string, displayName: string, description: Option<string>, isSystem: bool)

  /** `index`: with a `search` parameter, the roles whose name, display name or description contain it. */
  predicate SearchMatches(r: Role, search: Option<string>) {
    search.None?
    || Contains(r.name, search.value) || Contains(r.displayName, search.value)
    || ColumnContains(r.description, search.value)
  }

  function Index(roles: map<RoleId, Role>, search: Option<string>): (r: set<RoleId>)
    ensures forall id :: id in r <==> id in roles && SearchMatches(roles[id], search)
    ensures search.None? ==> r == roles.Keys
  {
    set id | id in roles && SearchMatches(roles[id], search)
  }

  /** A present but empty search term (`"%%"`) keeps every role. */
  lemma EmptySearchKeepsAll(roles: map<RoleId, Role>)
    ensures Index(roles, Some("")) == roles.Keys
  {
    forall id | id in roles
      ensures SearchMatches(roles[id], Some(""))
    {
      assert "" <= roles[id].name[0..];
    }
  }

  /** The validated body of an update request. */
  datatype RolePatch = RolePatch(name: Option<string>, displayName: Option<string>, description: Option<Option<string>>)

  /** `update`: the sent name is dropped for a system role; everything else sent is written. */
  function Updated(r: Role, p: RolePatch): (r': Role)
    ensures r'.isSystem == r.isSystem
    ensures r'.name == (if r.isSystem then r.name else p.name.GetOr(r.name))
    ensures r'.displayName == p.displayName.GetOr(r.displayName)
    ensures r'.description == p.description.GetOr(r.description)
  {
    var p' := if r.isSystem then p.(name := None) else p;
    Role(p'.name.GetOr(r.name), p'.displayName.GetOr(r.displayName), p'.description.GetOr(r.description), r.isSystem)
  }

  /** A system role never changes its name, whatever is sent. */
  lemma SystemNameFixed(r: Role, p: RolePatch)
    requires r.isSystem
    ensures Updated(r, p).name == r.name
  {
  }

  class RoleTable {
    var roles: map<RoleId, Role>

    constructor (initial: map<RoleId, Role>)
      ensures roles == initial
    {
      roles := initial;
    }

    /** `update`: 404 when no role is bound to `id`, otherwise the role is updated. */
    method Update(id: RoleId, p: RolePatch) returns (status: Status)
      modifies this
      ensures id !in old(roles) ==> status == NotFound && roles == old(roles)
      ensures id in old(roles) ==> status == Success && roles == old(roles)[id := Updated(old(roles)[id], p)]
    {
      if id !in roles {
        return NotFound;
      }
      roles := roles[id := Updated(roles[id], p)];
      status := Success;
    }

    /**
     * `destroy`: 404 when no role is bound to `id`, then 403 for a system
     * role, then 422 for a role assigned to users, otherwise the role is
     * deleted. `inUse` is what `$role->users()->exists()` answers.
     */
    method Destroy(id: RoleId, inUse: bool) returns (status: Status)
      modifies this
      ensures id !in old(roles) ==> status == NotFound
      ensures id in old(roles) ==> status == DestroyStatus(old(roles)[id], inUse)
      ensures status == Success ==> roles == old(roles) - {id}
      ensures status != Success ==> roles == old(roles)
    {
      if id !in roles {
        return NotFound;
      }
      if roles[id].isSystem {
        return Forbidden;
      }
      if inUse {
        return Unprocessable;
      }
      roles := roles - {id};
      status := Success;
    }
  }

  /** The outcome of `destroy` on a role, as a function of the two guards. */
  function DestroyStatus(r: Role, inUse: bool): (s: Status)
    ensures s == Success <==> !r.isSystem && !inUse
    ensures r.isSystem ==> s == Forbidden
    ensures !r.isSystem && inUse ==> s == Unprocessable
  {
    if r.isSystem then Forbidden else if inUse then Unprocessable else Success
  }

  /** A system role in use is refused as a system role: that check comes first. */
  lemma SystemCheckFirst(r: Role)
    requires r.isSystem
    ensures DestroyStatus(r, true) == Forbidden && Code(DestroyStatus(r, true)) == 403
  {
  }
}
