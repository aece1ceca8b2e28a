/**
 * The institutions table and the repository in front of it, with its
 * key/value cache. Institutions are soft-deleted. The cache has no expiry
 * here; what matters is which entries the writes forget: only the
 * unfiltered full list and, for some writes, the instance entry.
 */
module InstitutionRepository {
  import opened Wrappers
  import opened Php

  type InstitutionId = nat

  datatype Institution = Institution(
    wilayaId: Option<nat>,
    municipalityId: Option<nat>,
    name: string,
    nameAr: Option<string>,
    address: Option<string>,
    phone: Option<string>,
    email: Option<string>,
    kind: string,              // the `type` column
    isActive: bool,
    trashed: bool)

  /** The listing filters; a numeric filter of 0 is empty, like an absent one. */
  datatype InstitutionFilters = InstitutionFilters(
    wilayaId: Option<nat>,
    municipalityId: Option<nat>,
    kind: Option<string>,
    isActive: Option<bool>,
    search: Option<string>,
    withTrashed: Option<bool>)

  const NoFilters := InstitutionFilters(None, None, None, None, None, None)

  /** PHP's `! empty` on an optional id. */
  predicate Given(o: Option<nat>) {
    o.Some? && o.value != 0
  }

  /** `applyFilters`. */
  predicate Matches(inst: Institution, f: InstitutionFilters) {
    (Given(f.wilayaId) ==> inst.wilayaId == f.wilayaId)
    && (Given(f.municipalityId) ==> inst.municipalityId == f.municipalityId)
    && (Filled(f.kind) ==> inst.kind == f.kind.value)
    && (f.isActive.Some? ==> inst.isActive == f.isActive.value)
    && (Filled(f.search) ==>
          Contains(inst.name, f.search.value) || ColumnContains(inst.nameAr, f.search.value)
          || ColumnContains(inst.address, f.search.value))
    && (inst.trashed ==> f.withTrashed == Some(true))
  }

  /** `is_active` filters on `false` as well as on `true`, unlike the other filters. */
  lemma InactiveFilterApplies(inst: Institution)
    requires inst.isActive
    ensures !Matches(inst, NoFilters.(isActive := Some(false)))
    ensures Matches(inst.(trashed := false), NoFilters.(wilayaId := Some(0), kind := Some("0"), search := Some("")))
  {
  }

  /** With no filter, a query sees exactly the live rows; a trashed row needs `with_trashed`. */
  lemma TrashedNeedsWithTrashed(inst: Institution, f: InstitutionFilters)
    ensures Matches(inst, NoFilters) <==> !inst.trashed
    ensures inst.trashed && Matches(inst, f) ==> f.withTrashed == Some(true)
  {
  }

  /** The rows a query over the table returns; the order by name is not modelled. */
  function Query(rows: map<InstitutionId, Institution>, f: InstitutionFilters): (r: set<InstitutionId>)
    ensures forall id :: id in r <==> id in rows && Matches(rows[id], f)
  {
    set id | id in rows && Matches(rows[id], f)
  }

  /** The active, live institutions of a wilaya (`inWilaya()->active()`). */
  function ActiveInWilaya(rows: map<InstitutionId, Institution>, w: nat): (r: set<InstitutionId>)
    ensures forall id :: id in r <==> id in rows && !rows[id].trashed && rows[id].isActive && rows[id].wilayaId == Some(w)
  {
    set id | id in rows && !rows[id].trashed && rows[id].isActive && rows[id].wilayaId == Some(w)
  }

  /** The active, live institutions of a municipality (`inMunicipality()->active()`). */
  function ActiveInMunicipality(rows: map<InstitutionId, Institution>, m: nat): (r: set<InstitutionId>)
    ensures forall id :: id in r <==>
              id in rows && !rows[id].trashed && rows[id].isActive && rows[id].municipalityId == Some(m)
  {
    set id | id in rows && !rows[id].trashed && rows[id].isActive && rows[id].municipalityId == Some(m)
  }

  /** The cache keys: `all:` + the filters, the instance id, `wilaya:` + id, `municipality:` + id. */
  datatype CacheKey =
    | AllKey(filters: InstitutionFilters)
    | InstanceKey(id: InstitutionId)
    | WilayaKey(wilaya: nat)
    | MunicipalityKey(municipality: nat)

  datatype CacheEntry = ListEntry(ids: set<InstitutionId>) | InstanceEntry(inst: Institution)

  /** The key `clearCache` forgets: the list without filters. */
  const UnfilteredKey := AllKey(NoFilters)

  /** The patch `update` applies; `Some(None)` writes a null. */
  datatype InstitutionPatch = InstitutionPatch(
    wilayaId: Option<Option<nat>>,
    municipalityId: Option<Option<nat>>,
    name: Option<string>,
    nameAr: Option<Option<string>>,
    address: Option<Option<string>>,
    phone: Option<Option<string>>,
    email: Option<Option<string>>,
    kind: Option<string>,
    isActive: Option<bool>)

  /** The institution after `$institution->update($data)`. */
  function ApplyPatch(inst: Institution, p: InstitutionPatch): (r: Institution)
    ensures r.trashed == inst.trashed
    ensures r.wilayaId == p.wilayaId.GetOr(inst.wilayaId) && r.municipalityId == p.municipalityId.GetOr(inst.municipalityId)
    ensures r.name == p.name.GetOr(inst.name) && r.kind == p.kind.GetOr(inst.kind) && r.isActive == p.isActive.GetOr(inst.isActive)
    ensures r.nameAr == p.nameAr.GetOr(inst.nameAr) && r.address == p.address.GetOr(inst.address)
    ensures r.phone == p.phone.GetOr(inst.phone) && r.email == p.email.GetOr(inst.email)
  {
    Institution(p.wilayaId.GetOr(inst.wilayaId), p.municipalityId.GetOr(inst.municipalityId), p.name.GetOr(inst.name),
                p.nameAr.GetOr(inst.nameAr), p.address.GetOr(inst.address), p.phone.GetOr(inst.phone),
                p.email.GetOr(inst.email), p.kind.GetOr(inst.kind), p.isActive.GetOr(inst.isActive), inst.trashed)
  }

  class Repository {
    var rows: map<InstitutionId, Institution>
    var nextId: InstitutionId
    var cache: map<CacheKey, CacheEntry>

    /** Ids lie below the next id. */
    predicate Valid()
      reads this
    {
      forall id :: id in rows ==> id < nextId
    }

    constructor ()
      ensures Valid() && rows == map[] && nextId == 0 && cache == map[]
    {
      rows := map[];
      nextId := 0;
      cache := map[];
    }

    /** `all`: the cached list for these filters, or the query's answer, then cached. */
    method All(f: InstitutionFilters) returns (ids: set<InstitutionId>)
      modifies this
      ensures rows == old(rows) && nextId == old(nextId)
      ensures AllKey(f) in old(cache) && old(cache)[AllKey(f)].ListEntry? ==>
                ids == old(cache)[AllKey(f)].ids && cache == old(cache)
      ensures !(AllKey(f) in old(cache) && old(cache)[AllKey(f)].ListEntry?) ==>
                ids == Query(rows, f) && cache == old(cache)[AllKey(f) := ListEntry(ids)]
    {
      if AllKey(f) in cache && cache[AllKey(f)].ListEntry? {
        return cache[AllKey(f)].ids;
      }
      ids := Query(rows, f);
      cache := cache[AllKey(f) := ListEntry(ids)];
    }

    /**
     * `find`: the cached instance, or the live row, then cached. A missing
     * row is not kept, since the cache treats a stored null as a miss.
     */
    method Find(id: InstitutionId) returns (r: Option<Institution>)
      modifies this
      ensures rows == old(rows) && nextId == old(nextId)
      ensures InstanceKey(id) in old(cache) && old(cache)[InstanceKey(id)].InstanceEntry? ==>
                r == Some(old(cache)[InstanceKey(id)].inst) && cache == old(cache)
      ensures !(InstanceKey(id) in old(cache) && old(cache)[InstanceKey(id)].InstanceEntry?) ==>
                (r.Some? <==> id in rows && !rows[id].trashed)
                && (r.Some? ==> r.value == rows[id] && cache == old(cache)[InstanceKey(id) := InstanceEntry(r.value)])
                && (r.None? ==> cache == old(cache))
    {
      if InstanceKey(id) in cache && cache[InstanceKey(id)].InstanceEntry? {
        return Some(cache[InstanceKey(id)].inst);
      }
      if id in rows && !rows[id].trashed {
        r := Some(rows[id]);
        cache := cache[InstanceKey(id) := InstanceEntry(rows[id])];
      } else {
        r := None;
      }
    }

    /** `create`: a new live row; only the unfiltered list is forgotten. */
    method Create(inst: Institution) returns (id: InstitutionId)
      requires Valid()
      modifies this
      ensures Valid()
      ensures id !in old(rows) && rows == old(rows)[id := inst.(trashed := false)]
      ensures cache == old(cache) - {UnfilteredKey}
    {
      id := nextId;
      rows := rows[id := inst.(trashed := false)];
      nextId := nextId + 1;
      cache := cache - {UnfilteredKey};
    }

    /** `update` of a bound (live) institution; the unfiltered list and the instance entry are forgotten. */
    method Update(id: InstitutionId, p: InstitutionPatch)
      requires Valid() && id in rows
      modifies this
      ensures Valid() && nextId == old(nextId)
      ensures rows == old(rows)[id := ApplyPatch(old(rows)[id], p)]
      ensures cache == old(cache) - {UnfilteredKey, InstanceKey(id)}
    {
      rows := rows[id := ApplyPatch(rows[id], p)];
      cache := cache - {UnfilteredKey, InstanceKey(id)};
    }

    /** `delete`: a soft delete; the unfiltered list and the instance entry are forgotten. */
    method Delete(id: InstitutionId) returns (result: bool)
      requires Valid() && id in rows
      modifies this
      ensures Valid() && nextId == old(nextId) && result
      ensures rows == old(rows)[id := old(rows)[id].(trashed := true)]
      ensures cache == old(cache) - {UnfilteredKey, InstanceKey(id)}
    {
      rows := rows[id := rows[id].(trashed := true)];
      cache := cache - {UnfilteredKey, InstanceKey(id)};
      result := true;
    }

    /** `restore`: 404 for an unknown id; otherwise live again, and only the unfiltered list is forgotten. */
    method Restore(id: InstitutionId) returns (found: bool)
      requires Valid()
      modifies this
      ensures Valid() && nextId == old(nextId)
      ensures found <==> id in old(rows)
      ensures found ==> rows == old(rows)[id := old(rows)[id].(trashed := false)] && cache == old(cache) - {UnfilteredKey}
      ensures !found ==> rows == old(rows) && cache == old(cache)
    {
      if id !in rows {
        return false;
      }
      rows := rows[id := rows[id].(trashed := false)];
      cache := cache - {UnfilteredKey};
      found := true;
    }

    /** `forceDelete`: the row is gone; the unfiltered list and the instance entry are forgotten. */
    method ForceDelete(id: InstitutionId) returns (result: bool)
      requires Valid() && id in rows
      modifies this
      ensures Valid() && nextId == old(nextId) && result
      ensures rows == old(rows) - {id}
      ensures cache == old(cache) - {UnfilteredKey, InstanceKey(id)}
    {
      rows := rows - {id};
      cache := cache - {UnfilteredKey, InstanceKey(id)};
      result := true;
    }

    /** `getByWilaya`: the cached list, or the active institutions of the wilaya, then cached. */
    method GetByWilaya(w: nat) returns (ids: set<InstitutionId>)
      modifies this
      ensures rows == old(rows) && nextId == old(nextId)
      ensures WilayaKey(w) in old(cache) && old(cache)[WilayaKey(w)].ListEntry? ==>
                ids == old(cache)[WilayaKey(w)].ids && cache == old(cache)
      ensures !(WilayaKey(w) in old(cache) && old(cache)[WilayaKey(w)].ListEntry?) ==>
                ids == ActiveInWilaya(rows, w) && cache == old(cache)[WilayaKey(w) := ListEntry(ids)]
    {
      if WilayaKey(w) in cache && cache[WilayaKey(w)].ListEntry? {
        return cache[WilayaKey(w)].ids;
      }
      ids := ActiveInWilaya(rows, w);
      cache := cache[WilayaKey(w) := ListEntry(ids)];
    }

    /** `getByMunicipality`: the cached list, or the active institutions of the municipality, then cached. */
    method GetByMunicipality(m: nat) returns (ids: set<InstitutionId>)
      modifies this
      ensures rows == old(rows) && nextId == old(nextId)
      ensures MunicipalityKey(m) in old(cache) && old(cache)[MunicipalityKey(m)].ListEntry? ==>
                ids == old(cache)[MunicipalityKey(m)].ids && cache == old(cache)
      ensures !(MunicipalityKey(m) in old(cache) && old(cache)[MunicipalityKey(m)].ListEntry?) ==>
                ids == ActiveInMunicipality(rows, m) && cache == old(cache)[MunicipalityKey(m) := ListEntry(ids)]
    {
      if MunicipalityKey(m) in cache && cache[MunicipalityKey(m)].ListEntry? {
        return cache[MunicipalityKey(m)].ids;
      }
      ids := ActiveInMunicipality(rows, m);
      cache := cache[MunicipalityKey(m) := ListEntry(ids)];
    }
  }

  /**
   * The invalidation leaks: after a wilaya listing is cached, deactivating
   * one of its institutions does not change what the listing returns.
   */
  method StaleWilayaListing(repo: Repository, id: InstitutionId, w: nat) returns (before: set<InstitutionId>, after: set<InstitutionId>)
    requires repo.Valid() && id in repo.rows && WilayaKey(w) !in repo.cache
    requires !repo.rows[id].trashed && repo.rows[id].isActive && repo.rows[id].wilayaId == Some(w)
    modifies repo
    ensures id in before && before == after
    ensures id !in ActiveInWilaya(repo.rows, w)
  {
    before := repo.GetByWilaya(w);
    repo.Update(id, InstitutionPatch(None, None, None, None, None, None, None, None, Some(false)));
    after := repo.GetByWilaya(w);
  }
}
