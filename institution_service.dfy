/**
 * The institution service: the business rule that an institution's
 * municipality lies in its wilaya, checked before a create and before an
 * update that sends either location field.
 */
module InstitutionService {
  import opened Wrappers
  import opened InstitutionRepository

  /** The municipalities table: the wilaya each municipality lies in. */
  type Municipalities = map<nat, nat>

  /**
   * `validateMunicipalityBelongsToWilaya`: skipped when either id is
   * empty (absent or 0); otherwise the municipality must exist and lie in
   * the wilaya.
   */
  predicate LocationAccepted(municipalities: Municipalities, municipalityId: Option<nat>, wilayaId: Option<nat>) {
    !Given(municipalityId) || !Given(wilayaId)
    || (municipalityId.value in municipalities && municipalities[municipalityId.value] == wilayaId.value)
  }

  /** A rejection means both ids were given and the municipality is unknown or lies elsewhere. */
  lemma RejectionMeansMismatch(municipalities: Municipalities, municipalityId: Option<nat>, wilayaId: Option<nat>)
    requires !LocationAccepted(municipalities, municipalityId, wilayaId)
    ensures Given(municipalityId) && Given(wilayaId)
    ensures municipalityId.value !in municipalities || municipalities[municipalityId.value] != wilayaId.value
  {
  }

  /** `create`: the rule first; a rejected location stores nothing. */
  method Create(repo: Repository, municipalities: Municipalities, data: Institution) returns (r: Option<InstitutionId>)
    requires repo.Valid()
    modifies repo
    ensures repo.Valid()
    ensures r.Some? <==> LocationAccepted(municipalities, data.municipalityId, data.wilayaId)
    ensures r.Some? ==> r.value !in old(repo.rows) && repo.rows == old(repo.rows)[r.value := data.(trashed := false)]
                        && repo.cache == old(repo.cache) - {UnfilteredKey}
    ensures r.None? ==> repo.rows == old(repo.rows) && repo.cache == old(repo.cache)
  {
    if !LocationAccepted(municipalities, data.municipalityId, data.wilayaId) {
      return None;
    }
    var id := repo.Create(data);
    r := Some(id);
  }

  /** `isset`: the field was sent with a non-null value. */
  predicate IsSet<T>(o: Option<Option<T>>) {
    o.Some? && o.value.Some?
  }

  /**
   * Whether `update` lets the patch through: the rule is checked, on the
   * stored row merged with the patch, only when the patch sets either
   * location field.
   */
  predicate UpdateAccepted(municipalities: Municipalities, inst: Institution, p: InstitutionPatch) {
    var merged := ApplyPatch(inst, p);
    !(IsSet(p.municipalityId) || IsSet(p.wilayaId))
    || LocationAccepted(municipalities, merged.municipalityId, merged.wilayaId)
  }

  /**
   * A patch that moves only the wilaya is checked against the stored
   * municipality, while one that clears both location fields is not
   * checked at all.
   */
  lemma UpdateChecksMergedLocation(municipalities: Municipalities, inst: Institution, p: InstitutionPatch, w: nat)
    requires p.municipalityId.None? && p.wilayaId == Some(Some(w)) && w != 0
    requires Given(inst.municipalityId) && inst.municipalityId.value in municipalities
    ensures UpdateAccepted(municipalities, inst, p) <==> municipalities[inst.municipalityId.value] == w
    ensures UpdateAccepted(municipalities, inst, p.(municipalityId := Some(None), wilayaId := Some(None)))
  {
  }

  /** `update` of a bound institution: rejected, changing nothing, or stored with the repository's update. */
  method Update(repo: Repository, municipalities: Municipalities, id: InstitutionId, p: InstitutionPatch)
    returns (accepted: bool)
    requires repo.Valid() && id in repo.rows
    modifies repo
    ensures repo.Valid()
    ensures accepted <==> UpdateAccepted(municipalities, old(repo.rows)[id], p)
    ensures accepted ==> repo.rows == old(repo.rows)[id := ApplyPatch(old(repo.rows)[id], p)]
                         && repo.cache == old(repo.cache) - {UnfilteredKey, InstanceKey(id)}
    ensures !accepted ==> repo.rows == old(repo.rows) && repo.cache == old(repo.cache)
  {
    if !UpdateAccepted(municipalities, repo.rows[id], p) {
      return false;
    }
    repo.Update(id, p);
    accepted := true;
  }
}
