/**
 * The VC metadata service (service/vcmeta_service.go): registration of the
 * metadata of a verifiable credential, its lookup, and changes of its
 * status. A status may change to any other value until it is REVOKED;
 * after that no change is accepted.
 */
module VcMetaService {
  import opened GoStrings
  import opened Errors
  import opened Data
  import opened Ledger
  import opened Repository

  /** The error a refused status change reports. */
  function StatusRefused(from: string, to: string): Error
  {
    GetContractError(VCMETA_STATUS_INVALID, Plain("cannot update status from " + from + " to " + to))
  }

  /**
   * The status change `UpdateVcStatus` applies to a record: refused when
   * nothing would change or the credential is revoked; otherwise only the
   * status is replaced, by any value at all.
   */
  function ChangeStatus(m: VcMeta, requested: string): (r: Result<VcMeta>)
    ensures r.Ok? <==> m.status != requested && m.status != VC_REVOKED
    ensures r.Ok? ==> r.value.status == requested && r.value.(status := m.status) == m
    ensures r.Err? ==> r.error == StatusRefused(m.status, requested)
  {
    if m.status == requested || m.status == VC_REVOKED then Err(StatusRefused(m.status, requested))
    else Ok(m.(status := requested))
  }

  /** The record after a sequence of status requests, refused ones included. */
  function RunChanges(m: VcMeta, requests: seq<string>): VcMeta
    decreases |requests|
  {
    if |requests| == 0 then m
    else
      var next := ChangeStatus(m, requests[0]);
      RunChanges(if next.Ok? then next.value else m, requests[1..])
  }

  /** REVOKED is final: no sequence of requests changes a revoked record. */
  lemma {:induction false} RevokedIsFinal(m: VcMeta, requests: seq<string>)
    requires m.status == VC_REVOKED
    ensures RunChanges(m, requests) == m
    decreases |requests|
  {
    if |requests| > 0 {
      assert ChangeStatus(m, requests[0]).Err?;
      RevokedIsFinal(m, requests[1..]);
    }
  }

  /** No sequence of requests changes anything but the status of a record. */
  lemma {:induction false} RunChangesOnlyStatus(m: VcMeta, requests: seq<string>)
    ensures RunChanges(m, requests).(status := m.status) == m
    decreases |requests|
  {
    if |requests| > 0 {
      var next := ChangeStatus(m, requests[0]);
      var m' := if next.Ok? then next.value else m;
      RunChangesOnlyStatus(m', requests[1..]);
    }
  }

  /** A request for REVOKED that is accepted ends every later change. */
  lemma RevocationEndsChanges(m: VcMeta, requests: seq<string>)
    requires m.status != VC_REVOKED
    ensures RunChanges(m, [VC_REVOKED] + requests) == m.(status := VC_REVOKED)
  {
    var revoked := m.(status := VC_REVOKED);
    assert ([VC_REVOKED] + requests)[1..] == requests;
    RevokedIsFinal(revoked, requests);
  }

  /**
   * `RegisterVcMetadata`: the validator (a parameter; `None` when it
   * accepts) runs first, and an id that is already registered is refused
   * by the insert.
   */
  method RegisterVcMetadata(ledger: WorldState, vcMeta: VcMeta, validate: VcMeta -> Option<Error>)
    returns (out: Outcome)
    modifies ledger
    ensures validate(vcMeta).Some? ==>
              out == Failure(GetContractError(VCMETA_CONVERT_ERROR, validate(vcMeta).value)) &&
              ledger.entries == old(ledger.entries)
    ensures validate(vcMeta).None? && VcMetaKey(vcMeta.id) in old(ledger.entries) ==>
              out == Failure(AlreadyExists(VCMETA_INSERT_ERROR)) && ledger.entries == old(ledger.entries)
    ensures validate(vcMeta).None? && VcMetaKey(vcMeta.id) !in old(ledger.entries) ==>
              out == Success && ledger.entries == old(ledger.entries)[VcMetaKey(vcMeta.id) := VcMetaEntry(vcMeta)]
    ensures old(WellKeyed(ledger.entries)) ==> WellKeyed(ledger.entries)
  {
    var invalid := validate(vcMeta);
    if invalid.Some? {
      return Failure(GetContractError(VCMETA_CONVERT_ERROR, invalid.value));
    }
    out := InsertVcMeta(ledger, vcMeta);
  }

  /**
   * `GetVcMetadata`: a missing id is a nil result rather than an error, and
   * a read can fail in no other way, so the lookup never fails.
   */
  function GetVcMetadata(s: Store, vcId: string): (r: Result<Option<VcMeta>>)
    requires WellKeyed(s)
    ensures r.Ok?
    ensures r.value.Some? <==> VcMetaKey(vcId) in s
    ensures r.value.Some? ==> s[VcMetaKey(vcId)] == VcMetaEntry(r.value.value) && r.value.value.id == vcId
  {
    match GetVcMeta(s, vcId)
    case Ok(m) => Ok(Some(m))
    case Err(e) =>
      assert Contains(Text(e), KEY_NOT_FOUND) by {
        NotFoundIsRecognisable(VCMETA_GET_ERROR);
      }
      if !Contains(Text(e), KEY_NOT_FOUND) then Err(e) else Ok(None)
  }

  /**
   * `UpdateVcStatus`: a missing id reports the read's error; otherwise the
   * record's status changes as `ChangeStatus` says, and nothing is written
   * when it refuses.
   */
  method UpdateVcStatus(ledger: WorldState, vcId: string, vcStatus: string) returns (out: Outcome)
    requires WellKeyed(ledger.entries)
    modifies ledger
    ensures out.Failure? ==> ledger.entries == old(ledger.entries)
    ensures VcMetaKey(vcId) !in old(ledger.entries) ==> out == Failure(NotFound(VCMETA_GET_ERROR))
    ensures VcMetaKey(vcId) in old(ledger.entries) ==>
              var changed := ChangeStatus(old(ledger.entries)[VcMetaKey(vcId)].meta, vcStatus);
              && (changed.Err? ==> out == Failure(changed.error))
              && (changed.Ok? ==>
                    out == Success && ledger.entries == old(ledger.entries)[VcMetaKey(vcId) := VcMetaEntry(changed.value)])
    ensures WellKeyed(ledger.entries)
  {
    var read := GetVcMeta(ledger.entries, vcId);
    if read.Err? {
      return Failure(read.error);
    }
    var vcMeta := read.value;
    if vcMeta.status == vcStatus || vcMeta.status == VC_REVOKED {
      return Failure(StatusRefused(vcMeta.status, vcStatus));
    }
    vcMeta := vcMeta.(status := vcStatus);
    PutVcMeta(ledger, vcMeta);
    out := Success;
  }
}
