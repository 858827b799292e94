/**
 * Typed access to the ledger (repository/document_repository.go and
 * repository/vcmeta_repository.go): each read or insert goes to the
 * entity's own key, and a ledger error comes back wrapped in the contract
 * error code of that operation.
 *
 * Reads expect a well-keyed ledger, so the entry under a document key is a
 * document and the entry under a status key is a status; the decoding
 * errors of the Go code (codes 01005, 02004, 03004) concern bytes the
 * contract did not write and are not part of this model.
 */
module Repository {
  import opened GoStrings
  import opened Errors
  import opened Data
  import opened Ledger

  /** The error a read of a missing entry reports, wrapped with `code`. */
  function NotFound(code: string): Error
  {
    GetContractError(code, Plain(KEY_NOT_FOUND))
  }

  /**
   * A missing entry stays recognisable after wrapping: the text of every
   * `NotFound` error contains the ledger's not-found sentence.
   */
  lemma NotFoundIsRecognisable(code: string)
    ensures Contains(Text(NotFound(code)), KEY_NOT_FOUND)
  {
    assert HasPrefix(KEY_NOT_FOUND, KEY_NOT_FOUND);
    ContractErrorShowsCause(code, Plain(KEY_NOT_FOUND), KEY_NOT_FOUND);
  }

  /** The error a refused insert reports, wrapped with `code`. */
  function AlreadyExists(code: string): Error
  {
    GetContractError(code, Plain(KEY_ALREADY_EXISTS))
  }

  /** `GetDidDocLatest`. */
  function GetDidDocLatest(s: Store, did: string): (r: Result<DidDoc>)
    requires WellKeyed(s)
    ensures r.Ok? <==> LatestDocKey(did) in s
    ensures r.Ok? ==> s[LatestDocKey(did)] == LatestDoc(r.value) && r.value.id == did
    ensures r.Err? ==> r.error == NotFound(DIDDOC_GET_ERROR)
  {
    match Get(s, LatestDocKey(did))
    case Err(e) => Err(GetContractError(DIDDOC_GET_ERROR, e))
    case Ok(v) => Ok(v.doc)
  }

  /** `IsExistDidDocLatest`. */
  function IsExistDidDocLatest(s: Store, did: string): (b: bool)
    requires WellKeyed(s)
    ensures b <==> GetDidDocLatest(s, did).Ok?
  {
    Exists(s, LatestDocKey(did))
  }

  /** `GetDidDocWithVersionID`: the archived document of one version. */
  function GetDidDocWithVersionId(s: Store, did: string, versionId: string): (r: Result<DidDoc>)
    requires WellKeyed(s)
    ensures r.Ok? <==> VersionDocKey(did, versionId) in s
    ensures r.Ok? ==> s[VersionDocKey(did, versionId)] == SnapshotDoc(DidDocWithVersionId(r.value))
    ensures r.Ok? ==> r.value.id == did && r.value.versionId == versionId
    ensures r.Err? ==> r.error == NotFound(DIDDOC_GET_ERROR)
  {
    match Get(s, VersionDocKey(did, versionId))
    case Err(e) => Err(GetContractError(DIDDOC_GET_ERROR, e))
    case Ok(v) => Ok(v.snapshot.didDoc)
  }

  /** `GetDocumentStatus`. */
  function GetDocumentStatus(s: Store, did: string): (r: Result<StatusRecord>)
    requires WellKeyed(s)
    ensures r.Ok? <==> StatusKey(did) in s
    ensures r.Ok? ==> s[StatusKey(did)] == StatusEntry(r.value) && r.value.id == did
    ensures r.Err? ==> r.error == NotFound(DIDDOC_STATUS_GET_ERROR)
  {
    match Get(s, StatusKey(did))
    case Err(e) => Err(GetContractError(DIDDOC_STATUS_GET_ERROR, e))
    case Ok(v) => Ok(v.record)
  }

  /** `GetVcMeta`. */
  function GetVcMeta(s: Store, vcId: string): (r: Result<VcMeta>)
    requires WellKeyed(s)
    ensures r.Ok? <==> VcMetaKey(vcId) in s
    ensures r.Ok? ==> s[VcMetaKey(vcId)] == VcMetaEntry(r.value) && r.value.id == vcId
    ensures r.Err? ==> r.error == NotFound(VCMETA_GET_ERROR)
  {
    match Get(s, VcMetaKey(vcId))
    case Err(e) => Err(GetContractError(VCMETA_GET_ERROR, e))
    case Ok(v) => Ok(v.meta)
  }

  /** Wraps a failed insert with `code`; a success passes through. */
  function Wrap(code: string, out: Outcome): Outcome
  {
    match out
    case Success => Success
    case Failure(e) => Failure(GetContractError(code, e))
  }

  /** `InsertDidDocLatest`. */
  method InsertDidDocLatest(ledger: WorldState, d: DidDoc) returns (out: Outcome)
    modifies ledger
    ensures LatestDocKey(d.id) in old(ledger.entries) ==>
      out == Failure(AlreadyExists(DIDDOC_INSERT_ERROR)) && ledger.entries == old(ledger.entries)
    ensures LatestDocKey(d.id) !in old(ledger.entries) ==>
      out == Success && ledger.entries == old(ledger.entries)[LatestDocKey(d.id) := LatestDoc(d)]
    ensures old(WellKeyed(ledger.entries)) ==> WellKeyed(ledger.entries)
  {
    var e := ledger.Insert(LatestDoc(d));
    out := Wrap(DIDDOC_INSERT_ERROR, e);
  }

  /** `PutDidDocLatest`. */
  method PutDidDocLatest(ledger: WorldState, d: DidDoc)
    modifies ledger
    ensures ledger.entries == old(ledger.entries)[LatestDocKey(d.id) := LatestDoc(d)]
    ensures old(WellKeyed(ledger.entries)) ==> WellKeyed(ledger.entries)
  {
    ledger.Put(LatestDoc(d));
  }

  /** `InsertDidDocWithVersionId`. */
  method InsertDidDocWithVersionId(ledger: WorldState, w: DidDocWithVersionId) returns (out: Outcome)
    modifies ledger
    ensures w.Key() in old(ledger.entries) ==>
      out == Failure(AlreadyExists(DIDDOC_INSERT_ERROR)) && ledger.entries == old(ledger.entries)
    ensures w.Key() !in old(ledger.entries) ==>
      out == Success && ledger.entries == old(ledger.entries)[w.Key() := SnapshotDoc(w)]
    ensures old(WellKeyed(ledger.entries)) ==> WellKeyed(ledger.entries)
  {
    var e := ledger.Insert(SnapshotDoc(w));
    out := Wrap(DIDDOC_INSERT_ERROR, e);
  }

  /** `PutDidDocWithVersionId`. */
  method PutDidDocWithVersionId(ledger: WorldState, w: DidDocWithVersionId)
    modifies ledger
    ensures ledger.entries == old(ledger.entries)[w.Key() := SnapshotDoc(w)]
    ensures old(WellKeyed(ledger.entries)) ==> WellKeyed(ledger.entries)
  {
    ledger.Put(SnapshotDoc(w));
  }

  /** `InsertDocumentStatus`. */
  method InsertDocumentStatus(ledger: WorldState, r: StatusRecord) returns (out: Outcome)
    modifies ledger
    ensures StatusKey(r.id) in old(ledger.entries) ==>
      out == Failure(AlreadyExists(DIDDOC_STATUS_INSERT_ERROR)) && ledger.entries == old(ledger.entries)
    ensures StatusKey(r.id) !in old(ledger.entries) ==>
      out == Success && ledger.entries == old(ledger.entries)[StatusKey(r.id) := StatusEntry(r)]
    ensures old(WellKeyed(ledger.entries)) ==> WellKeyed(ledger.entries)
  {
    var e := ledger.Insert(StatusEntry(r));
    out := Wrap(DIDDOC_STATUS_INSERT_ERROR, e);
  }

  /** `PutDocumentStatus`. */
  method PutDocumentStatus(ledger: WorldState, r: StatusRecord)
    modifies ledger
    ensures ledger.entries == old(ledger.entries)[StatusKey(r.id) := StatusEntry(r)]
    ensures old(WellKeyed(ledger.entries)) ==> WellKeyed(ledger.entries)
  {
    ledger.Put(StatusEntry(r));
  }

  /** `InsertVcMeta`. */
  method InsertVcMeta(ledger: WorldState, m: VcMeta) returns (out: Outcome)
    modifies ledger
    ensures VcMetaKey(m.id) in old(ledger.entries) ==>
      out == Failure(AlreadyExists(VCMETA_INSERT_ERROR)) && ledger.entries == old(ledger.entries)
    ensures VcMetaKey(m.id) !in old(ledger.entries) ==>
      out == Success && ledger.entries == old(ledger.entries)[VcMetaKey(m.id) := VcMetaEntry(m)]
    ensures old(WellKeyed(ledger.entries)) ==> WellKeyed(ledger.entries)
  {
    var e := ledger.Insert(VcMetaEntry(m));
    out := Wrap(VCMETA_INSERT_ERROR, e);
  }

  /** `PutVcMeta`. */
  method PutVcMeta(ledger: WorldState, m: VcMeta)
    modifies ledger
    ensures ledger.entries == old(ledger.entries)[VcMetaKey(m.id) := VcMetaEntry(m)]
    ensures old(WellKeyed(ledger.entries)) ==> WellKeyed(ledger.entries)
  {
    ledger.Put(VcMetaEntry(m));
  }
}
