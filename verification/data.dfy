/**
 * The entities of package `data` (the data directory) and the ledger keys they are
 * stored under. Go's `Key()` methods return a list of strings that the
 * ledger library joins into one composite key; `LedgerKey` names each
 * layout and `KeyParts` gives back that list, which is injective, so two
 * different `LedgerKey`s never address the same ledger entry.
 */
module Data {

  const DIDDOC_PREFIX := "open:did:doc:"
  const LATEST := ":latest"
  const VERSION_ID_TAG := ":versionId:"
  const DIDDOC_STATUS_PREFIX := "open:did:status:"
  const VCMETA_PREFIX := "open:vcmeta:"

  // DIDDOC_STATUS values.
  const DOC_ACTIVATED := "ACTIVATED"
  const DOC_DEACTIVATED := "DEACTIVATED"
  const DOC_REVOKED := "REVOKED"
  const DOC_TERMINATED := "TERMINATED"

  // VC_STATUS values.
  const VC_ACTIVE := "ACTIVE"
  const VC_INACTIVE := "INACTIVE"
  const VC_REVOKED := "REVOKED"

  /** The ROLE_TYPE whose registrations skip the provider and signature checks. */
  const TAS := "Tas"

  datatype VerificationMethod = VerificationMethod(
    id: string,
    keyType: string,
    controller: string,
    publicKeyMultibase: string,
    authType: int)

  datatype Service = Service(
    id: string,
    serviceType: string,
    serviceEndpoint: seq<string>)

  datatype DidDoc = DidDoc(
    context: seq<string>,
    id: string,
    controller: string,
    created: string,
    updated: string,
    versionId: string,
    deactivated: bool,
    verificationMethod: seq<VerificationMethod>,
    assertionMethod: seq<string>,
    authentication: seq<string>,
    keyAgreement: seq<string>,
    capabilityInvocation: seq<string>,
    capabilityDelegation: seq<string>,
    service: seq<Service>)
  {
    /** `DidDoc.Key`: the entry holding the latest version of the document. */
    function Key(): (k: LedgerKey)
      ensures KeyParts(k) == [DIDDOC_PREFIX, id, LATEST]
    {
      LatestDocKey(id)
    }
  }

  /** A document stored under its own version id (a snapshot). */
  datatype DidDocWithVersionId = DidDocWithVersionId(didDoc: DidDoc)
  {
    /** `DidDocWithVersionId.Key`: the entry of one archived version. */
    function Key(): (k: LedgerKey)
      ensures KeyParts(k) == [DIDDOC_PREFIX, didDoc.id, VERSION_ID_TAG + didDoc.versionId]
    {
      VersionDocKey(didDoc.id, didDoc.versionId)
    }
  }

  datatype Provider = Provider(did: string, certVcRef: string)

  datatype InvokeProof = InvokeProof(
    proofType: string,
    created: string,
    verificationMethod: string,
    proofPurpose: string,
    proofValue: string)

  /** A registration request: the document as multibase text, signed by a provider. */
  datatype InvokedDidDoc = InvokedDidDoc(
    didDoc: string,
    proof: InvokeProof,
    controller: Provider,
    nonce: string)

  datatype DidDocAndStatus = DidDocAndStatus(didDoc: DidDoc, status: string)

  /** The fields of a `DocumentStatus` as the ledger stores them. */
  datatype StatusRecord = StatusRecord(
    id: string,
    status: string,
    version: string,
    roleType: string,
    terminatedTime: string)
  {
    /** `DocumentStatus.Key`. */
    function Key(): (k: LedgerKey)
      ensures KeyParts(k) == [DIDDOC_STATUS_PREFIX, id]
    {
      StatusKey(id)
    }
  }

  datatype CredentialSchema = CredentialSchema(id: string, schemaType: string)

  datatype VcMeta = VcMeta(
    id: string,
    issuer: Provider,
    subject: string,
    credentialSchema: CredentialSchema,
    status: string,
    issuanceDate: string,
    validFrom: string,
    validUntil: string,
    formatVersion: string,
    language: string)
  {
    /** `VcMeta.Key`. */
    function Key(): (k: LedgerKey)
      ensures KeyParts(k) == [VCMETA_PREFIX, id]
    {
      VcMetaKey(id)
    }
  }

  /** The four key layouts the contract writes. */
  datatype LedgerKey =
    | LatestDocKey(did: string)
    | VersionDocKey(did: string, versionId: string)
    | StatusKey(did: string)
    | VcMetaKey(vcId: string)

  /** The list of strings that `Key()` returns for each layout. */
  function KeyParts(k: LedgerKey): seq<string>
  {
    match k
    case LatestDocKey(did) => [DIDDOC_PREFIX, did, LATEST]
    case VersionDocKey(did, v) => [DIDDOC_PREFIX, did, VERSION_ID_TAG + v]
    case StatusKey(did) => [DIDDOC_STATUS_PREFIX, did]
    case VcMetaKey(id) => [VCMETA_PREFIX, id]
  }

  /**
   * Different layouts never produce the same list of strings; in particular
   * the latest copy of a document and any of its snapshots live under
   * different keys, whatever the version id.
   */
  lemma KeyPartsInjective(k1: LedgerKey, k2: LedgerKey)
    ensures KeyParts(k1) == KeyParts(k2) ==> k1 == k2
  {
    match (k1, k2)
    case (LatestDocKey(_), VersionDocKey(_, v)) =>
      LatestIsNoVersionTag(v);
    case (VersionDocKey(_, v), LatestDocKey(_)) =>
      LatestIsNoVersionTag(v);
    case (VersionDocKey(_, v1), VersionDocKey(_, v2)) =>
      assert (VERSION_ID_TAG + v1)[|VERSION_ID_TAG|..] == v1;
      assert (VERSION_ID_TAG + v2)[|VERSION_ID_TAG|..] == v2;
    case (StatusKey(_), _) =>
      assert KeyParts(k1)[0] == DIDDOC_STATUS_PREFIX;
    case (VcMetaKey(_), _) =>
      assert KeyParts(k1)[0] == VCMETA_PREFIX;
    case _ =>
  }

  /** ":latest" is never ":versionId:" followed by anything. */
  lemma LatestIsNoVersionTag(v: string)
    ensures LATEST != VERSION_ID_TAG + v
  {
    assert LATEST[1] == 'l';
    assert (VERSION_ID_TAG + v)[1] == 'v';
  }
}
