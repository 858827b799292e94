/**
 * The DID document service (service/document_service.go): registration of
 * a DID document signed by a provider, reads of the latest or an archived
 * version together with the document's status, and the two status updates
 * (revocation and termination of the status record; activation and
 * deactivation of a document version).
 *
 * The ledger keeps, per DID, the latest document, its status record, and
 * one snapshot per superseded version. `Consistent` is the invariant that
 * layout keeps; every operation preserves it.
 *
 * A transaction whose invocation returns an error is not committed by
 * Fabric, so the public operations restore the ledger they started from
 * when they fail; the helpers below them show the writes as the Go code
 * issues them, partial ones included.
 */
module DocumentService {
  import opened GoStrings
  import opened Errors
  import opened Data
  import opened Ledger
  import opened Repository
  import opened Status
  import opened Document
  import Crypto
  import JsonUtil

  const VERSION_TAG := "versionId="
  const KEY_TAG := "#"
  const MISSING_VERSION_ID := "invalid verificationMethod. missing versionId"
  const MISSING_KEY_ID := "invalid verificationMethod. missing keyId"
  const PROVIDER_NOT_FOUND := "cannot found provider"
  const BAD_SIGNATURE := "cannot verify signature"

  // ---------------------------------------------------------------------
  // Key URLs

  /**
   * `parsingKeyUrl`: a key URL has the version id after its only
   * `versionId=` and the key id after the only `#` that follows.
   */
  function ParseKeyUrl(keyUrl: string): (r: Result<(string, string)>)
    ensures !Contains(keyUrl, VERSION_TAG) ==> r == Err(Plain(MISSING_VERSION_ID))
    ensures r.Err? ==> r.error == Plain(MISSING_VERSION_ID) || r.error == Plain(MISSING_KEY_ID)
    ensures r.Ok? ==> !Contains(r.value.0, KEY_TAG) && !Contains(r.value.1, KEY_TAG)
    ensures r.Ok? ==> !Contains(r.value.0 + KEY_TAG + r.value.1, VERSION_TAG)
    ensures r.Ok? ==>
              exists prefix :: !Contains(prefix, VERSION_TAG) &&
                               keyUrl == prefix + VERSION_TAG + r.value.0 + KEY_TAG + r.value.1
  {
    var versionSplit := Split(keyUrl, VERSION_TAG);
    assert !Contains(keyUrl, VERSION_TAG) ==> versionSplit == [keyUrl] by {
      if !Contains(keyUrl, VERSION_TAG) {
        SplitNone(keyUrl, VERSION_TAG);
      }
    }
    if |versionSplit| != 2 then
      Err(Plain(MISSING_VERSION_ID))
    else
      var versionPart := versionSplit[1];
      var keySplit := Split(versionPart, KEY_TAG);
      if |keySplit| != 2 then Err(Plain(MISSING_KEY_ID))
      else
        SplitTwice(keyUrl, VERSION_TAG, KEY_TAG);
        assert keyUrl == versionSplit[0] + VERSION_TAG + keySplit[0] + KEY_TAG + keySplit[1];
        Ok((keySplit[0], keySplit[1]))
  }

  /** A string split in two by `outer`, whose second part splits in two by `inner`, is the join of the three parts. */
  lemma SplitTwice(s: string, outer: string, inner: string)
    requires |outer| > 0 && |inner| > 0
    requires |Split(s, outer)| == 2 && |Split(Split(s, outer)[1], inner)| == 2
    ensures var first := Split(s, outer);
            var second := Split(first[1], inner);
            && !Contains(first[0], outer) && !Contains(second[0], inner) && !Contains(second[1], inner)
            && !Contains(second[0] + inner + second[1], outer)
            && s == first[0] + outer + second[0] + inner + second[1]
  {
    var first := Split(s, outer);
    var second := Split(first[1], inner);
    SplitTwo(s, outer);
    SplitTwo(first[1], inner);
    Regroup(s, first[0], outer, first[1], second[0], inner, second[1]);
  }

  /** Concatenation regrouped: a join whose last part is itself a join. */
  lemma Regroup(s: string, a: string, outer: string, rest: string, b: string, inner: string, c: string)
    requires s == a + outer + rest && rest == b + inner + c
    ensures s == a + outer + b + inner + c
  {
  }

  /** Neither tag can overlap a later occurrence of itself. */
  lemma TagsDoNotOverlap()
    ensures forall d :: 0 < d < |VERSION_TAG| ==> VERSION_TAG[d] != VERSION_TAG[0]
    ensures forall d :: 0 < d < |KEY_TAG| ==> KEY_TAG[d] != KEY_TAG[0]
  {
  }

  /** The two splits `parsingKeyUrl` makes of a well-formed key URL. */
  lemma SplitKeyUrl(prefix: string, versionId: string, keyId: string)
    requires !Contains(prefix, VERSION_TAG) && !Contains(versionId + KEY_TAG + keyId, VERSION_TAG)
    requires !Contains(versionId, KEY_TAG) && !Contains(keyId, KEY_TAG)
    ensures Split(prefix + VERSION_TAG + versionId + KEY_TAG + keyId, VERSION_TAG) == [prefix, versionId + KEY_TAG + keyId]
    ensures Split(versionId + KEY_TAG + keyId, KEY_TAG) == [versionId, keyId]
  {
    var rest := versionId + KEY_TAG + keyId;
    assert prefix + VERSION_TAG + versionId + KEY_TAG + keyId == prefix + VERSION_TAG + rest;
    TagsDoNotOverlap();
    SplitJoin(prefix, VERSION_TAG, rest);
    SplitJoin(versionId, KEY_TAG, keyId);
  }

  /**
   * Every well-formed key URL parses back into its parts: the prefix holds
   * no `versionId=`, and neither id holds a `#`.
   */
  lemma ParseKeyUrlRoundTrip(prefix: string, versionId: string, keyId: string)
    requires !Contains(prefix, VERSION_TAG) && !Contains(versionId + KEY_TAG + keyId, VERSION_TAG)
    requires !Contains(versionId, KEY_TAG) && !Contains(keyId, KEY_TAG)
    ensures ParseKeyUrl(prefix + VERSION_TAG + versionId + KEY_TAG + keyId) == Ok((versionId, keyId))
  {
    var rest := versionId + KEY_TAG + keyId;
    var url := prefix + VERSION_TAG + versionId + KEY_TAG + keyId;
    SplitKeyUrl(prefix, versionId, keyId);
    assert Split(url, VERSION_TAG) == [prefix, rest];
    assert Split(rest, KEY_TAG) == [versionId, keyId];
  }

  /**
   * The parts of a well-formed key URL: a prefix without `versionId=`, a
   * version id and a key id without `#`, and no `versionId=` after the
   * prefix.
   */
  predicate KeyUrlParts(prefix: string, versionId: string, keyId: string)
  {
    && !Contains(prefix, VERSION_TAG) && !Contains(versionId + KEY_TAG + keyId, VERSION_TAG)
    && !Contains(versionId, KEY_TAG) && !Contains(keyId, KEY_TAG)
  }

  /**
   * `parsingKeyUrl` accepts exactly the well-formed key URLs, and returns
   * their version id and key id.
   */
  lemma ParseKeyUrlAcceptsExactly(keyUrl: string)
    ensures ParseKeyUrl(keyUrl).Ok? <==>
              exists prefix, versionId, keyId :: KeyUrlParts(prefix, versionId, keyId) &&
                keyUrl == prefix + VERSION_TAG + versionId + KEY_TAG + keyId
    ensures forall prefix, versionId, keyId :: KeyUrlParts(prefix, versionId, keyId) &&
              keyUrl == prefix + VERSION_TAG + versionId + KEY_TAG + keyId
              ==> ParseKeyUrl(keyUrl) == Ok((versionId, keyId))
  {
    forall prefix, versionId, keyId | KeyUrlParts(prefix, versionId, keyId) &&
              keyUrl == prefix + VERSION_TAG + versionId + KEY_TAG + keyId
      ensures ParseKeyUrl(keyUrl) == Ok((versionId, keyId))
    {
      ParseKeyUrlRoundTrip(prefix, versionId, keyId);
    }
    var r := ParseKeyUrl(keyUrl);
    if r.Ok? {
      var prefix :| !Contains(prefix, VERSION_TAG) &&
                    keyUrl == prefix + VERSION_TAG + r.value.0 + KEY_TAG + r.value.1;
      assert KeyUrlParts(prefix, r.value.0, r.value.1);
    }
  }

  // ---------------------------------------------------------------------
  // Reads

  /** The latest document of a DID on a well-keyed ledger. */
  function LatestOf(s: Store, did: string): (d: DidDoc)
    requires WellKeyed(s) && LatestDocKey(did) in s
    ensures s[LatestDocKey(did)] == LatestDoc(d) && d.id == did
  {
    assert KeyOf(s[LatestDocKey(did)]) == LatestDocKey(did);
    s[LatestDocKey(did)].doc
  }

  /** The status record of a DID on a well-keyed ledger. */
  function StatusOf(s: Store, did: string): (r: StatusRecord)
    requires WellKeyed(s) && StatusKey(did) in s
    ensures s[StatusKey(did)] == StatusEntry(r) && r.id == did
  {
    assert KeyOf(s[StatusKey(did)]) == StatusKey(did);
    s[StatusKey(did)].record
  }

  /** The three results of `getDidDocAndDocumentStatus`; a nil pointer is `None`. */
  datatype Fetched = Fetched(doc: Option<DidDoc>, status: Option<StatusRecord>, err: Option<Error>)

  /**
   * `getDidDocAndDocumentStatus`: the status record first; then the latest
   * document when no version or the status record's version is asked for,
   * and otherwise the snapshot of that version.
   */
  function ReadDocAndStatus(s: Store, did: string, versionId: string): (f: Fetched)
    requires WellKeyed(s)
    ensures StatusKey(did) !in s ==> f == Fetched(None, None, Some(NotFound(DIDDOC_STATUS_GET_ERROR)))
    ensures StatusKey(did) in s ==> f.status == Some(StatusOf(s, did))
    ensures f.doc.Some? <==> f.err.None?
    ensures f.err.Some? ==> f.err.value in {NotFound(DIDDOC_STATUS_GET_ERROR), NotFound(DIDDOC_GET_ERROR)}
    ensures (StatusKey(did) in s && (versionId == "" || versionId == StatusOf(s, did).version))
            ==> f.doc == (if LatestDocKey(did) in s then Some(LatestOf(s, did)) else None)
    ensures (StatusKey(did) in s && versionId != "" && versionId != StatusOf(s, did).version)
            ==> f.doc.Some? == (VersionDocKey(did, versionId) in s)
    ensures (StatusKey(did) in s && versionId != "" && versionId != StatusOf(s, did).version && f.doc.Some?)
            ==> s[VersionDocKey(did, versionId)] == SnapshotDoc(DidDocWithVersionId(f.doc.value))
                && f.doc.value.versionId == versionId
    ensures f.doc.Some? ==> f.doc.value.id == did
  {
    match GetDocumentStatus(s, did)
    case Err(e) => Fetched(None, None, Some(e))
    case Ok(record) =>
      var read := if versionId == "" || versionId == record.version then GetDidDocLatest(s, did)
                  else GetDidDocWithVersionId(s, did, versionId);
      if read.Ok? then Fetched(Some(read.value), Some(record), None)
      else Fetched(None, Some(record), Some(read.error))
  }

  /**
   * `GetDidDocAndStatus`: a missing entry is a nil result rather than an
   * error, and every error a read can report is a missing entry, so the
   * read itself never fails.
   */
  function GetDidDocAndStatus(s: Store, did: string, versionId: string): (r: Result<Option<DidDocAndStatus>>)
    requires WellKeyed(s)
    ensures r.Ok?
    ensures r.value.Some? <==> ReadDocAndStatus(s, did, versionId).doc.Some?
    ensures r.value.Some? ==>
              var f := ReadDocAndStatus(s, did, versionId);
              r.value.value == DidDocAndStatus(f.doc.value, f.status.value.status)
  {
    var f := ReadDocAndStatus(s, did, versionId);
    if f.err.Some? then
      assert Contains(Text(f.err.value), KEY_NOT_FOUND) by {
        NotFoundIsRecognisable(DIDDOC_STATUS_GET_ERROR);
        NotFoundIsRecognisable(DIDDOC_GET_ERROR);
      }
      var e := f.err.value;
      if Contains(Text(e), KEY_NOT_FOUND) then Ok(None) else Err(e)
    else
      Ok(Some(MakeDidDocAndStatus(f.doc.value, f.status.value.status)))
  }

  // ---------------------------------------------------------------------
  // The ledger layout

  /**
   * The layout the service keeps: a DID has a latest document exactly when
   * it has a status record, the record's version is the latest document's
   * version id, and every snapshot is of a version that sorts (as a Go
   * string) before the latest one.
   */
  ghost predicate Consistent(s: Store)
  {
    WellKeyed(s) && PairedKeys(s) && VersionsAgree(s) && SnapshotsOlder(s)
  }

  /** A DID has a status record exactly when it has a latest document. */
  ghost predicate PairedKeys(s: Store)
  {
    forall did :: StatusKey(did) in s <==> LatestDocKey(did) in s
  }

  /** The status record's version is the latest document's version id. */
  ghost predicate VersionsAgree(s: Store)
    requires WellKeyed(s)
  {
    forall did :: StatusKey(did) in s && LatestDocKey(did) in s ==>
                   StatusOf(s, did).version == LatestOf(s, did).versionId
  }

  /** Every snapshot is of a version that sorts before the latest one. */
  ghost predicate SnapshotsOlder(s: Store)
    requires WellKeyed(s)
  {
    forall did, v :: VersionDocKey(did, v) in s ==>
                       LatestDocKey(did) in s && Less(v, LatestOf(s, did).versionId)
  }

  /** The ledger of a new channel is consistent. */
  lemma EmptyConsistent()
    ensures Consistent(map[])
  {
  }

  /**
   * On a consistent ledger a read finds the latest document when no version
   * or the latest version is asked for, the snapshot of any other version
   * that was archived, and nothing for a DID that was never registered.
   */
  lemma ReadRule(s: Store, did: string, versionId: string)
    requires Consistent(s)
    ensures LatestDocKey(did) !in s ==> GetDidDocAndStatus(s, did, versionId) == Ok(None)
    ensures (LatestDocKey(did) in s && (versionId == "" || versionId == LatestOf(s, did).versionId)) ==>
              GetDidDocAndStatus(s, did, versionId) == Ok(Some(DidDocAndStatus(LatestOf(s, did), StatusOf(s, did).status)))
    ensures (LatestDocKey(did) in s && versionId != "" && versionId != LatestOf(s, did).versionId) ==>
              GetDidDocAndStatus(s, did, versionId) ==
                (if VersionDocKey(did, versionId) in s
                 then Ok(Some(DidDocAndStatus(s[VersionDocKey(did, versionId)].snapshot.didDoc, StatusOf(s, did).status)))
                 else Ok(None))
  {
  }

  /** The ledger after a first registration of `doc`. */
  function Created(s: Store, doc: DidDoc, roleType: string): Store
  {
    s[LatestDocKey(doc.id) := LatestDoc(doc)][StatusKey(doc.id) := StatusEntry(MakeDocumentStatus(doc, roleType))]
  }

  /**
   * The ledger after `doc` replaces the latest document of its DID: the
   * old latest document is archived under its own version, and the status
   * record moves to the new version.
   */
  function Updated(s: Store, doc: DidDoc): Store
    requires WellKeyed(s) && LatestDocKey(doc.id) in s && StatusKey(doc.id) in s
  {
    var saved := LatestOf(s, doc.id);
    s[LatestDocKey(doc.id) := LatestDoc(doc)]
     [VersionDocKey(doc.id, saved.versionId) := SnapshotDoc(MakeDidDocWithVersionId(saved))]
     [StatusKey(doc.id) := StatusEntry(StatusOf(s, doc.id).(version := doc.versionId))]
  }

  /** A first registration keeps the ledger consistent. */
  lemma CreatedConsistent(s: Store, doc: DidDoc, roleType: string)
    requires Consistent(s) && LatestDocKey(doc.id) !in s
    ensures Consistent(Created(s, doc, roleType))
  {
    var t := Created(s, doc, roleType);
    forall k | k in t
      ensures KeyOf(t[k]) == k
    {
    }
    forall did, v | VersionDocKey(did, v) in t
      ensures LatestDocKey(did) in t && Less(v, LatestOf(t, did).versionId)
    {
      assert VersionDocKey(did, v) in s;
      assert did != doc.id;
    }
  }

  /** An update to a later version keeps the ledger consistent. */
  lemma UpdatedConsistent(s: Store, doc: DidDoc)
    requires Consistent(s) && LatestDocKey(doc.id) in s
    requires Less(LatestOf(s, doc.id).versionId, doc.versionId)
    ensures Consistent(Updated(s, doc))
  {
    var saved := LatestOf(s, doc.id);
    var t := Updated(s, doc);
    UpdatedEntries(s, doc);
    forall did | LatestDocKey(did) in t
      ensures StatusKey(did) in t && StatusOf(t, did).version == LatestOf(t, did).versionId
    {
    }
    assert VersionsAgree(t);
    forall did, v | VersionDocKey(did, v) in t
      ensures LatestDocKey(did) in t && Less(v, LatestOf(t, did).versionId)
    {
      if did == doc.id {
        if v != saved.versionId {
          assert VersionDocKey(did, v) in s;
          LessTransitive(v, saved.versionId, doc.versionId);
        }
      } else {
        assert VersionDocKey(did, v) in s;
      }
    }
    assert SnapshotsOlder(t);
  }

  /**
   * What an update writes: one new key, the snapshot of the saved version;
   * the DID's latest document and status version become the new ones; the
   * entries of every other DID stay.
   */
  lemma UpdatedEntries(s: Store, doc: DidDoc)
    requires WellKeyed(s) && LatestDocKey(doc.id) in s && StatusKey(doc.id) in s
    ensures var t := Updated(s, doc);
            && t.Keys == s.Keys + {VersionDocKey(doc.id, LatestOf(s, doc.id).versionId)}
            && WellKeyed(t)
            && LatestOf(t, doc.id) == doc
            && StatusOf(t, doc.id).version == doc.versionId
            && (forall did :: did != doc.id && LatestDocKey(did) in t ==> LatestOf(t, did) == LatestOf(s, did))
            && (forall did :: did != doc.id && StatusKey(did) in t ==> StatusOf(t, did) == StatusOf(s, did))
  {
    var t := Updated(s, doc);
    assert t.Keys == s.Keys + {VersionDocKey(doc.id, LatestOf(s, doc.id).versionId)};
    forall k | k in t
      ensures KeyOf(t[k]) == k
    {
    }
  }

  /** After a first registration, a read of the DID finds the new document, ACTIVATED. */
  lemma ReadAfterCreate(s: Store, doc: DidDoc, roleType: string)
    requires Consistent(s) && LatestDocKey(doc.id) !in s
    ensures GetDidDocAndStatus(Created(s, doc, roleType), doc.id, "") == Ok(Some(DidDocAndStatus(doc, DOC_ACTIVATED)))
  {
    CreatedConsistent(s, doc, roleType);
    ReadRule(Created(s, doc, roleType), doc.id, "");
  }

  /**
   * After an update, a read of the DID finds the new document, and a read
   * of the superseded version finds the superseded document; the status
   * is unchanged.
   */
  lemma ReadAfterUpdate(s: Store, doc: DidDoc)
    requires Consistent(s) && LatestDocKey(doc.id) in s
    requires Less(LatestOf(s, doc.id).versionId, doc.versionId)
    ensures GetDidDocAndStatus(Updated(s, doc), doc.id, "") ==
              Ok(Some(DidDocAndStatus(doc, StatusOf(s, doc.id).status)))
    ensures LatestOf(s, doc.id).versionId != "" ==>
              GetDidDocAndStatus(Updated(s, doc), doc.id, LatestOf(s, doc.id).versionId) ==
                Ok(Some(DidDocAndStatus(LatestOf(s, doc.id), StatusOf(s, doc.id).status)))
  {
    var saved := LatestOf(s, doc.id);
    var t := Updated(s, doc);
    UpdatedConsistent(s, doc);
    ReadRule(t, doc.id, "");
    if saved.versionId != "" {
      LessIrreflexive(doc.versionId);
      assert saved.versionId != doc.versionId;
      ReadRule(t, doc.id, saved.versionId);
    }
  }

  /** A status record changed in place keeps the ledger consistent while its version stays. */
  lemma StatusChangeConsistent(s: Store, did: string, record: StatusRecord)
    requires Consistent(s) && StatusKey(did) in s
    requires record.id == did && record.version == StatusOf(s, did).version
    ensures Consistent(s[StatusKey(did) := StatusEntry(record)])
  {
    OverwriteConsistent(s, StatusKey(did), StatusEntry(record));
  }

  // ---------------------------------------------------------------------
  // Signature verification and admission

  /**
   * The code the contract calls but cannot see: the multibase decoders, the
   * curve's square root, SHA-256, ECDSA verification, JSON encoding and
   * decoding, and the struct validator applied to a decoded document
   * (`None` when it accepts).
   */
  datatype Env = Env(
    decoders: Crypto.Decoders,
    modSqrt: Crypto.ModSqrt,
    sha256: seq<byte> -> seq<byte>,
    ecdsaVerify: (Crypto.PublicKey, seq<byte>, nat, nat) -> bool,
    codec: JsonUtil.JsonCodec,
    marshalRequest: InvokedDidDoc -> seq<byte>,
    unmarshalDidDoc: seq<byte> -> DidDoc,
    validate: DidDoc -> Option<Error>)

  /** The request as it was signed: with an empty proof value. */
  function Unsigned(invoked: InvokedDidDoc): (u: InvokedDidDoc)
    ensures u.proof.proofValue == ""
    ensures u.(proof := u.proof.(proofValue := invoked.proof.proofValue)) == invoked
  {
    invoked.(proof := invoked.proof.(proofValue := ""))
  }

  /** The signed text: the unsigned request as JSON with its object keys sorted. */
  function PlainText(invoked: InvokedDidDoc, env: Env): seq<byte>
  {
    JsonUtil.CanonicalText(env.codec, env.marshalRequest(Unsigned(invoked)))
  }

  /**
   * What `verifyDidDocument` reports: the key URL names a version of the
   * provider's document and one of its keys; that key must be allowed to
   * invoke capabilities and must decode to a curve point; the proof value,
   * after its leading byte, must be a signature of the plain text under it.
   * An empty proof value makes the slice expression panic.
   */
  function SignatureCheck(s: Store, invoked: InvokedDidDoc, env: Env): Outcome
    requires WellKeyed(s)
  {
    var parsed := ParseKeyUrl(invoked.proof.verificationMethod);
    if parsed.Err? then Failure(parsed.error) else
    var fetched := ReadDocAndStatus(s, invoked.controller.did, parsed.value.0);
    if fetched.err.Some? then Failure(fetched.err.value) else
    var vm := SigningKey(fetched.doc.value, parsed.value.1);
    if vm.Err? then Failure(vm.error) else
    var compressed := Crypto.DecodeMultibase(vm.value.publicKeyMultibase, env.decoders);
    if compressed.Err? then Failure(compressed.error) else
    var key := Crypto.DecompressPublicKey(compressed.value, env.modSqrt);
    if key.Err? then Failure(key.error) else
    var signature := Crypto.DecodeMultibase(invoked.proof.proofValue, env.decoders);
    if signature.Err? then Failure(signature.error) else
    if |signature.value| < 1 then Failure(Panic(Crypto.SLICE_OUT_OF_RANGE)) else
    var verified := Crypto.Verify(PlainText(invoked, env), signature.value[1..], key.value, env.sha256, env.ecdsaVerify);
    if verified.Err? then Failure(verified.error)
    else if !verified.value then Failure(Plain(BAD_SIGNATURE))
    else Success
  }

  /**
   * A request passes the check only when its key id is listed under
   * `capabilityInvocation` in the provider's document of the version the
   * key URL names, and ECDSA accepts the SHA-256 digest of the plain text
   * with that key and the r and s the proof value carries after its first
   * byte.
   */
  lemma AcceptedRequestIsSigned(s: Store, invoked: InvokedDidDoc, env: Env)
    requires WellKeyed(s) && SignatureCheck(s, invoked, env).Success?
    ensures ParseKeyUrl(invoked.proof.verificationMethod).Ok?
    ensures var keyUrl := ParseKeyUrl(invoked.proof.verificationMethod).value;
            var fetched := ReadDocAndStatus(s, invoked.controller.did, keyUrl.0);
            && fetched.doc.Some?
            && keyUrl.1 in fetched.doc.value.capabilityInvocation
            && SigningKey(fetched.doc.value, keyUrl.1).Ok?
    ensures var keyUrl := ParseKeyUrl(invoked.proof.verificationMethod).value;
            var doc := ReadDocAndStatus(s, invoked.controller.did, keyUrl.0).doc.value;
            var vm := SigningKey(doc, keyUrl.1).value;
            var compressed := Crypto.DecodeMultibase(vm.publicKeyMultibase, env.decoders);
            var signature := Crypto.DecodeMultibase(invoked.proof.proofValue, env.decoders);
            && compressed.Ok? && Crypto.DecompressPublicKey(compressed.value, env.modSqrt).Ok?
            && signature.Ok? && |signature.value| >= 1 + Crypto.CURVE_BYTES
            && env.ecdsaVerify(Crypto.DecompressPublicKey(compressed.value, env.modSqrt).value,
                               env.sha256(PlainText(invoked, env)),
                               Crypto.BigEndian(signature.value[1..][..Crypto.CURVE_BYTES]),
                               Crypto.BigEndian(signature.value[1..][Crypto.CURVE_BYTES..]))
  {
  }

  /** `verifyDidDocument`. */
  method VerifyDidDocument(ledger: WorldState, invoked: InvokedDidDoc, env: Env) returns (out: Outcome)
    requires WellKeyed(ledger.entries)
    ensures out == SignatureCheck(ledger.entries, invoked, env)
  {
    var parsed := ParseKeyUrl(invoked.proof.verificationMethod);
    if parsed.Err? {
      return Failure(parsed.error);
    }
    var (versionId, keyId) := parsed.value;
    var fetched := ReadDocAndStatus(ledger.entries, invoked.controller.did, versionId);
    if fetched.err.Some? {
      return Failure(fetched.err.value);
    }
    var vm := GetVerificationMethod(fetched.doc.value, keyId);
    if vm.Err? {
      return Failure(vm.error);
    }
    var compressed := Crypto.DecodeMultibase(vm.value.publicKeyMultibase, env.decoders);
    if compressed.Err? {
      return Failure(compressed.error);
    }
    var key := Crypto.DecompressPublicKey(compressed.value, env.modSqrt);
    if key.Err? {
      return Failure(key.error);
    }
    var signature := Crypto.DecodeMultibase(invoked.proof.proofValue, env.decoders);
    if signature.Err? {
      return Failure(signature.error);
    }
    var documentJson := env.marshalRequest(Unsigned(invoked));
    var plainText := JsonUtil.SortJson(documentJson, env.codec);
    if |signature.value| < 1 {
      return Failure(Panic(Crypto.SLICE_OUT_OF_RANGE));
    }
    var verified := Crypto.Verify(plainText, signature.value[1..], key.value, env.sha256, env.ecdsaVerify);
    if verified.Err? {
      return Failure(verified.error);
    }
    if !verified.value {
      return Failure(Plain(BAD_SIGNATURE));
    }
    return Success;
  }

  /**
   * What `validateInvokedDidDoc` reports: a TAS registers without any
   * check; anyone else must name a registered provider and pass the
   * signature check, whose errors come back wrapped (a panic is not).
   */
  function Admission(s: Store, invoked: InvokedDidDoc, roleType: string, env: Env): (out: Outcome)
    requires WellKeyed(s)
    ensures roleType == TAS ==> out == Success
    ensures roleType != TAS && LatestDocKey(invoked.controller.did) !in s ==>
              out == Failure(GetContractError(DIDDOC_PROVIDER_INVALID, Plain(PROVIDER_NOT_FOUND)))
    ensures roleType != TAS && LatestDocKey(invoked.controller.did) in s ==>
              (out.Success? <==> SignatureCheck(s, invoked, env).Success?)
    ensures (roleType != TAS && LatestDocKey(invoked.controller.did) in s && SignatureCheck(s, invoked, env).Failure?
             && !SignatureCheck(s, invoked, env).error.Panic?) ==>
              out == Failure(GetContractError(DIDDOC_SIGNATURE_VERIFICATION_ERROR, SignatureCheck(s, invoked, env).error))
    ensures out.Failure? && out.error.Panic? ==> out == SignatureCheck(s, invoked, env)
  {
    if roleType == TAS then Success
    else if !IsExistDidDocLatest(s, invoked.controller.did) then
      Failure(GetContractError(DIDDOC_PROVIDER_INVALID, Plain(PROVIDER_NOT_FOUND)))
    else
      var checked := SignatureCheck(s, invoked, env);
      if checked.Success? || checked.error.Panic? then checked
      else Failure(GetContractError(DIDDOC_SIGNATURE_VERIFICATION_ERROR, checked.error))
  }

  /** `validateInvokedDidDoc`. */
  method ValidateInvokedDidDoc(ledger: WorldState, invoked: InvokedDidDoc, roleType: string, env: Env)
    returns (out: Outcome)
    requires WellKeyed(ledger.entries)
    ensures out == Admission(ledger.entries, invoked, roleType, env)
  {
    if roleType == TAS {
      return Success;
    }
    if !IsExistDidDocLatest(ledger.entries, invoked.controller.did) {
      return Failure(GetContractError(DIDDOC_PROVIDER_INVALID, Plain(PROVIDER_NOT_FOUND)));
    }
    out := VerifyDidDocument(ledger, invoked, env);
    if out.Failure? && !out.error.Panic? {
      out := Failure(GetContractError(DIDDOC_SIGNATURE_VERIFICATION_ERROR, out.error));
    }
  }

  /**
   * `convertFromMultiBaseToDocument`: the document is the decoded bytes'
   * JSON (a decoding error there is ignored) and must pass the validator.
   */
  function ConvertFromMultiBaseToDocument(documentHash: string, env: Env): (r: Result<DidDoc>)
    ensures Crypto.DecodeMultibase(documentHash, env.decoders).Err? ==>
              r == Err(Crypto.DecodeMultibase(documentHash, env.decoders).error)
    ensures r.Ok? ==> Crypto.DecodeMultibase(documentHash, env.decoders).Ok?
    ensures r.Ok? ==> r.value == env.unmarshalDidDoc(Crypto.DecodeMultibase(documentHash, env.decoders).value)
    ensures r.Ok? ==> env.validate(r.value).None?
    ensures r.Err? && Crypto.DecodeMultibase(documentHash, env.decoders).Ok? ==>
              var doc := env.unmarshalDidDoc(Crypto.DecodeMultibase(documentHash, env.decoders).value);
              env.validate(doc).Some? && r.error == env.validate(doc).value
  {
    var bytes := Crypto.DecodeMultibase(documentHash, env.decoders);
    if bytes.Err? then Err(bytes.error)
    else
      var doc := env.unmarshalDidDoc(bytes.value);
      match env.validate(doc)
      case Some(e) => Err(e)
      case None => Ok(doc)
  }

  /**
   * A document encoded in any supported base, whose JSON decodes to a
   * document the validator accepts, converts back to that document.
   */
  lemma ConvertRoundTrip(b: Crypto.Base, text: string, bytes: seq<byte>, env: Env)
    requires Crypto.DecoderOf(b, env.decoders)(text) == Ok(bytes)
    requires env.validate(env.unmarshalDidDoc(bytes)).None?
    ensures ConvertFromMultiBaseToDocument([Crypto.PrefixOf(b)] + text, env) == Ok(env.unmarshalDidDoc(bytes))
  {
    Crypto.DecodeMultibaseDispatch(b, text, env.decoders);
  }

  // ---------------------------------------------------------------------
  // Writes

  /** The error an update reports when its version id does not sort after the saved one. */
  function VersionRejected(saved: string, requested: string): Error
  {
    GetContractError(DIDDOC_VERSIONID_INVAILD,
      Plain("cannot update didDoc. saved didDoc version id : " + saved + ", new didDoc version id " + requested))
  }

  /** `saveDidDocAndStatus`: two inserts; the second can fail after the first wrote. */
  method SaveDidDocAndStatus(ledger: WorldState, doc: DidDoc, status: StatusRecord) returns (out: Outcome)
    modifies ledger
    ensures LatestDocKey(doc.id) in old(ledger.entries) ==>
              out == Failure(AlreadyExists(DIDDOC_INSERT_ERROR)) && ledger.entries == old(ledger.entries)
    ensures LatestDocKey(doc.id) !in old(ledger.entries) && StatusKey(status.id) in old(ledger.entries) ==>
              out == Failure(AlreadyExists(DIDDOC_STATUS_INSERT_ERROR)) &&
              ledger.entries == old(ledger.entries)[LatestDocKey(doc.id) := LatestDoc(doc)]
    ensures LatestDocKey(doc.id) !in old(ledger.entries) && StatusKey(status.id) !in old(ledger.entries) ==>
              out == Success &&
              ledger.entries == old(ledger.entries)[LatestDocKey(doc.id) := LatestDoc(doc)][StatusKey(status.id) := StatusEntry(status)]
    ensures old(WellKeyed(ledger.entries)) ==> WellKeyed(ledger.entries)
  {
    out := InsertDidDocLatest(ledger, doc);
    if out.Failure? {
      return;
    }
    out := InsertDocumentStatus(ledger, status);
  }

  /**
   * `updateDidDocAndStatus`: refused unless the new version id sorts after
   * the saved one; then the new document becomes the latest, the saved one
   * is archived, and the status record moves to the new version.
   */
  method UpdateDidDocAndStatus(ledger: WorldState, doc: DidDoc, saved: DidDoc, savedStatus: StatusRecord)
    returns (out: Outcome)
    modifies ledger
    ensures !Less(saved.versionId, doc.versionId) ==>
              out == Failure(VersionRejected(saved.versionId, doc.versionId)) && ledger.entries == old(ledger.entries)
    ensures Less(saved.versionId, doc.versionId) && VersionDocKey(saved.id, saved.versionId) in old(ledger.entries) ==>
              out == Failure(AlreadyExists(DIDDOC_INSERT_ERROR)) &&
              ledger.entries == old(ledger.entries)[LatestDocKey(doc.id) := LatestDoc(doc)]
    ensures Less(saved.versionId, doc.versionId) && VersionDocKey(saved.id, saved.versionId) !in old(ledger.entries) ==>
              out == Success &&
              ledger.entries == old(ledger.entries)[LatestDocKey(doc.id) := LatestDoc(doc)]
                                  [VersionDocKey(saved.id, saved.versionId) := SnapshotDoc(MakeDidDocWithVersionId(saved))]
                                  [StatusKey(savedStatus.id) := StatusEntry(savedStatus.(version := doc.versionId))]
    ensures old(WellKeyed(ledger.entries)) ==> WellKeyed(ledger.entries)
  {
    if !Less(saved.versionId, doc.versionId) {
      return Failure(VersionRejected(saved.versionId, doc.versionId));
    }
    PutDidDocLatest(ledger, doc);
    out := InsertDidDocWithVersionId(ledger, MakeDidDocWithVersionId(saved));
    if out.Failure? {
      return;
    }
    var ds := new DocumentStatus.FromRecord(savedStatus);
    ds.version := doc.versionId;
    PutDocumentStatus(ledger, ds.Record());
  }

  /**
   * `saveOrUpdateDocument`: a DID without a latest document or without a
   * status record is saved; one with both is updated.
   */
  method SaveOrUpdateDocument(ledger: WorldState, doc: DidDoc, status: StatusRecord) returns (out: Outcome)
    requires WellKeyed(ledger.entries) && status.id == doc.id
    modifies ledger
    ensures LatestDocKey(doc.id) in old(ledger.entries) && StatusKey(doc.id) !in old(ledger.entries) ==>
              out == Failure(AlreadyExists(DIDDOC_INSERT_ERROR)) && ledger.entries == old(ledger.entries)
    ensures LatestDocKey(doc.id) !in old(ledger.entries) && StatusKey(doc.id) in old(ledger.entries) ==>
              out == Failure(AlreadyExists(DIDDOC_STATUS_INSERT_ERROR)) &&
              ledger.entries == old(ledger.entries)[LatestDocKey(doc.id) := LatestDoc(doc)]
    ensures LatestDocKey(doc.id) !in old(ledger.entries) && StatusKey(doc.id) !in old(ledger.entries) ==>
              out == Success &&
              ledger.entries == old(ledger.entries)[LatestDocKey(doc.id) := LatestDoc(doc)][StatusKey(doc.id) := StatusEntry(status)]
    ensures LatestDocKey(doc.id) in old(ledger.entries) && StatusKey(doc.id) in old(ledger.entries) ==>
              var saved := LatestOf(old(ledger.entries), doc.id);
              && (!Less(saved.versionId, doc.versionId) ==>
                    out == Failure(VersionRejected(saved.versionId, doc.versionId)) && ledger.entries == old(ledger.entries))
              && (Less(saved.versionId, doc.versionId) && VersionDocKey(doc.id, saved.versionId) in old(ledger.entries) ==>
                    out == Failure(AlreadyExists(DIDDOC_INSERT_ERROR)) &&
                    ledger.entries == old(ledger.entries)[LatestDocKey(doc.id) := LatestDoc(doc)])
              && (Less(saved.versionId, doc.versionId) && VersionDocKey(doc.id, saved.versionId) !in old(ledger.entries) ==>
                    out == Success && ledger.entries == Updated(old(ledger.entries), doc))
    ensures WellKeyed(ledger.entries)
  {
    NotFoundIsRecognisable(DIDDOC_STATUS_GET_ERROR);
    NotFoundIsRecognisable(DIDDOC_GET_ERROR);
    var fetched := ReadDocAndStatus(ledger.entries, doc.id, "");
    if fetched.err.Some? && !Contains(Text(fetched.err.value), KEY_NOT_FOUND) {
      // Every error of the read is a missing entry.
      assert false;
    }
    if fetched.doc.None? {
      out := SaveDidDocAndStatus(ledger, doc, status);
    } else {
      out := UpdateDidDocAndStatus(ledger, doc, fetched.doc.value, fetched.status.value);
    }
  }

  /**
   * `RegisterDidDoc`: admission, conversion, then save or update. A failed
   * registration leaves the ledger as it was; on a consistent ledger it
   * fails for a known DID exactly when the new version id does not sort
   * after the latest one.
   */
  method RegisterDidDoc(ledger: WorldState, invoked: InvokedDidDoc, roleType: string, env: Env) returns (out: Outcome)
    requires WellKeyed(ledger.entries)
    modifies ledger
    ensures out.Failure? ==> ledger.entries == old(ledger.entries)
    ensures Admission(old(ledger.entries), invoked, roleType, env).Failure? ==>
              out == Admission(old(ledger.entries), invoked, roleType, env)
    ensures (Admission(old(ledger.entries), invoked, roleType, env).Success? &&
             ConvertFromMultiBaseToDocument(invoked.didDoc, env).Err?) ==>
              out == Failure(GetContractError(DIDDOC_CONVERT_ERROR, ConvertFromMultiBaseToDocument(invoked.didDoc, env).error))
    ensures (Admission(old(ledger.entries), invoked, roleType, env).Success? &&
             ConvertFromMultiBaseToDocument(invoked.didDoc, env).Ok?) ==>
              var s := old(ledger.entries);
              var doc := ConvertFromMultiBaseToDocument(invoked.didDoc, env).value;
              && (LatestDocKey(doc.id) !in s && StatusKey(doc.id) !in s ==>
                    out == Success && ledger.entries == Created(s, doc, roleType))
              && (LatestDocKey(doc.id) in s && StatusKey(doc.id) !in s ==>
                    out == Failure(AlreadyExists(DIDDOC_INSERT_ERROR)))
              && (LatestDocKey(doc.id) !in s && StatusKey(doc.id) in s ==>
                    out == Failure(AlreadyExists(DIDDOC_STATUS_INSERT_ERROR)))
              && (LatestDocKey(doc.id) in s && StatusKey(doc.id) in s ==>
                    && (!Less(LatestOf(s, doc.id).versionId, doc.versionId) ==>
                          out == Failure(VersionRejected(LatestOf(s, doc.id).versionId, doc.versionId)))
                    && (Less(LatestOf(s, doc.id).versionId, doc.versionId) && VersionDocKey(doc.id, LatestOf(s, doc.id).versionId) in s ==>
                          out == Failure(AlreadyExists(DIDDOC_INSERT_ERROR)))
                    && (Less(LatestOf(s, doc.id).versionId, doc.versionId) && VersionDocKey(doc.id, LatestOf(s, doc.id).versionId) !in s ==>
                          out == Success && ledger.entries == Updated(s, doc)))
    ensures (old(Consistent(ledger.entries)) && Admission(old(ledger.entries), invoked, roleType, env).Success? &&
             ConvertFromMultiBaseToDocument(invoked.didDoc, env).Ok?) ==>
              var s := old(ledger.entries);
              var doc := ConvertFromMultiBaseToDocument(invoked.didDoc, env).value;
              (out.Success? <==> (LatestDocKey(doc.id) !in s || Less(LatestOf(s, doc.id).versionId, doc.versionId)))
    ensures old(Consistent(ledger.entries)) ==> Consistent(ledger.entries)
  {
    var before := ledger.entries;
    out := ValidateInvokedDidDoc(ledger, invoked, roleType, env);
    if out.Failure? {
      return;
    }
    var converted := ConvertFromMultiBaseToDocument(invoked.didDoc, env);
    if converted.Err? {
      return Failure(GetContractError(DIDDOC_CONVERT_ERROR, converted.error));
    }
    var doc := converted.value;
    var status := MakeDocumentStatus(doc, roleType);
    out := SaveOrUpdateDocument(ledger, doc, status);
    if out.Failure? {
      // Fabric does not commit the writes of a failed invocation.
      ledger.entries := before;
    } else if Consistent(before) {
      if LatestDocKey(doc.id) in before {
        UpdatedConsistent(before, doc);
      } else {
        CreatedConsistent(before, doc, roleType);
      }
    }
    if Consistent(before) && LatestDocKey(doc.id) in before && Less(LatestOf(before, doc.id).versionId, doc.versionId) {
      LessIrreflexive(LatestOf(before, doc.id).versionId);
    }
  }

  /** The status change `updateDocumentStatus` performs for a requested status, if any. */
  function RequestFor(status: string, terminatedTime: string): (q: Option<Request>)
    ensures q.Some? <==> status == DOC_REVOKED || status == DOC_TERMINATED
    ensures q.Some? ==> Target(q.value) == status
    ensures q == Some(TerminateRequest(terminatedTime)) <==> status == DOC_TERMINATED
  {
    if status == DOC_REVOKED then Some(RevokeRequest)
    else if status == DOC_TERMINATED then Some(TerminateRequest(terminatedTime))
    else None
  }

  /** `updateDocumentStatus`: revoke or terminate the record in place; other statuses are refused. */
  method UpdateDocumentStatus(ds: DocumentStatus, status: string, terminatedTime: string) returns (out: Outcome)
    modifies ds
    ensures RequestFor(status, terminatedTime).None? ==>
              out == Failure(Plain("unsupported status: " + status)) && ds.Record() == old(ds.Record())
    ensures RequestFor(status, terminatedTime).Some? ==>
              var q := RequestFor(status, terminatedTime).value;
              && ds.Record() == After(old(ds.Record()), q)
              && (out.Success? <==> Step(old(ds.Record()), q).Ok?)
              && (out.Failure? ==> out.error == Step(old(ds.Record()), q).error)
  {
    if status == DOC_REVOKED {
      out := ds.Revoke();
    } else if status == DOC_TERMINATED {
      out := ds.Terminated(terminatedTime);
    } else {
      out := Failure(Plain("unsupported status: " + status));
    }
  }

  /**
   * `UpdateDidDocStatusRevocation`: moves the status record of a DID one
   * step along its life cycle (revocation or termination) and answers the
   * latest document; the documents themselves do not change.
   */
  method UpdateDidDocStatusRevocation(ledger: WorldState, did: string, status: string, terminatedTime: string)
    returns (r: Result<DidDoc>)
    requires WellKeyed(ledger.entries)
    modifies ledger
    ensures r.Err? ==> ledger.entries == old(ledger.entries)
    ensures StatusKey(did) !in old(ledger.entries) ==> r == Err(NotFound(DIDDOC_STATUS_GET_ERROR))
    ensures StatusKey(did) in old(ledger.entries) && LatestDocKey(did) !in old(ledger.entries) ==>
              r == Err(NotFound(DIDDOC_GET_ERROR))
    ensures StatusKey(did) in old(ledger.entries) && LatestDocKey(did) in old(ledger.entries) ==>
              var record := StatusOf(old(ledger.entries), did);
              match RequestFor(status, terminatedTime)
              case None => r == Err(GetContractError(DIDDOC_STATUS_INVALID, Plain("unsupported status: " + status)))
              case Some(q) =>
                if Step(record, q).Err? then r == Err(GetContractError(DIDDOC_STATUS_INVALID, Step(record, q).error))
                else r == Ok(LatestOf(old(ledger.entries), did)) &&
                     ledger.entries == old(ledger.entries)[StatusKey(did) := StatusEntry(Step(record, q).value)]
    ensures WellKeyed(ledger.entries)
    ensures old(Consistent(ledger.entries)) ==> Consistent(ledger.entries)
  {
    var fetched := ReadDocAndStatus(ledger.entries, did, "");
    if fetched.err.Some? {
      return Err(fetched.err.value);
    }
    var ds := new DocumentStatus.FromRecord(fetched.status.value);
    var out := UpdateDocumentStatus(ds, status, terminatedTime);
    if out.Failure? {
      return Err(GetContractError(DIDDOC_STATUS_INVALID, out.error));
    }
    ghost var before := ledger.entries;
    PutDocumentStatus(ledger, ds.Record());
    r := Ok(fetched.doc.value);
    StepEffect(fetched.status.value, RequestFor(status, terminatedTime).value);
    if Consistent(before) {
      StatusChangeConsistent(before, did, ds.Record());
    }
  }

  /**
   * `UpdateDidDocStatusInService`: activates or deactivates one version of
   * a document, writing it back where it was read from; the status record
   * does not change, and on a consistent ledger no entry is added.
   */
  method UpdateDidDocStatusInService(ledger: WorldState, did: string, versionId: string, status: string)
    returns (r: Result<DidDoc>)
    requires WellKeyed(ledger.entries)
    modifies ledger
    ensures r.Err? ==> ledger.entries == old(ledger.entries)
    ensures ReadDocAndStatus(old(ledger.entries), did, versionId).err.Some? ==>
              r == Err(ReadDocAndStatus(old(ledger.entries), did, versionId).err.value)
    ensures var fetched := ReadDocAndStatus(old(ledger.entries), did, versionId);
            fetched.doc.Some? && status != DOC_ACTIVATED && status != DOC_DEACTIVATED ==>
              r == Err(GetContractError(DIDDOC_STATUS_INVALID, Plain("unsupported status: " + status)))
    ensures var fetched := ReadDocAndStatus(old(ledger.entries), did, versionId);
            (fetched.doc.Some? && (status == DOC_ACTIVATED || status == DOC_DEACTIVATED)) ==>
              var doc := fetched.doc.value.(deactivated := status == DOC_DEACTIVATED);
              && r == Ok(doc)
              && (fetched.status.value.version == doc.versionId ==>
                    ledger.entries == old(ledger.entries)[LatestDocKey(did) := LatestDoc(doc)])
              && (fetched.status.value.version != doc.versionId ==>
                    ledger.entries == old(ledger.entries)[VersionDocKey(did, doc.versionId) := SnapshotDoc(DidDocWithVersionId(doc))])
    ensures WellKeyed(ledger.entries)
    ensures old(Consistent(ledger.entries)) ==> Consistent(ledger.entries)
    ensures old(Consistent(ledger.entries)) ==>
              ledger.entries.Keys == old(ledger.entries).Keys &&
              (StatusKey(did) in old(ledger.entries) ==> ledger.entries[StatusKey(did)] == old(ledger.entries)[StatusKey(did)])
  {
    var fetched := ReadDocAndStatus(ledger.entries, did, versionId);
    if fetched.err.Some? {
      return Err(fetched.err.value);
    }
    var switched := SwitchStatus(fetched.doc.value, status);
    if switched.Err? {
      return Err(GetContractError(DIDDOC_STATUS_INVALID, switched.error));
    }
    var doc := switched.value;
    assert doc == fetched.doc.value.(deactivated := status == DOC_DEACTIVATED);
    ghost var before := ledger.entries;
    if fetched.status.value.version == doc.versionId {
      PutDidDocLatest(ledger, doc);
    } else {
      PutDidDocWithVersionId(ledger, MakeDidDocWithVersionId(doc));
    }
    r := Ok(doc);
    if Consistent(before) {
      WriteBackConsistent(before, did, versionId, status == DOC_DEACTIVATED, ledger.entries);
    }
  }

  /**
   * On a consistent ledger, a document read for a DID and version is
   * written back to the entry it came from: the key exists already, is not
   * the status key, and the ledger `t` after the write stays consistent.
   */
  lemma WriteBackConsistent(s: Store, did: string, versionId: string, deactivated: bool, t: Store)
    requires Consistent(s) && ReadDocAndStatus(s, did, versionId).doc.Some?
    requires var fetched := ReadDocAndStatus(s, did, versionId);
             var doc := fetched.doc.value.(deactivated := deactivated);
             if fetched.status.value.version == doc.versionId then t == s[LatestDocKey(did) := LatestDoc(doc)]
             else t == s[VersionDocKey(did, doc.versionId) := SnapshotDoc(DidDocWithVersionId(doc))]
    ensures Consistent(t) && t.Keys == s.Keys
    ensures StatusKey(did) in s ==> t[StatusKey(did)] == s[StatusKey(did)]
  {
    var fetched := ReadDocAndStatus(s, did, versionId);
    var record := fetched.status.value;
    var doc := fetched.doc.value.(deactivated := deactivated);
    if versionId == "" || versionId == record.version {
      assert fetched.doc.value == LatestOf(s, did);
      OverwriteConsistent(s, LatestDocKey(did), LatestDoc(doc));
    } else {
      assert s[VersionDocKey(did, versionId)] == SnapshotDoc(DidDocWithVersionId(fetched.doc.value));
      assert doc.versionId == versionId && doc.id == did;
      OverwriteConsistent(s, VersionDocKey(did, versionId), SnapshotDoc(DidDocWithVersionId(doc)));
    }
  }

  /**
   * Overwriting an entry under its own key keeps the ledger consistent
   * when a latest document keeps its version id and a status record its
   * version.
   */
  lemma OverwriteConsistent(s: Store, k: LedgerKey, v: Value)
    requires Consistent(s) && k in s && KeyOf(v) == k
    requires k.LatestDocKey? ==> v.LatestDoc? && s[k].LatestDoc? && v.doc.versionId == s[k].doc.versionId
    requires k.StatusKey? ==> v.StatusEntry? && s[k].StatusEntry? && v.record.version == s[k].record.version
    ensures Consistent(s[k := v])
  {
    var t := s[k := v];
    assert t.Keys == s.Keys;
    forall key | key in t
      ensures KeyOf(t[key]) == key
    {
    }
    assert WellKeyed(t);
    forall d | LatestDocKey(d) in t
      ensures LatestOf(t, d).versionId == LatestOf(s, d).versionId
    {
    }
    forall d | StatusKey(d) in t
      ensures StatusOf(t, d).version == StatusOf(s, d).version
    {
    }
  }

  /**
   * Version ids are compared as Go strings, not as numbers: "10" sorts
   * before "9", so a document at version "9" cannot be updated to "10".
   */
  lemma VersionsCompareAsText()
    ensures Less("10", "9") && !Less("9", "10")
  {
  }
}
