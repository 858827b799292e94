# did-fabric-contract core, modelled in Dafny

This project models the chaincode core of the OmniOne Open DID Hyperledger
Fabric contract. That core holds three kinds of ledger entries:

- DID documents. Each DID has a *latest* document (key suffix `:latest`), plus a
  snapshot of every document it replaced (key suffix `:versionId:` and the version id).
- The document status record of each DID.
- The metadata of verifiable credentials (VC metadata).

The model follows the Go packages module by module:

| module | what it models |
|---|---|
| `GoStrings` | The parts of Go's `strings` package and its byte-wise string order that the core relies on: `<`, `strings.Contains`, `strings.Split`. |
| `Errors` | `error/error.go`: the error codes, their messages and `GetContractError`. A Go run-time panic is the `Panic` error, which no caller wraps. |
| `Data` | The types of package `data` and the ledger key each one is stored under (`Key()`). |
| `Ledger` | The chaincode's world state: a map from ledger keys to stored values. A `WorldState` object is updated in place by `Insert`, which refuses an existing key, and by `Put`. |
| `Repository` | `repository/*.go`: typed reads, inserts and puts over the world state, and their error wrapping. |
| `Status` | `data/status.go`: the DID document status life cycle, as the class `DocumentStatus` and as pure transition functions with lemmas about runs of requests. |
| `Document` | `data/document.go`: key lookup, the capability-invocation check, activation switching and the wrapper constructors. |
| `ServiceEquality` | `Service.IsEqual` in `data/service.go`, as written and as intended (see Findings). |
| `Crypto` | `utility/crypto.go`: P-256 key compression and decompression, the fixed 64-byte signature layout, key comparison and multibase decoding. |
| `JsonUtil` | `utility/json_util.go`: the canonical JSON text with sorted object keys that signatures are computed over. |
| `DocumentService` | `service/document_service.go`: registration and update of DID documents with signature checks, reads by version, and the status-changing entry points. |
| `VcMetaService` | `service/vcmeta_service.go`: registration, lookup and status changes of VC metadata. |

**The ledger invariant.** `DocumentService.Consistent` is the invariant that
`RegisterDidDoc` and both status operations preserve. It says:

- every entry lies under its own key;
- a DID has a status record exactly when it has a latest document;
- the status record's version is the latest document's version;
- every snapshot version of a DID compares below its latest version.

**Failed transactions.** A Fabric transaction that returns an error is not
committed. The public operations therefore leave the world state unchanged on
failure. The internal save and update helpers are modelled with the partial
writes they make before failing.

**Where the Go code and its design description disagree, the model follows the code:**

- **Version order.** Document versions are compared as Go strings, byte by
  byte, not as numbers. So an update from version "9" to version "10" is
  refused (`DocumentService.VersionsCompareAsText`).
- **Malformed signatures panic.** A decoded signature that is empty, or
  shorter than the curve size after its first byte is dropped, makes the
  signature check panic instead of failing closed.
- **The key URL's DID is ignored.** The signing key is looked up in the
  document of `controller.did`. The DID written in the key URL plays no part.
- **The in-service switch ignores the life-cycle status.**
  `UpdateDidDocStatusInService` reads the status record: a missing record
  fails the call, and the record's version decides whether the latest entry or
  a snapshot is written. It never looks at the record's life-cycle status, so
  it also toggles documents whose status is REVOKED or TERMINATED.
- **The revocation entry point returns the document.**
  `UpdateDidDocStatusRevocation` returns the DID document, not the status
  record.
- **A missing document is not found.** A read reports not-found when the
  document of the requested version is missing, not only when the status is
  missing.
- **VC status values are not checked.** A VC status change accepts any value
  other than the current one, not only the enumerated ones.
- **Multibase base64 variants.** The multibase prefix `u` decodes padded
  URL-safe base64. The prefix `m` decodes unpadded standard base64.

**What the model takes as parameters.** Foreign code appears as parameters:

- the elliptic-curve square root and ECDSA sign and verify;
- SHA-256;
- the base-16, 58, 32 and 64 decoders;
- JSON encoding and decoding;
- the struct validator.

These live in `DocumentService.Env`, `Crypto.Decoders` and `JsonUtil.JsonCodec`,
or are passed directly. Properties that depend on them (for example a square
root that returns a root) are stated as hypotheses of the lemmas that need them.

## Model

| member | source | states |
|---|---|---|
| `Errors.MessageFor` | source/did-fabric-contract/chaincode/error/error.go:47-68 | The message is non-empty exactly for the codes in the table, and is the table's message for them; an unknown code reads as Go's zero value "". |
| `Errors.GetContractError` | source/did-fabric-contract/chaincode/error/error.go:79-85 | The result is a contract error whose code is `SSRVFCC` followed by the given code and whose message is the code's message, " => ", and the text of the cause. |
| `Errors.ContractErrorShowsCause` | source/did-fabric-contract/chaincode/error/error.go:75-85 | Any sentence contained in the cause's text is contained in the wrapped error's text (what the not-found tests of the services rely on). |
| `Data.DidDoc.Key` | source/did-fabric-contract/chaincode/data/document.go:123-125 | The latest document of a DID is stored under the parts [DID prefix, did, ":latest"]. |
| `Data.DidDocWithVersionId.Key` | source/did-fabric-contract/chaincode/data/document.go:127-129 | A snapshot is stored under [DID prefix, did, ":versionId:" + versionId]. |
| `Data.StatusRecord.Key` | source/did-fabric-contract/chaincode/data/status.go:41-43 | A status record is stored under [status prefix, did]. |
| `Data.VcMeta.Key` | source/did-fabric-contract/chaincode/data/vcmeta.go:42-44 | VC metadata is stored under [VC meta prefix, id]. |
| `Data.KeyPartsInjective` | source/did-fabric-contract/chaincode/data/document.go:123-129 | Distinct entries never share a key: equal key parts mean the same ledger key. |
| `Data.LatestIsNoVersionTag` | source/did-fabric-contract/chaincode/data/document.go:123-129 | The latest-document key never collides with a snapshot key, whatever the version id. |
| `Ledger.Get` | source/did-fabric-contract/chaincode/repository/document_repository.go:51-61 | A read succeeds exactly when the key is present and returns the stored value; otherwise it fails with the state's not-found error. |
| `Ledger.Exists` | source/did-fabric-contract/chaincode/repository/document_repository.go:89-91 | The existence test answers true exactly when a read succeeds. |
| `Ledger.WorldState.Insert` | source/did-fabric-contract/chaincode/repository/document_repository.go:34-39 | An insert on a present key fails with "already exists" and writes nothing. Otherwise it adds exactly that entry. It keeps every entry under its own key. |
| `Ledger.WorldState.Put` | source/did-fabric-contract/chaincode/repository/document_repository.go:72-77 | A put writes exactly the value's own key, overwriting any previous entry, and keeps every entry under its own key. |
| `Repository.NotFoundIsRecognisable` | source/did-fabric-contract/chaincode/repository/document_repository.go:51-61 | The text of every wrapped not-found error still contains the state's not-found sentence, which the services test for. |
| `Repository.GetDidDocLatest` | source/did-fabric-contract/chaincode/repository/document_repository.go:51-61 | Succeeds exactly when the DID has a latest document, which it returns (its id is the DID); fails with the wrapped not-found error under code 01002 otherwise. |
| `Repository.IsExistDidDocLatest` | source/did-fabric-contract/chaincode/repository/document_repository.go:89-91 | True exactly when reading the latest document succeeds. |
| `Repository.GetDidDocWithVersionId` | source/did-fabric-contract/chaincode/repository/document_repository.go:120-130 | Succeeds exactly when that snapshot exists and returns it, with the requested id and version; wrapped not-found otherwise. |
| `Repository.GetDocumentStatus` | source/did-fabric-contract/chaincode/repository/document_repository.go:190-200 | Succeeds exactly when the DID has a status record and returns it; wrapped not-found under code 02002 otherwise. |
| `Repository.GetVcMeta` | source/did-fabric-contract/chaincode/repository/vcmeta_repository.go:67-77 | Succeeds exactly when the VC id is registered and returns its metadata; wrapped not-found under code 03002 otherwise. |
| `Repository.InsertDidDocLatest` | source/did-fabric-contract/chaincode/repository/document_repository.go:34-39 | An existing latest document is refused with the wrapped "already exists" error under code 01001 and nothing changes; otherwise exactly that entry is added. |
| `Repository.PutDidDocLatest` | source/did-fabric-contract/chaincode/repository/document_repository.go:72-77 | The latest-document entry of that DID becomes the document and nothing else changes. |
| `Repository.InsertDidDocWithVersionId` | source/did-fabric-contract/chaincode/repository/document_repository.go:102-107 | An existing snapshot of that version is refused under code 01001; otherwise exactly the snapshot is added. |
| `Repository.PutDidDocWithVersionId` | source/did-fabric-contract/chaincode/repository/document_repository.go:141-146 | Exactly the snapshot's entry is written. |
| `Repository.InsertDocumentStatus` | source/did-fabric-contract/chaincode/repository/document_repository.go:157-162 | An existing status record is refused under code 02001; otherwise exactly the record is added. |
| `Repository.PutDocumentStatus` | source/did-fabric-contract/chaincode/repository/document_repository.go:173-178 | Exactly the DID's status entry is written. |
| `Repository.InsertVcMeta` | source/did-fabric-contract/chaincode/repository/vcmeta_repository.go:34-39 | A registered VC id is refused under code 03001; otherwise exactly the metadata is added. |
| `Repository.PutVcMeta` | source/did-fabric-contract/chaincode/repository/vcmeta_repository.go:50-55 | Exactly the VC metadata's entry is written. |
| `Status.StepAllowed` | source/did-fabric-contract/chaincode/data/status.go:45-60 | Revocation is accepted exactly from ACTIVATED or DEACTIVATED, termination exactly from REVOKED; a refused request reports "cannot update status from X to Y". |
| `Status.StepEffect` | source/did-fabric-contract/chaincode/data/status.go:45-60 | An accepted request sets the status it names and keeps id, version and role; termination records the given time, revocation keeps the old one. |
| `Status.TerminatedIsFinal` | source/did-fabric-contract/chaincode/data/status.go:45-60 | No sequence of requests changes a TERMINATED record. |
| `Status.RunNeverGoesBack` | source/did-fabric-contract/chaincode/data/status.go:45-60 | Along any sequence of requests the status never moves back in the order ACTIVATED/DEACTIVATED, REVOKED, TERMINATED. |
| `Status.RunKeepsIdentity` | source/did-fabric-contract/chaincode/data/status.go:45-60 | No sequence of requests changes the record's DID, version or role. |
| `Status.TerminateAloneDoesNotEnd` | source/did-fabric-contract/chaincode/data/status.go:53-60 | Termination requests alone never change an unrevoked record: revocation must come first. |
| `Status.MakeDocumentStatus` | source/did-fabric-contract/chaincode/data/status.go:62-69 | A new record carries the document's DID and version and the given role, is ACTIVATED with no termination time, and lies under the DID's status key. |
| `Status.FreshStatusLifeCycle` | source/did-fabric-contract/chaincode/data/status.go:45-69 | A new record cannot be terminated directly, and revocation followed by termination terminates it. |
| `Status.DocumentStatus.constructor` | source/did-fabric-contract/chaincode/data/status.go:33-39 | The object holds exactly the given record. |
| `Status.DocumentStatus.Revoke` | source/did-fabric-contract/chaincode/data/status.go:45-51 | Succeeds exactly when the transition rule allows revocation. The new state is the rule's result, and unchanged on refusal. The error is the rule's error. |
| `Status.DocumentStatus.Terminated` | source/did-fabric-contract/chaincode/data/status.go:53-60 | Succeeds exactly when the rule allows termination. The new state records the time, and is unchanged on refusal. The error is the rule's error. |
| `Document.FirstWithId` | source/did-fabric-contract/chaincode/data/document.go:92-96 | Finds the first verification method with the id, or reports that none has it. |
| `Document.SigningKey` | source/did-fabric-contract/chaincode/data/document.go:87-99 | Refuses an id missing from capabilityInvocation and an id with no verification method; on success returns the first method with that id, which is listed in capabilityInvocation. |
| `Document.IsCapabilityInvocation` | source/did-fabric-contract/chaincode/data/document.go:101-108 | True exactly when the id is listed in capabilityInvocation. |
| `Document.GetVerificationMethod` | source/did-fabric-contract/chaincode/data/document.go:87-99 | The loop-based lookup returns what `SigningKey` specifies. |
| `Document.SwitchStatus` | source/did-fabric-contract/chaincode/data/document.go:110-121 | Only ACTIVATED and DEACTIVATED are accepted; the flag becomes "status is DEACTIVATED" and nothing else changes; any other status is "unsupported status". |
| `Document.MakeDidDocWithVersionId` | source/did-fabric-contract/chaincode/data/document.go:131-135 | Wraps the document unchanged; its key is the snapshot key of its version and differs from the latest key. |
| `Document.MakeDidDocAndStatus` | source/did-fabric-contract/chaincode/data/document.go:137-142 | Pairs exactly the given document and status. |
| `ServiceEquality.IsEqualAsWritten` | source/did-fabric-contract/chaincode/data/service.go:31-52 | Differences in id, type, endpoint count or an endpoint give false; equal services reach the index past the end and panic, so the answer is never true. |
| `ServiceEquality.EqualServicesPanic` | source/did-fabric-contract/chaincode/data/service.go:44-49 | A concrete service compared with itself panics. |
| `ServiceEquality.IsEqual` | source/did-fabric-contract/chaincode/data/service.go:31-52 | With the loop bound corrected, the answer is true exactly for equal services. |
| `Crypto.MinimalBytes` | source/did-fabric-contract/chaincode/utility/crypto.go:47-48 | The big-endian bytes of a number, without leading zero, read back as that number. |
| `Crypto.MinimalBytesLength` | source/did-fabric-contract/chaincode/utility/crypto.go:126-135 | The minimal encoding fits in w bytes exactly when the number is below 256^w. |
| `Crypto.LeadingZeros` | source/did-fabric-contract/chaincode/utility/crypto.go:50-51 | Zero bytes in front do not change a big-endian value (why the left-padded copy is faithful). |
| `Crypto.Copy` | source/did-fabric-contract/chaincode/utility/crypto.go:50-51 | Go's `copy` into a buffer at an offset: exactly that slice of the array is replaced. |
| `Crypto.CompressPublicKey` | source/did-fabric-contract/chaincode/utility/crypto.go:122-137 | For an x whose minimal encoding fits 32 bytes (below 256^32, by MinimalBytesLength), the result is 33 bytes: 0x02 or 0x03 by the parity of y, then x right-aligned in 32 bytes behind zeros, reading back as x. |
| `Crypto.NegMod` | source/did-fabric-contract/chaincode/utility/crypto.go:101-102 | Negating a root modulo p gives p - y, which has the same square and the other parity. |
| `Crypto.DecompressPublicKey` | source/did-fabric-contract/chaincode/utility/crypto.go:78-120 | Refuses a length other than 33 and a first byte other than 0x02/0x03 with the source's messages, and fails when no square root exists. A result has x from the 32 bytes and, for a sound square root, lies on the curve with the requested parity. |
| `Crypto.CompressionRoundTrip` | source/did-fabric-contract/chaincode/utility/crypto.go:78-137 | Decompressing the compression of a point on the curve gives the point back. |
| `Crypto.PaddedHalves` | source/did-fabric-contract/chaincode/utility/crypto.go:47-52 | The two left-padded halves of the signature read back as r and s. |
| `Crypto.Sign` | source/did-fabric-contract/chaincode/utility/crypto.go:36-55 | An ECDSA failure is returned as is; an r whose minimal encoding is longer than 32 bytes panics on the slice; when r and s fit 32 bytes the signature is 64 bytes whose halves read back as r and s. |
| `Crypto.Verify` | source/did-fabric-contract/chaincode/utility/crypto.go:57-67 | A signature shorter than 32 bytes panics on the slice; any longer one is accepted exactly as far as ECDSA accepts it. The reading of r and s is stated by `Crypto.SignatureLayoutRoundTrip`. |
| `Crypto.SignatureLayoutRoundTrip` | source/did-fabric-contract/chaincode/utility/crypto.go:36-67 | For a signature of any length from 32 bytes up, r is read from the first 32 bytes and s from all the bytes after them: the signature verifies exactly when ECDSA accepts (r, s). `Sign`'s 64-byte layout is one case. |
| `Crypto.ComparePublicKey` | source/did-fabric-contract/chaincode/utility/crypto.go:193-202 | True exactly for equal keys. |
| `Crypto.DecodeMultibase` | source/did-fabric-contract/chaincode/utility/crypto.go:204-227 | Empty input is "too short", an unknown prefix is "unsupported encoding", and base58 never fails. |
| `Crypto.DecodeMultibaseDispatch` | source/did-fabric-contract/chaincode/utility/crypto.go:213-223 | Each prefix selects its own decoder, and the prefixed text decodes exactly as that decoder decodes the rest, its errors included. |
| `JsonUtil.SortStrings` | source/did-fabric-contract/chaincode/utility/json_util.go:25 | The sorted keys are a permutation of the keys. |
| `JsonUtil.SortStringsSorted` | source/did-fabric-contract/chaincode/utility/json_util.go:25 | The sorted keys are in ascending byte order. |
| `JsonUtil.SortStringsIgnoresOrder` | source/did-fabric-contract/chaincode/utility/json_util.go:21-25 | Sorting depends only on which keys there are, not on the map's iteration order. |
| `JsonUtil.SortedUnique` | source/did-fabric-contract/chaincode/utility/json_util.go:25 | Two sorted permutations of the same keys are equal (a sort has one possible answer). |
| `JsonUtil.SortMembersContents` | source/did-fabric-contract/chaincode/utility/json_util.go:19-35 | The result's keys are exactly the input's keys in sorted order. Each key maps to its input value with nested objects sorted. |
| `JsonUtil.SortedKeysAscending` | source/did-fabric-contract/chaincode/utility/json_util.go:19-35 | For distinct keys the result is strictly ascending. |
| `JsonUtil.SortValueWellFormed` | source/did-fabric-contract/chaincode/utility/json_util.go:26-33 | Sorting keeps every object's keys distinct, at every depth. |
| `JsonUtil.SortValueIdempotent` | source/did-fabric-contract/chaincode/utility/json_util.go:19-35 | Sorting a sorted value changes nothing. |
| `JsonUtil.SortValueIgnoresOrder` | source/did-fabric-contract/chaincode/utility/json_util.go:19-35 | Values that differ only in the order of object members, at every depth reached through objects, sort to the same value. |
| `JsonUtil.DecodedMap` | source/did-fabric-contract/chaincode/utility/json_util.go:10-12 | Decoding into a map gives the object's members, and no members when the input does not decode to an object. |
| `JsonUtil.NonObjectIsEmpty` | source/did-fabric-contract/chaincode/utility/json_util.go:10-17 | Input that does not decode to an object has the canonical text of the empty object. |
| `JsonUtil.CanonicalTextProperties` | source/did-fabric-contract/chaincode/utility/json_util.go:10-17 | Documents whose objects differ only in member order, at every depth reached through objects, get the same canonical text, whatever the encoder; when the codec reads its own output back, canonicalising twice changes nothing. |
| `JsonUtil.SortValueEquivalent` | source/did-fabric-contract/chaincode/utility/json_util.go:19-35 | Rebuilding a decoded value only reorders map members: the result is equivalent to the input at every depth, arrays included. |
| `JsonUtil.CanonicalTextIgnoresOrderEverywhere` | source/did-fabric-contract/chaincode/utility/json_util.go:10-17 | With an encoder that sorts map keys itself, as `json.Marshal` does, the canonical text is the plain encoding of the decoded map, and documents whose maps differ only in member order at any depth, inside arrays too, get the same canonical text. |
| `JsonUtil.SortJsonKeys` | source/did-fabric-contract/chaincode/utility/json_util.go:19-35 | The loop-based sort builds the value `SortMembers` specifies. |
| `JsonUtil.SortJson` | source/did-fabric-contract/chaincode/utility/json_util.go:10-17 | The method computes the canonical text: decode, sort keys, encode. |
| `DocumentService.ParseKeyUrl` | source/did-fabric-contract/chaincode/service/document_service.go:198-215 | Without "versionId=" the key URL is refused as missing its version; every error is one of the two "missing" errors; a result is a version id and a key id free of "#", with no "versionId=" after the prefix, that the URL ends with, as prefix + "versionId=" + version + "#" + key. |
| `DocumentService.ParseKeyUrlRoundTrip` | source/did-fabric-contract/chaincode/service/document_service.go:198-215 | Building a key URL from a prefix, version id and key id that contain no tag, and parsing it, gives back the version id and key id. |
| `DocumentService.ParseKeyUrlAcceptsExactly` | source/did-fabric-contract/chaincode/service/document_service.go:198-215 | A key URL parses exactly when it is a prefix without "versionId=", then "versionId=", a version id, "#" and a key id, with no further "versionId=" and neither id holding "#"; it then parses to that version id and key id. |
| `DocumentService.ReadDocAndStatus` | source/did-fabric-contract/chaincode/service/document_service.go:339-354 | A missing status record is reported first; otherwise the record is returned with the latest document when no version or the record's version is asked for, and with the snapshot of the asked version otherwise; a document is found exactly when no error is reported. |
| `DocumentService.GetDidDocAndStatus` | source/did-fabric-contract/chaincode/service/document_service.go:317-326 | The read never fails: it gives the document and its status exactly when the document of the asked version was found, and nil otherwise. |
| `DocumentService.EmptyConsistent` | source/did-fabric-contract/chaincode/service/document_service.go:250-262 | A ledger with no entries satisfies the layout invariant. |
| `DocumentService.ReadRule` | source/did-fabric-contract/chaincode/service/document_service.go:317-354 | On a consistent ledger: an unregistered DID reads as nil; no version or the latest version reads as the latest document; another version reads as its snapshot when archived and as nil when not. |
| `DocumentService.CreatedConsistent` | source/did-fabric-contract/chaincode/service/document_service.go:274-279 | A first registration of an unregistered DID keeps the layout invariant. |
| `DocumentService.UpdatedConsistent` | source/did-fabric-contract/chaincode/service/document_service.go:292-304 | An update to a version that sorts after the latest one keeps the layout invariant. |
| `DocumentService.ReadAfterCreate` | source/did-fabric-contract/chaincode/service/document_service.go:274-279 | After a first registration the DID reads as the new document with status ACTIVATED. |
| `DocumentService.ReadAfterUpdate` | source/did-fabric-contract/chaincode/service/document_service.go:292-304 | After an update the DID reads as the new document with its old status, and the superseded version still reads as the superseded document. |
| `DocumentService.StatusChangeConsistent` | source/did-fabric-contract/chaincode/service/document_service.go:368-378 | Replacing a status record by one of the same DID and version keeps the layout invariant. |
| `DocumentService.WriteBackConsistent` | source/did-fabric-contract/chaincode/service/document_service.go:392-407 | Writing a fetched document back, with only its activation changed, to the entry it was read from keeps the layout invariant. |
| `DocumentService.Unsigned` | source/did-fabric-contract/chaincode/service/document_service.go:176 | The signed form of a request has an empty proof value and differs from the request in nothing else. |
| `DocumentService.AcceptedRequestIsSigned` | source/did-fabric-contract/chaincode/service/document_service.go:144-186 | A request passes the signature check only if its key URL parses, the provider's document of that version lists the key id under capabilityInvocation, and ECDSA accepts the digest of the plain text under that key with the r and s the proof value carries after its first byte. |
| `DocumentService.VerifyDidDocument` | source/did-fabric-contract/chaincode/service/document_service.go:144-186 | The step-by-step check reports exactly what `SignatureCheck` specifies, a panic on an empty decoded signature included. |
| `DocumentService.Admission` | source/did-fabric-contract/chaincode/service/document_service.go:122-133 | A TAS is admitted unchecked. Otherwise an unregistered provider is refused under code 01004, and admission succeeds exactly when the signature check does. A failed check is wrapped under code 01006, except a panic, which passes through. |
| `DocumentService.ValidateInvokedDidDoc` | source/did-fabric-contract/chaincode/service/document_service.go:122-133 | The method reports exactly what `Admission` specifies. |
| `DocumentService.ConvertFromMultiBaseToDocument` | source/did-fabric-contract/chaincode/service/document_service.go:226-238 | A decoding error is returned unchanged; a result is the JSON reading of the decoded bytes and passed the validator; a validator refusal is returned. |
| `DocumentService.ConvertRoundTrip` | source/did-fabric-contract/chaincode/service/document_service.go:226-238 | For every multibase prefix, text its decoder accepts whose document passes the validator converts to that document. |
| `DocumentService.SaveDidDocAndStatus` | source/did-fabric-contract/chaincode/service/document_service.go:274-279 | An existing latest document is refused with nothing written; an existing status record is refused after the document was inserted; otherwise exactly the document and the status record are added. |
| `DocumentService.UpdateDidDocAndStatus` | source/did-fabric-contract/chaincode/service/document_service.go:292-304 | A version that does not sort after the saved one is refused under code 01008 with nothing written. Otherwise the latest document is replaced, then an archived snapshot of the saved version is refused; else the saved document is archived and the status version advanced. |
| `DocumentService.SaveOrUpdateDocument` | source/did-fabric-contract/chaincode/service/document_service.go:250-262 | A DID with neither entry is saved. A DID with both is updated against its latest document. A DID with only one of the two entries fails at the matching insert. |
| `DocumentService.RegisterDidDoc` | source/did-fabric-contract/chaincode/service/document_service.go:99-110 | A failure leaves the ledger unchanged. Admission and conversion errors come first. Then a new DID is created and a known DID updated, with every error case spelled out. On a consistent ledger an admitted, valid document is accepted exactly when its DID is new or its version sorts after the latest one. The layout invariant is preserved. |
| `DocumentService.RequestFor` | source/did-fabric-contract/chaincode/service/document_service.go:419-428 | Only REVOKED and TERMINATED name a transition, and the transition leads to the named status; only TERMINATED carries the termination time. |
| `DocumentService.UpdateDocumentStatus` | source/did-fabric-contract/chaincode/service/document_service.go:419-428 | Any other status is "unsupported status" and changes nothing. For REVOKED and TERMINATED the record moves as the transition rule says, and the method reports the rule's verdict and error. |
| `DocumentService.UpdateDidDocStatusRevocation` | source/did-fabric-contract/chaincode/service/document_service.go:368-378 | A missing status record or document is not-found and writes nothing. An unsupported status or a refused transition is wrapped under code 02005 and writes nothing. Otherwise the status record becomes the transition's result and the latest document is returned. The layout invariant is preserved. |
| `DocumentService.UpdateDidDocStatusInService` | source/did-fabric-contract/chaincode/service/document_service.go:392-407 | Read errors are returned unchanged and only ACTIVATED or DEACTIVATED are accepted. The fetched document, with its flag switched, is written back to the latest entry or to its snapshot and returned. No key and no status record changes, and the layout invariant is preserved. |
| `DocumentService.VersionsCompareAsText` | source/did-fabric-contract/chaincode/service/document_service.go:293 | Versions compare as text: "10" sorts before "9", so an update from "9" to "10" is refused. |
| `VcMetaService.ChangeStatus` | source/did-fabric-contract/chaincode/service/vcmeta_service.go:84-87 | A change is accepted exactly when the requested status differs from the current one and the current one is not REVOKED; it replaces the status and nothing else; a refusal reports both statuses under code 03005. |
| `VcMetaService.RevokedIsFinal` | source/did-fabric-contract/chaincode/service/vcmeta_service.go:84-86 | No sequence of status requests changes a revoked credential's metadata. |
| `VcMetaService.RunChangesOnlyStatus` | source/did-fabric-contract/chaincode/service/vcmeta_service.go:87 | No sequence of status requests changes anything but the status. |
| `VcMetaService.RevocationEndsChanges` | source/did-fabric-contract/chaincode/service/vcmeta_service.go:84-87 | Once a revocation is accepted, the metadata stays revoked whatever is requested afterwards. |
| `VcMetaService.RegisterVcMetadata` | source/did-fabric-contract/chaincode/service/vcmeta_service.go:39-49 | A validator refusal is wrapped under code 03004 and writes nothing; a registered id is refused under code 03001; otherwise exactly the metadata is added. |
| `VcMetaService.GetVcMetadata` | source/did-fabric-contract/chaincode/service/vcmeta_service.go:61-67 | The lookup never fails: it returns the metadata exactly when the id is registered, and nil otherwise. |
| `VcMetaService.UpdateVcStatus` | source/did-fabric-contract/chaincode/service/vcmeta_service.go:79-92 | A missing id is not-found under code 03002. Otherwise the metadata changes as `ChangeStatus` says, and nothing is written on a refusal. |

## Left out

- `opendid.go` and `main.go` are not part of this model. They cover the Fabric router, argument decoding and JSON responses, which are transport code.
- `RemoveIndex` and `RemoveAll` (document_service.go:42-87) are not modelled. They iterate over the state by key range, administer the ledger, and have no property the model relies on.
- `RecoveryEcdsa` (crypto.go:139-191) is not modelled. Nothing in the core calls it, and it is built on elliptic-curve point recovery.
- `DecompressPublicKeyFromString` (crypto.go:69-76) is not modelled. It is hex decoding followed by `DecompressPublicKey`, which is modelled.
- `CreateNewEcdsaPrivateKey` is not modelled. It needs randomness, and ECDSA signing is likewise a parameter.
- The P-256 field arithmetic is not modelled. The square root, SHA-256, ECDSA, the base-16/58/32/64 decoders, JSON encoding and decoding, and the struct validator are parameters. Their behaviour is assumed only where a lemma states it as a hypothesis. `Crypto.CompressionRoundTrip` assumes a sound and complete square root and that the two roots of a square are y and p - y, which holds because p is prime.
- `VerificationMethod.IsEqual`, `ToJson`, `ToObject` and `ToHash` are not part of the core and are not modelled.
- The repositories' JSON decoding errors (codes 01005, 02004, 03004 on reads) are not modelled. Stored values are typed, so a read returns exactly what was written.
- Put operations are modelled as never failing, and their error codes (01003, 02003, 03003) do not occur. The world state write itself cannot fail inside a transaction.
- A failed public operation is modelled by restoring the world state. Fabric does this by not committing the transaction. The internal helpers show the writes made before the failure.
- `verifyDidDocument` blanks the caller's proof value in place. The model builds the unsigned copy as a value instead. The caller only reads the request's document field afterwards, so the difference cannot be observed.
- `SwitchStatus` changes the document in place, and the model returns the changed copy. The receiver is always a freshly decoded document, so there is no aliasing to model.
- Crypto.Sign: says nothing when r fits 32 bytes but s does not. The source's copy then writes s over the left half. ECDSA never produces such an s on P-256.
- JsonUtil.CanonicalTextProperties: holds for any encoder, so its order invariance stops at arrays, which `SortJsonKeys` copies unchanged. The invariance inside arrays comes from `json.Marshal`, which writes every map with its keys sorted. That sorting is not modelled: it enters only as the hypothesis `JsonUtil.MarshalSortsMaps` of `JsonUtil.CanonicalTextIgnoresOrderEverywhere`.
- `SortJsonKeys` returns a Go map, which keeps no order. The model returns its members as a sequence in key order. Under `MarshalSortsMaps` the encoded text does not depend on that order.
- Crypto.CompressPublicKey: covers only an X whose minimal encoding fits 32 bytes, as every P-256 coordinate does. A 33-byte X would overwrite the prefix byte, and a longer one would panic on the slice.
- Go's `sort.Strings` is modelled as an insertion sort function, `JsonUtil.SortStrings`. Its proved properties are a permutation and sorted order, which together fix the result.
- Logging (`log.Printf`) is not modelled.
- The key text that the state library builds from a key's parts is not modelled. A ledger key is a datatype, and `Data.KeyParts` gives its parts.

## Findings

| source | as written | input that shows it | evidently intended | confidence | as-written member | corrected member |
|---|---|---|---|---|---|---|
| source/did-fabric-contract/chaincode/data/service.go:45 | The endpoint loop runs while `i <= len`, so after all endpoints match it indexes one past the end and panics. | Any service compared with an equal service, e.g. one endpoint `https://example.org` against itself | Loop while `i < len`, answering true for equal services | not executed | `ServiceEquality.IsEqualAsWritten` (with `ServiceEquality.EqualServicesPanic`) | `ServiceEquality.IsEqual` |
