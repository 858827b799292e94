/**
 * Operations on a DID document (data/document.go): finding the key a
 * provider may sign with, which must be listed under `capabilityInvocation`
 * as well as defined under `verificationMethod`, switching the
 * `deactivated` flag, and wrapping a document as a snapshot.
 */
module Document {
  import opened Errors
  import opened Data

  const NOT_IN_CAPABILITY_INVOCATION := "cannot found key in capabilityInvocation"
  const NOT_IN_VERIFICATION_METHOD := "cannot found key in verificationMethod"

  /** The first position of a verification method with this id, or -1. */
  function FirstWithId(vms: seq<VerificationMethod>, id: string): (i: int)
    ensures -1 <= i < |vms|
    ensures i >= 0 ==> vms[i].id == id && forall j :: 0 <= j < i ==> vms[j].id != id
    ensures i == -1 <==> forall j :: 0 <= j < |vms| ==> vms[j].id != id
  {
    if |vms| == 0 then -1
    else if vms[0].id == id then 0
    else
      var k := FirstWithId(vms[1..], id);
      if k < 0 then -1 else k + 1
  }

  /** What `GetVerificationMethod` answers for a key id. */
  function SigningKey(d: DidDoc, id: string): (r: Result<VerificationMethod>)
    ensures id !in d.capabilityInvocation ==> r == Err(Plain(NOT_IN_CAPABILITY_INVOCATION))
    ensures id in d.capabilityInvocation && (forall j :: 0 <= j < |d.verificationMethod| ==> d.verificationMethod[j].id != id)
      ==> r == Err(Plain(NOT_IN_VERIFICATION_METHOD))
    ensures r.Ok? ==> id in d.capabilityInvocation && r.value.id == id
    ensures r.Ok? ==>
              exists i :: 0 <= i < |d.verificationMethod| && d.verificationMethod[i] == r.value &&
                          forall j :: 0 <= j < i ==> d.verificationMethod[j].id != id
  {
    if id !in d.capabilityInvocation then Err(Plain(NOT_IN_CAPABILITY_INVOCATION))
    else
      var i := FirstWithId(d.verificationMethod, id);
      if i < 0 then Err(Plain(NOT_IN_VERIFICATION_METHOD)) else Ok(d.verificationMethod[i])
  }

  /** `isCapabilityInvocation`: a linear search of the list. */
  method IsCapabilityInvocation(d: DidDoc, id: string) returns (b: bool)
    ensures b <==> id in d.capabilityInvocation
  {
    var i := 0;
    while i < |d.capabilityInvocation|
      invariant 0 <= i <= |d.capabilityInvocation|
      invariant id !in d.capabilityInvocation[..i]
    {
      if d.capabilityInvocation[i] == id {
        return true;
      }
      i := i + 1;
    }
    assert d.capabilityInvocation[..i] == d.capabilityInvocation;
    return false;
  }

  /** `GetVerificationMethod`: authorisation first, then the first matching key. */
  method GetVerificationMethod(d: DidDoc, id: string) returns (r: Result<VerificationMethod>)
    ensures r == SigningKey(d, id)
  {
    var authorised := IsCapabilityInvocation(d, id);
    if !authorised {
      return Err(Plain(NOT_IN_CAPABILITY_INVOCATION));
    }
    var i := 0;
    while i < |d.verificationMethod|
      invariant 0 <= i <= |d.verificationMethod|
      invariant forall j :: 0 <= j < i ==> d.verificationMethod[j].id != id
    {
      if d.verificationMethod[i].id == id {
        return Ok(d.verificationMethod[i]);
      }
      i := i + 1;
    }
    return Err(Plain(NOT_IN_VERIFICATION_METHOD));
  }

  /**
   * `SwitchStatus`: ACTIVATED clears the `deactivated` flag, DEACTIVATED
   * sets it, and nothing else in the document changes; any other status is
   * refused.
   */
  function SwitchStatus(d: DidDoc, status: string): (r: Result<DidDoc>)
    ensures r.Ok? <==> status == DOC_ACTIVATED || status == DOC_DEACTIVATED
    ensures r.Ok? ==> r.value.deactivated == (status == DOC_DEACTIVATED)
    ensures r.Ok? ==> r.value.(deactivated := d.deactivated) == d
    ensures r.Err? ==> r.error == Plain("unsupported status: " + status)
  {
    if status == DOC_ACTIVATED then Ok(d.(deactivated := false))
    else if status == DOC_DEACTIVATED then Ok(d.(deactivated := true))
    else Err(Plain("unsupported status: " + status))
  }

  /**
   * `MakeDidDocWithVersionId`: the same document, stored under its version
   * key, which is never the key of the latest copy.
   */
  function MakeDidDocWithVersionId(d: DidDoc): (w: DidDocWithVersionId)
    ensures w.didDoc == d
    ensures w.Key() == VersionDocKey(d.id, d.versionId) && w.Key() != d.Key()
  {
    DidDocWithVersionId(d)
  }

  /** `MakeDidDocAndStatus`: the pair a read returns. */
  function MakeDidDocAndStatus(d: DidDoc, status: string): (r: DidDocAndStatus)
    ensures r.didDoc == d && r.status == status
  {
    DidDocAndStatus(d, status)
  }
}
