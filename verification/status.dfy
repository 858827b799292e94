/**
 * The life cycle of a DID document's status (data/status.go):
 * ACTIVATED or DEACTIVATED, then REVOKED, then TERMINATED, and nothing
 * after that. `DocumentStatus` is the mutable record the service loads
 * from the ledger, changes in place and writes back; `Step` is the same
 * transition on values, which the lemmas about runs of requests use.
 */
module Status {
  import opened Errors
  import opened Data

  /** A status change the service can request. */
  datatype Request = RevokeRequest | TerminateRequest(time: string)

  /** The status a request moves to. */
  function Target(q: Request): string
  {
    if q.RevokeRequest? then DOC_REVOKED else DOC_TERMINATED
  }

  /** The error both transitions report when the current status forbids them. */
  function CannotUpdate(from: string, to: string): Error
  {
    Plain("cannot update status from " + from + " to " + to)
  }

  /** One transition of the state machine, on values. */
  function Step(r: StatusRecord, q: Request): Result<StatusRecord>
  {
    match q
    case RevokeRequest =>
      if r.status == DOC_ACTIVATED || r.status == DOC_DEACTIVATED then Ok(r.(status := DOC_REVOKED))
      else Err(CannotUpdate(r.status, DOC_REVOKED))
    case TerminateRequest(t) =>
      if r.status == DOC_REVOKED then Ok(r.(status := DOC_TERMINATED, terminatedTime := t))
      else Err(CannotUpdate(r.status, DOC_TERMINATED))
  }

  /** The record after a request: the new record, or the old one when refused. */
  function After(r: StatusRecord, q: Request): StatusRecord
  {
    if Step(r, q).Ok? then Step(r, q).value else r
  }

  /** The record after a whole sequence of requests, refused ones included. */
  function Run(r: StatusRecord, qs: seq<Request>): StatusRecord
    decreases |qs|
  {
    if |qs| == 0 then r else Run(After(r, qs[0]), qs[1..])
  }

  /** How far along the life cycle a status is; an unknown status ranks lowest. */
  function Rank(status: string): nat
  {
    if status == DOC_TERMINATED then 2
    else if status == DOC_REVOKED then 1
    else 0
  }

  /**
   * When each transition is allowed: revocation exactly from ACTIVATED or
   * DEACTIVATED, termination exactly from REVOKED; a refused request reports
   * both statuses.
   */
  lemma StepAllowed(r: StatusRecord, q: Request)
    ensures q.RevokeRequest? ==> (Step(r, q).Ok? <==> r.status in {DOC_ACTIVATED, DOC_DEACTIVATED})
    ensures q.TerminateRequest? ==> (Step(r, q).Ok? <==> r.status == DOC_REVOKED)
    ensures Step(r, q).Err? ==> Step(r, q).error == CannotUpdate(r.status, Target(q))
  {
  }

  /**
   * An allowed transition sets the status to its target and keeps the
   * identity, version and role; revocation also keeps the termination time,
   * and termination records the given time.
   */
  lemma StepEffect(r: StatusRecord, q: Request)
    requires Step(r, q).Ok?
    ensures Step(r, q).value.status == Target(q)
    ensures Step(r, q).value.id == r.id && Step(r, q).value.version == r.version
    ensures Step(r, q).value.roleType == r.roleType
    ensures q.RevokeRequest? ==> Step(r, q).value.terminatedTime == r.terminatedTime
    ensures q.TerminateRequest? ==> Step(r, q).value.terminatedTime == q.time
  {
  }

  /** TERMINATED is final: no sequence of requests leaves it. */
  lemma {:induction false} TerminatedIsFinal(r: StatusRecord, qs: seq<Request>)
    requires r.status == DOC_TERMINATED
    ensures Run(r, qs) == r
    decreases |qs|
  {
    if |qs| > 0 {
      assert After(r, qs[0]) == r;
      TerminatedIsFinal(r, qs[1..]);
    }
  }

  /** A sequence of requests never moves a status back along the life cycle. */
  lemma {:induction false} RunNeverGoesBack(r: StatusRecord, qs: seq<Request>)
    ensures Rank(Run(r, qs).status) >= Rank(r.status)
    decreases |qs|
  {
    if |qs| > 0 {
      RunNeverGoesBack(After(r, qs[0]), qs[1..]);
    }
  }

  /** No sequence of requests changes which document a status belongs to. */
  lemma {:induction false} RunKeepsIdentity(r: StatusRecord, qs: seq<Request>)
    ensures Run(r, qs).id == r.id && Run(r, qs).version == r.version
    ensures Run(r, qs).roleType == r.roleType
    decreases |qs|
  {
    if |qs| > 0 {
      RunKeepsIdentity(After(r, qs[0]), qs[1..]);
    }
  }

  /**
   * Termination cannot skip revocation: an ACTIVATED or DEACTIVATED status
   * that only ever receives termination requests does not change.
   */
  lemma {:induction false} TerminateAloneDoesNotEnd(r: StatusRecord, qs: seq<Request>)
    requires r.status == DOC_ACTIVATED || r.status == DOC_DEACTIVATED
    requires forall i :: 0 <= i < |qs| ==> qs[i].TerminateRequest?
    ensures Run(r, qs) == r
    decreases |qs|
  {
    if |qs| > 0 {
      assert After(r, qs[0]) == r;
      TerminateAloneDoesNotEnd(r, qs[1..]);
    }
  }

  /** `MakeDocumentStatus`: the status a newly registered document starts with. */
  function MakeDocumentStatus(d: DidDoc, roleType: string): (r: StatusRecord)
    ensures r.id == d.id && r.version == d.versionId && r.roleType == roleType
    ensures r.status == DOC_ACTIVATED && r.terminatedTime == ""
    ensures r.Key() == StatusKey(d.id)
  {
    StatusRecord(d.id, DOC_ACTIVATED, d.versionId, roleType, "")
  }

  /** A new document's status can be revoked and then terminated, in that order only. */
  lemma FreshStatusLifeCycle(d: DidDoc, roleType: string, t: string)
    ensures Step(MakeDocumentStatus(d, roleType), TerminateRequest(t)).Err?
    ensures Run(MakeDocumentStatus(d, roleType), [RevokeRequest, TerminateRequest(t)]).status == DOC_TERMINATED
  {
    var r := MakeDocumentStatus(d, roleType);
    var qs := [RevokeRequest, TerminateRequest(t)];
    var revoked := After(r, RevokeRequest);
    assert revoked.status == DOC_REVOKED;
    assert qs[1..] == [TerminateRequest(t)];
    assert Run(revoked, [TerminateRequest(t)]) == After(revoked, TerminateRequest(t));
  }

  /** Go's `DocumentStatus`, loaded from the ledger and changed in place. */
  class DocumentStatus {
    var id: string
    var status: string
    var version: string
    var roleType: string
    var terminatedTime: string

    /** The fields as the ledger stores them. */
    function Record(): StatusRecord
      reads this
    {
      StatusRecord(id, status, version, roleType, terminatedTime)
    }

    /** A status decoded from a stored record. */
    constructor FromRecord(r: StatusRecord)
      ensures Record() == r
    {
      id := r.id;
      status := r.status;
      version := r.version;
      roleType := r.roleType;
      terminatedTime := r.terminatedTime;
    }

    /** `Revoke`. */
    method Revoke() returns (out: Outcome)
      modifies this
      ensures Record() == After(old(Record()), RevokeRequest)
      ensures out.Success? <==> Step(old(Record()), RevokeRequest).Ok?
      ensures out.Failure? ==> out.error == Step(old(Record()), RevokeRequest).error
    {
      if status == DOC_ACTIVATED || status == DOC_DEACTIVATED {
        status := DOC_REVOKED;
        return Success;
      }
      return Failure(CannotUpdate(status, DOC_REVOKED));
    }

    /** `Terminated`. */
    method Terminated(time: string) returns (out: Outcome)
      modifies this
      ensures Record() == After(old(Record()), TerminateRequest(time))
      ensures out.Success? <==> Step(old(Record()), TerminateRequest(time)).Ok?
      ensures out.Failure? ==> out.error == Step(old(Record()), TerminateRequest(time)).error
    {
      if status == DOC_REVOKED {
        status := DOC_TERMINATED;
        terminatedTime := time;
        return Success;
      }
      return Failure(CannotUpdate(status, DOC_TERMINATED));
    }
  }
}
