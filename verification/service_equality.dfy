/**
 * `Service.IsEqual` (data/service.go): comparison of two service entries of
 * a DID document by id, type and endpoint list.
 *
 * As written, the endpoint loop runs while `i <= len`, so when every
 * endpoint matches it reads one element past the end, which is a Go
 * run-time panic: the comparison can never answer true.
 * `IsEqualAsWritten` keeps that loop (the panic is an `Err(Panic(..))`
 * result); `IsEqual` is the evidently intended loop, `i < len`, and is
 * exactly structural equality.
 */
module ServiceEquality {
  import opened Errors
  import opened Data

  const INDEX_OUT_OF_RANGE := "runtime error: index out of range"

  /** The comparison with the loop bound of the source, `i <= len`. */
  method IsEqualAsWritten(a: Service, b: Service) returns (r: Result<bool>)
    ensures a.id != b.id ==> r == Ok(false)
    ensures a.id == b.id && a.serviceType != b.serviceType ==> r == Ok(false)
    ensures (a.id == b.id && a.serviceType == b.serviceType && |a.serviceEndpoint| != |b.serviceEndpoint|)
            ==> r == Ok(false)
    ensures a.id == b.id && a.serviceType == b.serviceType && a.serviceEndpoint != b.serviceEndpoint ==> r == Ok(false)
    ensures a == b ==> r == Err(Panic(INDEX_OUT_OF_RANGE))
    ensures r != Ok(true)
  {
    if a.id != b.id {
      return Ok(false);
    }
    if a.serviceType != b.serviceType {
      return Ok(false);
    }
    if |a.serviceEndpoint| != |b.serviceEndpoint| {
      return Ok(false);
    }
    var n := |a.serviceEndpoint|;
    var i := 0;
    while i <= n
      invariant 0 <= i <= n
      invariant a.serviceEndpoint[..i] == b.serviceEndpoint[..i]
    {
      if i >= |a.serviceEndpoint| {
        assert a.serviceEndpoint == b.serviceEndpoint by {
          assert a.serviceEndpoint[..i] == a.serviceEndpoint;
          assert b.serviceEndpoint[..i] == b.serviceEndpoint;
        }
        return Err(Panic(INDEX_OUT_OF_RANGE));
      }
      if a.serviceEndpoint[i] != b.serviceEndpoint[i] {
        return Ok(false);
      }
      assert a.serviceEndpoint[..i + 1] == a.serviceEndpoint[..i] + [a.serviceEndpoint[i]];
      assert b.serviceEndpoint[..i + 1] == b.serviceEndpoint[..i] + [b.serviceEndpoint[i]];
      i := i + 1;
    }
    return Ok(true);
  }

  /** A concrete input on which the comparison as written panics instead of answering true. */
  method EqualServicesPanic() returns (r: Result<bool>)
    ensures r.Err? && r.error.Panic?
  {
    var s := Service("did:example:service", "LinkedDomains", ["https://example.org"]);
    r := IsEqualAsWritten(s, s);
  }

  /** The comparison with the loop bound `i < len`: true exactly for equal services. */
  method IsEqual(a: Service, b: Service) returns (r: bool)
    ensures r <==> a == b
  {
    if a.id != b.id {
      return false;
    }
    if a.serviceType != b.serviceType {
      return false;
    }
    if |a.serviceEndpoint| != |b.serviceEndpoint| {
      return false;
    }
    var n := |a.serviceEndpoint|;
    var i := 0;
    while i < n
      invariant 0 <= i <= n
      invariant a.serviceEndpoint[..i] == b.serviceEndpoint[..i]
    {
      if a.serviceEndpoint[i] != b.serviceEndpoint[i] {
        return false;
      }
      assert a.serviceEndpoint[..i + 1] == a.serviceEndpoint[..i] + [a.serviceEndpoint[i]];
      assert b.serviceEndpoint[..i + 1] == b.serviceEndpoint[..i] + [b.serviceEndpoint[i]];
      i := i + 1;
    }
    assert a.serviceEndpoint[..n] == a.serviceEndpoint;
    assert b.serviceEndpoint[..n] == b.serviceEndpoint;
    return true;
  }
}
