/**
 * Contract error codes, their messages and the text an error renders as
 * (error/error.go). The service recognises a missing ledger entry by
 * searching an error's text for the ledger's "not found" sentence, so the
 * rendered text matters: it must keep the text of the error it wraps.
 */
module Errors {
  import opened GoStrings

  const PREFIX_CODE := "SSRVFCC"

  const DIDDOC_INSERT_ERROR := "01001"
  const DIDDOC_GET_ERROR := "01002"
  const DIDDOC_PUT_ERROR := "01003"
  const DIDDOC_PROVIDER_INVALID := "01004"
  const DIDDOC_CONVERT_ERROR := "01005"
  const DIDDOC_SIGNATURE_VERIFICATION_ERROR := "01006"
  const DID_KEY_URL_PARSING_ERROR := "01007"
  const DIDDOC_VERSIONID_INVAILD := "01008"

  const DIDDOC_STATUS_INSERT_ERROR := "02001"
  const DIDDOC_STATUS_GET_ERROR := "02002"
  const DIDDOC_STATUS_PUT_ERROR := "02003"
  const DIDDOC_STATUS_CONVERT_ERROR := "02004"
  const DIDDOC_STATUS_INVALID := "02005"

  const VCMETA_INSERT_ERROR := "03001"
  const VCMETA_GET_ERROR := "03002"
  const VCMETA_PUT_ERROR := "03003"
  const VCMETA_CONVERT_ERROR := "03004"
  const VCMETA_STATUS_INVALID := "03005"

  /** The `errMsg` table: one message per defined code. */
  const ErrMsg: map<string, string> := map[
    DIDDOC_INSERT_ERROR := "Failed to insert did document",
    DIDDOC_GET_ERROR := "Failed to get did document",
    DIDDOC_PUT_ERROR := "Failed to update did document",
    DIDDOC_PROVIDER_INVALID := "Provider is invalid",
    DIDDOC_CONVERT_ERROR := "Failed to convert json data to did document",
    DIDDOC_SIGNATURE_VERIFICATION_ERROR := "Failed to signature verification",
    DID_KEY_URL_PARSING_ERROR := "VerificationMethod is invalid",
    DIDDOC_VERSIONID_INVAILD := "VersionId is inavlid",
    DIDDOC_STATUS_INSERT_ERROR := "Failed to insert did document status",
    DIDDOC_STATUS_GET_ERROR := "Failed to get did document status",
    DIDDOC_STATUS_PUT_ERROR := "Failed to update did document status",
    DIDDOC_STATUS_CONVERT_ERROR := "Failed to convert json data to did document status",
    DIDDOC_STATUS_INVALID := "Did document status is invalid",
    VCMETA_INSERT_ERROR := "Failed to insert vc meta",
    VCMETA_GET_ERROR := "Failed to get vc meta",
    VCMETA_PUT_ERROR := "Failed to update vc meta",
    VCMETA_CONVERT_ERROR := "Failed to convert json data to vc meta",
    VCMETA_STATUS_INVALID := "Vc meta status is invalid"
  ]

  /**
   * An `error` value as the contract produces it: a plain error from
   * `fmt.Errorf` or a library, a `*ContractError`, or a Go run-time panic
   * (an out-of-range slice), which aborts the whole transaction.
   */
  datatype Error =
    | Plain(text: string)
    | Contract(code: string, message: string)
    | Panic(reason: string)

  datatype Result<T> = Ok(value: T) | Err(error: Error)

  /** The result of an operation that returns only an error. */
  datatype Outcome = Success | Failure(error: Error)

  /** A Go pointer or interface result that may be nil. */
  datatype Option<T> = None | Some(value: T)

  /** `errMsg[code]`: a code missing from the table reads as the empty string. */
  function MessageFor(code: string): (m: string)
    ensures m != "" <==> code in ErrMsg
    ensures code in ErrMsg ==> m == ErrMsg[code]
  {
    if code in ErrMsg then ErrMsg[code] else ""
  }

  /** `err.Error()`; for a `*ContractError` this is `ContractError.Error`. */
  function Text(e: Error): string
  {
    match e
    case Plain(t) => t
    case Contract(code, message) => "ErrorCode : " + code + ", Message : " + message
    case Panic(reason) => "panic: " + reason
  }

  /** `GetContractError(code, err)`. */
  function GetContractError(code: string, err: Error): (r: Error)
    ensures r.Contract?
    ensures HasPrefix(r.code, PREFIX_CODE) && r.code[|PREFIX_CODE|..] == code
    ensures HasPrefix(r.message, MessageFor(code) + " => ")
    ensures r.message[|MessageFor(code) + " => "|..] == Text(err)
  {
    Contract(PREFIX_CODE + code, MessageFor(code) + " => " + Text(err))
  }

  /**
   * A contract error's text still holds the text of the error it wraps, so
   * a substring search for the wrapped error's sentence finds it.
   */
  lemma ContractErrorShowsCause(code: string, err: Error, sentence: string)
    requires Contains(Text(err), sentence)
    ensures Contains(Text(GetContractError(code, err)), sentence)
  {
    var r := GetContractError(code, err);
    var head := "ErrorCode : " + r.code + ", Message : ";
    var lead := MessageFor(code) + " => ";
    assert r.message == lead + Text(err);
    assert Text(r) == head + r.message;
    assert Text(r) == (head + lead) + Text(err);
    ContainsInConcat(head + lead, Text(err), sentence);
  }
}
