/** The RPCError record shared by the RPC layer: the flag logic of
    kademlia_dht/errors.py and kademlia/errors.py. */
module RpcErrors {
  import opened Wrappers

  /** Python truthiness of a str-or-None value. */
  predicate Truthy(s: Option<string>)
  {
    s.Some? && s.value != ""
  }

  /** How an f-string renders a str-or-None value. */
  function Show(s: Option<string>): string
  {
    match s
    case None => "None"
    case Some(text) => text
  }

  datatype RPCError = RPCError(
    protocolErrorMessage: Option<string>,
    protocolError: bool,
    timeoutError: bool,
    idMismatchError: bool,
    peerError: bool,
    peerErrorMessage: Option<string>)

  /** RPCError(error_message, timeout_error, id_mismatch_error, peer_error,
      peer_error_message): the protocol flag is set by a truthy message, and a
      truthy peer message without the peer flag raises ValueError. */
  function NewRpcError(errorMessage: Option<string>, timeoutError: bool, idMismatchError: bool,
                       peerError: bool, peerErrorMessage: Option<string>): (r: Result<RPCError>)
    ensures r.Err? <==> Truthy(peerErrorMessage) && !peerError
    ensures r.Err? ==> r.error == ValueError
    ensures r.Ok? ==> r.value.protocolError == Truthy(errorMessage)
    ensures r.Ok? ==> r.value.protocolErrorMessage == errorMessage && r.value.peerErrorMessage == peerErrorMessage
    ensures r.Ok? ==> r.value.timeoutError == timeoutError && r.value.idMismatchError == idMismatchError
                      && r.value.peerError == peerError
  {
    var e := RPCError(errorMessage, Truthy(errorMessage), timeoutError, idMismatchError,
                      peerError, peerErrorMessage);
    if Truthy(e.peerErrorMessage) && !e.peerError then Err(ValueError) else Ok(e)
  }

  /** RPCError(): no message and every flag false. */
  function DefaultRpcError(): (e: RPCError)
    ensures NewRpcError(None, false, false, false, None) == Ok(e)
  {
    RPCError(None, false, false, false, false, None)
  }

  /** has_error(): any of the four flags. */
  predicate HasError(e: RPCError)
  {
    e.timeoutError || e.protocolError || e.idMismatchError || e.peerError
  }

  /** __str__(): protocol error first, then peer, timeout and id mismatch. */
  function Describe(e: RPCError): string
  {
    if HasError(e) then
      if e.protocolError then "Protocol error: " + Show(e.protocolErrorMessage)
      else if e.peerError then "Peer error: " + Show(e.peerErrorMessage)
      else if e.timeoutError then "Timeout error."
      else if e.idMismatchError then "ID mismatch error."
      else "Unknown error."
    else "No error."
  }

  /** The description says "No error." exactly when no flag is set, names the
      highest-priority flag otherwise, and the "Unknown error." branch is dead. */
  lemma DescribeReportsFlags(e: RPCError)
    ensures Describe(e) == "No error." <==> !HasError(e)
    ensures e.protocolError ==> Describe(e)[..16] == "Protocol error: "
    ensures !e.protocolError && e.peerError ==> Describe(e)[..12] == "Peer error: "
    ensures !e.protocolError && !e.peerError && e.timeoutError ==> Describe(e) == "Timeout error."
    ensures !e.protocolError && !e.peerError && !e.timeoutError && e.idMismatchError
            ==> Describe(e) == "ID mismatch error."
    ensures Describe(e) != "Unknown error."
  {
    if e.protocolError {
      assert Describe(e)[0] == 'P';
    } else if e.peerError {
      assert Describe(e)[0] == 'P';
    }
  }

  /** The two copies of errors.py, which differ in no_error(). */
  datatype ErrorsCopy = DhtErrors | PackageErrors

  /** no_error(): a fresh RPCError() in kademlia_dht/errors.py, None in
      kademlia/errors.py. */
  function NoError(copy: ErrorsCopy): (r: Option<RPCError>)
    ensures copy == DhtErrors ==> r.Some? && !HasError(r.value)
    ensures copy == PackageErrors ==> r.None?
  {
    match copy
    case DhtErrors => Some(DefaultRpcError())
    case PackageErrors => None
  }

  /** `if error:` on an RPCError-or-None: every exception object is truthy,
      whatever its flags. */
  predicate ErrorIsTruthy(e: Option<RPCError>)
  {
    e.Some?
  }

  /** `not error or not error.has_error()`. */
  predicate NoErrorReported(e: Option<RPCError>)
  {
    e.None? || !HasError(e.value)
  }
}
