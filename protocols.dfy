/** The RPC result helpers of the three protocol files: get_rpc_error, and
    what VirtualProtocol returns and forwards to the node it wraps. */
module Protocols {
  import opened Wrappers
  import opened Ids
  import opened Contacts
  import opened RpcErrors

  /** kademlia_dht/protocols.py, kademlia/protocols.py and the top-level protocols.py. */
  datatype ProtocolCopy = DhtProtocol | PackageProtocol | RootProtocol

  /** The response dictionary handed to get_rpc_error: None, {}, or a
      non-empty dictionary with or without a "random_id" entry. */
  datatype Response = NoResponse | EmptyResponse | ResponseDict(randomId: Option<Operand>)

  /** The "error_message" entry of an error dictionary. */
  datatype ErrorMessage = MissingKey | NoneMessage | Message(text: string)

  /** The error dictionary: None, {}, or a non-empty dictionary. */
  datatype ErrorArg = NoErrorArg | EmptyErrorArg | ErrorDict(message: ErrorMessage)

  /** The Python value of an "error_message" entry. */
  function MessageValue(m: ErrorMessage): Option<string>
  {
    match m
    case Message(text) => Some(text)
    case _ => None
  }

  /** Reads peer_error["error_message"]: TypeError on None, KeyError when absent. */
  function ReadMessage(arg: ErrorArg): Result<Option<string>>
  {
    match arg
    case NoErrorArg => Err(TypeError)
    case EmptyErrorArg => Err(KeyError)
    case ErrorDict(MissingKey) => Err(KeyError)
    case ErrorDict(m) => Ok(MessageValue(m))
  }

  /** Reads resp["random_id"]: TypeError on None, KeyError when absent. */
  function ReadRandomId(resp: Response): Result<Operand>
  {
    match resp
    case NoResponse => Err(TypeError)
    case EmptyResponse => Err(KeyError)
    case ResponseDict(None) => Err(KeyError)
    case ResponseDict(Some(v)) => Ok(v)
  }

  /** get_rpc_error(id, ret, timeout_error, peer_error) in the two packages:
      the mismatch flag is read only from a non-empty response; the peer flag
      is set unless the message is "" or None; the message is copied only
      when it is a non-empty string. */
  function PackageRpcError(id: ID, ret: Response, timeoutError: bool, peerError: ErrorArg): (r: Result<RPCError>)
    ensures r.Ok? <==> ReadMessage(peerError).Ok? && (ret.ResponseDict? ==> ret.randomId.Some?)
    ensures r.Ok? ==> r.value.idMismatchError == (ret.ResponseDict? && !Eq(id, ret.randomId.value))
    ensures r.Ok? ==> r.value.timeoutError == timeoutError
    ensures r.Ok? ==> (r.value.peerError <==> peerError.ErrorDict? && peerError.message.Message?
                                               && peerError.message.text != "")
    ensures r.Ok? ==> (r.value.peerErrorMessage.Some? <==> Truthy(MessageValue(peerError.message)))
    ensures r.Ok? && r.value.peerErrorMessage.Some? ==> r.value.peerErrorMessage == MessageValue(peerError.message)
    ensures r.Ok? ==> !r.value.protocolError
    ensures r.Err? ==> r.error == KeyError || r.error == TypeError
  {
    var mismatch: Result<bool> :=
      match ret
      case ResponseDict(_) => (match ReadRandomId(ret) case Ok(v) => Ok(!Eq(id, v)) case Err(e) => Err(e))
      case _ => Ok(false);
    if mismatch.Err? then Err(mismatch.error)
    else
      match ReadMessage(peerError)
      case Err(e) => Err(e)
      case Ok(message) =>
        var flagged := !(message == Some("") || message == None);
        var copied := if Truthy(message) then message else None;
        Ok(DefaultRpcError().(idMismatchError := mismatch.value, timeoutError := timeoutError,
                              peerError := flagged, peerErrorMessage := copied))
  }

  /** get_rpc_error(id, resp, timeout_error, peer_error) in the top-level
      protocols.py: resp["random_id"] is always read, the peer flag is
      "peer_error is not None", and a non-empty dictionary has its message
      copied, whatever it is. */
  function RootRpcError(id: ID, resp: Response, timeoutError: bool, peerError: ErrorArg): (r: Result<RPCError>)
    ensures r.Ok? <==> ReadRandomId(resp).Ok? && (peerError.ErrorDict? ==> peerError.message != MissingKey)
    ensures r.Ok? ==> r.value.idMismatchError == !Eq(id, resp.randomId.value)
    ensures r.Ok? ==> r.value.timeoutError == timeoutError
    ensures r.Ok? ==> (r.value.peerError <==> !peerError.NoErrorArg?)
    ensures r.Ok? ==> r.value.peerErrorMessage == if peerError.ErrorDict? then MessageValue(peerError.message) else None
    ensures r.Ok? ==> !r.value.protocolError
  {
    match ReadRandomId(resp)
    case Err(e) => Err(e)
    case Ok(v) =>
      var copied: Result<Option<string>> :=
        if peerError.ErrorDict? then ReadMessage(peerError) else Ok(None);
      if copied.Err? then Err(copied.error)
      else
        Ok(DefaultRpcError().(idMismatchError := !Eq(id, v), timeoutError := timeoutError,
                              peerError := !peerError.NoErrorArg?, peerErrorMessage := copied.value))
  }

  /** A call VirtualProtocol forwards, unchanged, to the node it wraps. */
  datatype NodeCall =
    | PingCall(sender: Contact)
    | FindNodeCall(sender: Contact, key: ID)
    | FindValueCall(sender: Contact, key: ID)
    | StoreCall(sender: Contact, key: ID, val: string, isCached: bool, expirationTimeSec: int)

  /** The error-free result: RPCError.no_error() in the packages (an instance
      in kademlia_dht, None in kademlia/), a literal None in protocols.py. */
  function NoErrorResult(copy: ProtocolCopy): (r: Option<RPCError>)
    ensures r.None? || !HasError(r.value)
    ensures r.Some? <==> copy == DhtProtocol
  {
    match copy
    case DhtProtocol => NoError(DhtErrors)
    case PackageProtocol => NoError(PackageErrors)
    case RootProtocol => None
  }

  const TIMEOUT_MESSAGE: string := "Time out while pinging contact - VirtualProtocol does not respond."

  /** ping(sender): a responding protocol forwards the ping and reports no
      error; a silent one forwards nothing and reports a timeout, which also
      sets the protocol flag because the message is non-empty. */
  function Ping(copy: ProtocolCopy, responds: bool, sender: Contact): (r: (seq<NodeCall>, Option<RPCError>))
    ensures responds ==> r.0 == [PingCall(sender)] && r.1 == NoErrorResult(copy)
    ensures !responds ==> r.0 == [] && r.1.Some? && HasError(r.1.value)
    ensures !responds ==> r.1.value.timeoutError && r.1.value.protocolError
                          && r.1.value.protocolErrorMessage == Some(TIMEOUT_MESSAGE)
  {
    if responds then ([PingCall(sender)], NoErrorResult(copy))
    else
      var e := NewRpcError(Some(TIMEOUT_MESSAGE), !responds, false, false, None);
      ([], Some(e.value))
  }

  /** find_node(sender, key): the node's contacts paired with no error. */
  function FindNode(copy: ProtocolCopy, sender: Contact, key: ID, nodeContacts: seq<Contact>)
    : (r: (seq<NodeCall>, seq<Contact>, Option<RPCError>))
    ensures r.0 == [FindNodeCall(sender, key)] && r.1 == nodeContacts
    ensures NoErrorReported(r.2) && r.2 == NoErrorResult(copy)
  {
    ([FindNodeCall(sender, key)], nodeContacts, NoErrorResult(copy))
  }

  /** find_value(sender, key): the node's contacts and value paired with no error. */
  function FindValue(copy: ProtocolCopy, sender: Contact, key: ID,
                     nodeContacts: Option<seq<Contact>>, nodeValue: Option<string>)
    : (r: (seq<NodeCall>, Option<seq<Contact>>, Option<string>, Option<RPCError>))
    ensures r.0 == [FindValueCall(sender, key)] && r.1 == nodeContacts && r.2 == nodeValue
    ensures NoErrorReported(r.3) && r.3 == NoErrorResult(copy)
  {
    ([FindValueCall(sender, key)], nodeContacts, nodeValue, NoErrorResult(copy))
  }

  /** store(sender, key, val, is_cached, exp_time): every argument forwarded
      unchanged, and no error. */
  function Store(copy: ProtocolCopy, sender: Contact, key: ID, val: string, isCached: bool, expirationTimeSec: int)
    : (r: (seq<NodeCall>, Option<RPCError>))
    ensures r.0 == [StoreCall(sender, key, val, isCached, expirationTimeSec)]
    ensures NoErrorReported(r.1) && r.1 == NoErrorResult(copy)
  {
    ([StoreCall(sender, key, val, isCached, expirationTimeSec)], NoErrorResult(copy))
  }

  /** Whatever the copy, a responding ping reports no error, but only the
      kademlia_dht copy hands back an (always truthy) error object. */
  lemma PingResultTruthiness(copy: ProtocolCopy, sender: Contact)
    ensures NoErrorReported(Ping(copy, true, sender).1)
    ensures ErrorIsTruthy(Ping(copy, true, sender).1) <==> copy == DhtProtocol
    ensures ErrorIsTruthy(Ping(copy, false, sender).1)
  {
  }
}
