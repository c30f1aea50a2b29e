/**
 * The room-existence endpoint: given the `room` query parameter, answer 200
 * when a conference is active for that room under the fixed conference
 * domain, 404 when none is, 400 for a missing, empty or malformed name, and
 * 500 for an unexpected fault. Only the decision is modelled; the address
 * normalisation and the conference registry are supplied as parameters.
 */
module RestRooms {
  import opened Wrappers

  /** The conference domain every room address is built under. */
  const Domain: string := "conference.conf.turkgram.org"

  datatype BareJid = BareJid(localpart: string, domain: string)

  /** What a registry lookup for one room address does. */
  datatype Lookup =
    | Active        // a conference is returned
    | NoConference  // null is returned
    | LookupFault   // an unexpected exception escapes

  /**
   * The collaborators of the endpoint: whether obtaining the focus manager
   * throws, localpart normalisation (None when it is rejected), and the
   * conference lookup.
   */
  datatype Services = Services(
    focusManagerFault: bool,
    localpartFrom: string -> Option<string>,
    getConference: BareJid -> Lookup)

  /** The exceptions the handler distinguishes. */
  datatype Thrown = StringprepException | UnexpectedException

  /** The inner block: normalise the name, build the address, look it up. */
  function LookupRoom(name: string, svc: Services): Result<int, Thrown>
  {
    match svc.localpartFrom(name)
    case None => Failure(StringprepException)
    case Some(local) =>
      match svc.getConference(BareJid(local, Domain))
      case Active => Success(200)
      case NoConference => Success(404)
      case LookupFault => Failure(UnexpectedException)
  }

  /** The outer block, with the inner handler that turns a rejected name into 400. */
  function HandleQuery(roomName: Option<string>, svc: Services): Result<int, Thrown>
  {
    if svc.focusManagerFault then Failure(UnexpectedException)
    else if roomName.None? then Success(400)
    else if roomName.value != "" then
      match LookupRoom(roomName.value, svc)
      case Failure(StringprepException) => Success(400)
      case other => other
    else Success(400)
  }

  /** The answers a room-existence query can have. */
  datatype Verdict = Found | NotFound | InvalidInput | InternalError

  /** The room-existence contract stated on its own: which verdict each query earns. */
  function Classify(roomName: Option<string>, svc: Services): Verdict
  {
    if svc.focusManagerFault then InternalError
    else if roomName.None? || roomName.value == "" || svc.localpartFrom(roomName.value).None? then InvalidInput
    else
      match svc.getConference(BareJid(svc.localpartFrom(roomName.value).value, Domain))
      case Active => Found
      case NoConference => NotFound
      case LookupFault => InternalError
  }

  function HttpStatus(v: Verdict): int
  {
    match v
    case Found => 200
    case NotFound => 404
    case InvalidInput => 400
    case InternalError => 500
  }

  /** The status the endpoint answers; anything escaping the outer block is 500. */
  function GetRoom(roomName: Option<string>, svc: Services): (status: int)
    ensures status == 200 || status == 400 || status == 404 || status == 500
    ensures svc.focusManagerFault ==> status == 500
    ensures !svc.focusManagerFault && roomName.None? ==> status == 400
    ensures !svc.focusManagerFault && roomName == Some("") ==> status == 400
    ensures (!svc.focusManagerFault && roomName.Some? && roomName.value != ""
             && svc.localpartFrom(roomName.value).None?) ==> status == 400
    ensures !svc.focusManagerFault && roomName.Some? && svc.localpartFrom(roomName.value).Some? ==>
              var jid := BareJid(svc.localpartFrom(roomName.value).value, Domain);
              && (roomName.value != "" && svc.getConference(jid) == Active ==> status == 200)
              && (roomName.value != "" && svc.getConference(jid) == NoConference ==> status == 404)
              && (roomName.value != "" && svc.getConference(jid) == LookupFault ==> status == 500)
    ensures status == 200 ==> roomName.Some? && roomName.value != ""
    ensures status == HttpStatus(Classify(roomName, svc))
  {
    match HandleQuery(roomName, svc)
    case Success(code) => code
    case Failure(_) => 500
  }
}
