/**
 * Presence and local-user-role notifications of a multi-user chat room, and
 * the order in which a room hands them to its listener registries.
 */
module MucEvents {

  /** The identity of one registered listener object. */
  type ListenerId = nat

  datatype Role = Owner | Moderator | Member | Visitor

  /** A room occupant: its nickname (unique within the room) and its role. */
  datatype RoomMember = RoomMember(name: string, role: Role)

  datatype PresenceEvent =
    | Joined(member: RoomMember)
    | Left(member: RoomMember)
    | Kicked(member: RoomMember)

  /** The local user's new role; `isInitial` marks the role granted by joining. */
  datatype LocalRoleEvent = LocalRoleEvent(role: Role, isInitial: bool)

  /** One callback invocation on one listener, as it would be observed. */
  datatype Notification =
    | MemberPresenceChanged(presenceListener: ListenerId, event: PresenceEvent)
    | MemberJoined(roomListener: ListenerId, who: RoomMember)
    | MemberLeft(roomListener: ListenerId, who: RoomMember)
    | MemberKicked(roomListener: ListenerId, who: RoomMember)
    | LocalUserRoleChanged(roleListener: ListenerId, roleEvent: LocalRoleEvent)

  /** Which listener method is called, and with what argument. */
  datatype Callback =
    | PresenceCall(event: PresenceEvent)      // memberPresenceChanged(evt)
    | RoomListenerCall(event: PresenceEvent)  // memberJoined / memberLeft / memberKicked
    | LocalRoleCall(roleEvent: LocalRoleEvent) // localUserRoleChanged(evt)

  /**
   * The notification produced by calling `cb` on listener `l`. A room
   * listener gets the typed callback that matches the event's kind.
   */
  function Invoke(cb: Callback, l: ListenerId): (n: Notification)
    ensures cb.PresenceCall? ==> n == MemberPresenceChanged(l, cb.event)
    ensures cb.LocalRoleCall? ==> n == LocalUserRoleChanged(l, cb.roleEvent)
    ensures cb.RoomListenerCall? ==>
              && (n.MemberJoined? <==> cb.event.Joined?)
              && (n.MemberLeft? <==> cb.event.Left?)
              && (n.MemberKicked? <==> cb.event.Kicked?)
              && n.roomListener == l && n.who == cb.event.member
  {
    match cb
    case PresenceCall(e) => MemberPresenceChanged(l, e)
    case LocalRoleCall(e) => LocalUserRoleChanged(l, e)
    case RoomListenerCall(e) =>
      match e
      case Joined(m) => MemberJoined(l, m)
      case Left(m) => MemberLeft(l, m)
      case Kicked(m) => MemberKicked(l, m)
  }

  /** Calling `cb` on every listener of `listeners`, in registration order. */
  function Deliver(listeners: seq<ListenerId>, cb: Callback): (r: seq<Notification>)
    ensures |r| == |listeners|
  {
    if listeners == [] then []
    else Deliver(listeners[..|listeners| - 1], cb) + [Invoke(cb, listeners[|listeners| - 1])]
  }

  /** The k-th notification of a delivery goes to the k-th registered listener. */
  lemma {:induction false} DeliverAt(listeners: seq<ListenerId>, cb: Callback, k: nat)
    requires k < |listeners|
    ensures Deliver(listeners, cb)[k] == Invoke(cb, listeners[k])
  {
    var n := |listeners|;
    if k < n - 1 {
      DeliverAt(listeners[..n - 1], cb, k);
    }
  }

  /** Delivering to one more listener appends exactly its notification. */
  lemma DeliverStep(listeners: seq<ListenerId>, i: nat, cb: Callback)
    requires i < |listeners|
    ensures Deliver(listeners[..i + 1], cb) == Deliver(listeners[..i], cb) + [Invoke(cb, listeners[i])]
  {
    assert listeners[..i + 1][..i] == listeners[..i];
  }

  /**
   * What one presence event produces: first every presence listener of the
   * snapshot, then every room listener with the callback for the event kind.
   */
  function PresenceDispatch(presence: seq<ListenerId>, room: seq<ListenerId>, e: PresenceEvent): seq<Notification>
  {
    Deliver(presence, PresenceCall(e)) + Deliver(room, RoomListenerCall(e))
  }

  /** What one local-user-role event produces. */
  function RoleDispatch(roleListeners: seq<ListenerId>, evt: LocalRoleEvent): seq<Notification>
  {
    Deliver(roleListeners, LocalRoleCall(evt))
  }

  /** Presence listeners come first, in order; then room listeners, in order. */
  lemma PresenceDispatchOrder(presence: seq<ListenerId>, room: seq<ListenerId>, e: PresenceEvent)
    ensures |PresenceDispatch(presence, room, e)| == |presence| + |room|
    ensures forall k :: 0 <= k < |presence| ==>
              PresenceDispatch(presence, room, e)[k] == MemberPresenceChanged(presence[k], e)
    ensures forall k :: 0 <= k < |room| ==>
              PresenceDispatch(presence, room, e)[|presence| + k] == Invoke(RoomListenerCall(e), room[k])
  {
    forall k | 0 <= k < |presence|
      ensures PresenceDispatch(presence, room, e)[k] == MemberPresenceChanged(presence[k], e)
    {
      DeliverAt(presence, PresenceCall(e), k);
    }
    forall k | 0 <= k < |room|
      ensures PresenceDispatch(presence, room, e)[|presence| + k] == Invoke(RoomListenerCall(e), room[k])
    {
      DeliverAt(room, RoomListenerCall(e), k);
    }
  }

  /**
   * A listener is told of a presence event exactly when it is in the
   * corresponding registry snapshot.
   */
  lemma PresenceReachesRegistered(presence: seq<ListenerId>, room: seq<ListenerId>, e: PresenceEvent, l: ListenerId)
    ensures MemberPresenceChanged(l, e) in PresenceDispatch(presence, room, e) <==> l in presence
    ensures Invoke(RoomListenerCall(e), l) in PresenceDispatch(presence, room, e) <==> l in room
  {
    var d := PresenceDispatch(presence, room, e);
    PresenceDispatchOrder(presence, room, e);
    forall i | |presence| <= i < |d|
      ensures d[i] == Invoke(RoomListenerCall(e), room[i - |presence|])
    {
      assert d[|presence| + (i - |presence|)] == Invoke(RoomListenerCall(e), room[i - |presence|]);
    }
    if MemberPresenceChanged(l, e) in d {
      var i :| 0 <= i < |d| && d[i] == MemberPresenceChanged(l, e);
      assert i < |presence| && presence[i] == l;
    }
    if l in presence {
      var i :| 0 <= i < |presence| && presence[i] == l;
      assert d[i] == MemberPresenceChanged(l, e);
    }
    if Invoke(RoomListenerCall(e), l) in d {
      var i :| 0 <= i < |d| && d[i] == Invoke(RoomListenerCall(e), l);
      assert |presence| <= i && room[i - |presence|] == l;
    }
    if l in room {
      var i :| 0 <= i < |room| && room[i] == l;
      assert d[|presence| + i] == Invoke(RoomListenerCall(e), l);
    }
  }

  /**
   * A local-role event reaches every role listener of the snapshot in order,
   * and no other listener.
   */
  lemma RoleDispatchOrder(roleListeners: seq<ListenerId>, evt: LocalRoleEvent, l: ListenerId)
    ensures |RoleDispatch(roleListeners, evt)| == |roleListeners|
    ensures forall k :: 0 <= k < |roleListeners| ==>
              RoleDispatch(roleListeners, evt)[k] == LocalUserRoleChanged(roleListeners[k], evt)
    ensures LocalUserRoleChanged(l, evt) in RoleDispatch(roleListeners, evt) <==> l in roleListeners
  {
    var d := RoleDispatch(roleListeners, evt);
    forall k | 0 <= k < |roleListeners|
      ensures d[k] == LocalUserRoleChanged(roleListeners[k], evt)
    {
      DeliverAt(roleListeners, LocalRoleCall(evt), k);
    }
    if LocalUserRoleChanged(l, evt) in d {
      var i :| 0 <= i < |d| && d[i] == LocalUserRoleChanged(l, evt);
      assert roleListeners[i] == l;
    }
  }
}
