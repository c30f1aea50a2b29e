/**
 * The in-memory chat room used in place of a real multi-user chat room:
 * whether the local user has joined, the ordered member list, member roles,
 * and three listener registries (room listeners, member-presence listeners,
 * local-user-role listeners). Every listener callback is recorded in a ghost
 * log instead of running foreign code.
 */
module Muc {
  import opened Wrappers
  import opened MucEvents
  import opened MucMembers

  /**
   * A parsed address: its bare part and, for a full address, the resource
   * (nickname). Member lookups use only the resource and ignore the bare part.
   */
  datatype Jid = Jid(bare: string, resource: Option<string>)

  datatype RoomError =
    | AlreadyJoined      // join() while already joined
    | InvalidMemberName  // the nickname fails resourceprep
    | DuplicateMember    // another member already has the nickname
    | MemberNotInRoom    // removal of a member the room does not hold

  /**
   * The notifications produced by removing, in list order, every member of
   * `s` called `name`: one presence dispatch of `Left` per removed member.
   */
  function LeaveByNameLog(s: seq<RoomMember>, name: string, presence: seq<ListenerId>, room: seq<ListenerId>): seq<Notification>
  {
    if s == [] then []
    else
      var last := s[|s| - 1];
      LeaveByNameLog(s[..|s| - 1], name, presence, room)
        + (if last.name == name then PresenceDispatch(presence, room, Left(last)) else [])
  }

  /** Leaving by a nickname nobody has notifies nobody. */
  lemma {:induction false} LeaveByNameLogAbsent(s: seq<RoomMember>, name: string, presence: seq<ListenerId>, room: seq<ListenerId>)
    requires !NameTaken(s, name)
    ensures LeaveByNameLog(s, name, presence, room) == []
  {
    if s != [] {
      assert s[|s| - 1] in s;
      LeaveByNameLogAbsent(s[..|s| - 1], name, presence, room);
    }
  }

  /** With unique nicknames, leaving by a present nickname is one `Left` dispatch. */
  lemma {:induction false} LeaveByNameLogSingle(s: seq<RoomMember>, name: string, k: nat, presence: seq<ListenerId>, room: seq<ListenerId>)
    requires UniqueNames(s)
    requires k < |s| && s[k].name == name
    ensures LeaveByNameLog(s, name, presence, room) == PresenceDispatch(presence, room, Left(s[k]))
  {
    var n := |s|;
    var init := s[..n - 1];
    assert UniqueNames(init);
    if k == n - 1 {
      assert !NameTaken(init, name);
      LeaveByNameLogAbsent(init, name, presence, room);
    } else {
      assert s[n - 1].name != name;
      LeaveByNameLogSingle(init, name, k, presence, room);
    }
  }

  /**
   * With unique nicknames, removal by a nickname nobody has is a silent no-op,
   * and removal by a present one deletes that member alone with one `Left`
   * dispatch.
   */
  lemma LeaveByNameEffect(s: seq<RoomMember>, name: string, presence: seq<ListenerId>, room: seq<ListenerId>)
    requires UniqueNames(s)
    ensures !NameTaken(s, name) ==> Without(s, name) == s && LeaveByNameLog(s, name, presence, room) == []
    ensures forall k :: FirstWithName(s, k, name) ==>
              && Without(s, name) == s[..k] + s[k + 1..]
              && LeaveByNameLog(s, name, presence, room) == PresenceDispatch(presence, room, Left(s[k]))
  {
    if !NameTaken(s, name) {
      WithoutAbsent(s, name);
      LeaveByNameLogAbsent(s, name, presence, room);
    }
    forall k | FirstWithName(s, k, name)
      ensures Without(s, name) == s[..k] + s[k + 1..]
      ensures LeaveByNameLog(s, name, presence, room) == PresenceDispatch(presence, room, Left(s[k]))
    {
      WithoutSingle(s, name, k);
      LeaveByNameLogSingle(s, name, k, presence, room);
    }
  }

  lemma AppendAssoc<T>(a: seq<T>, b: seq<T>, c: seq<T>)
    ensures a + b + c == a + (b + c)
  {
  }

  /** Removal by nickname over one more member of the snapshot. */
  lemma LeaveLogStep(s: seq<RoomMember>, i: nat, name: string, presence: seq<ListenerId>, room: seq<ListenerId>)
    requires i < |s|
    ensures LeaveByNameLog(s[..i + 1], name, presence, room)
            == LeaveByNameLog(s[..i], name, presence, room)
               + (if s[i].name == name then PresenceDispatch(presence, room, Left(s[i])) else [])
  {
    assert s[..i + 1][..i] == s[..i];
  }

  /** Dropping a nickname over one more member of the snapshot. */
  lemma WithoutStep(s: seq<RoomMember>, i: nat, name: string)
    requires i < |s|
    ensures s[i].name == name ==> Without(s[..i + 1], name) == Without(s[..i], name)
    ensures s[i].name != name ==> Without(s[..i + 1], name) == Without(s[..i], name) + [s[i]]
  {
    assert s[..i + 1][..i] == s[..i];
  }

  /**
   * Where removal by nickname over a snapshot `s` stands after its first `i`
   * members: `current` is the list and `currentLog` the log (on top of
   * `base`) that handling those members has produced.
   */
  ghost predicate LeaveProgress(s: seq<RoomMember>, i: nat, name: string, current: seq<RoomMember>,
                                base: seq<Notification>, currentLog: seq<Notification>,
                                presence: seq<ListenerId>, room: seq<ListenerId>)
  {
    && i <= |s|
    && current == Without(s[..i], name) + s[i..]
    && currentLog == base + LeaveByNameLog(s[..i], name, presence, room)
  }

  /** Before the first member nothing has changed. */
  lemma LeaveStart(s: seq<RoomMember>, name: string, base: seq<Notification>,
                   presence: seq<ListenerId>, room: seq<ListenerId>)
    ensures LeaveProgress(s, 0, name, s, base, base, presence, room)
  {
    assert s[..0] == [] && s[0..] == s;
    assert base + [] == base;
  }

  /** After the last member the list and the log are the whole removal's. */
  lemma LeaveDone(s: seq<RoomMember>, name: string, current: seq<RoomMember>,
                  base: seq<Notification>, currentLog: seq<Notification>,
                  presence: seq<ListenerId>, room: seq<ListenerId>)
    requires LeaveProgress(s, |s|, name, current, base, currentLog, presence, room)
    ensures current == Without(s, name)
    ensures currentLog == base + LeaveByNameLog(s, name, presence, room)
  {
    assert s[..|s|] == s && s[|s|..] == [];
    assert current == Without(s, name) + [];
  }

  /** A member with another nickname keeps its place and adds no dispatch. */
  lemma LeaveKeep(s: seq<RoomMember>, i: nat, name: string, current: seq<RoomMember>,
                  base: seq<Notification>, currentLog: seq<Notification>,
                  presence: seq<ListenerId>, room: seq<ListenerId>)
    requires i < |s| && s[i].name != name
    requires LeaveProgress(s, i, name, current, base, currentLog, presence, room)
    ensures LeaveProgress(s, i + 1, name, current, base, currentLog, presence, room)
  {
    WithoutStep(s, i, name);
    LeaveLogStep(s, i, name, presence, room);
    assert s[i..] == [s[i]] + s[i + 1..];
  }

  /** The member called `name` at position `i` is still in the room. */
  lemma LeaveFound(s: seq<RoomMember>, i: nat, name: string, current: seq<RoomMember>,
                   base: seq<Notification>, currentLog: seq<Notification>,
                   presence: seq<ListenerId>, room: seq<ListenerId>)
    requires i < |s| && s[i].name == name
    requires LeaveProgress(s, i, name, current, base, currentLog, presence, room)
    ensures s[i] in current
  {
    assert current[|Without(s[..i], name)|] == s[i];
  }

  /**
   * A removal of the member called `name` at position `i` (its first
   * occurrence in `pre`) takes the list and the log to the next step.
   */
  lemma LeaveAfter(s: seq<RoomMember>, i: nat, name: string, pre: seq<RoomMember>, post: seq<RoomMember>,
                   base: seq<Notification>, preLog: seq<Notification>, postLog: seq<Notification>,
                   presence: seq<ListenerId>, room: seq<ListenerId>)
    requires i < |s| && s[i].name == name
    requires LeaveProgress(s, i, name, pre, base, preLog, presence, room)
    requires post == RemoveFirst(pre, s[i])
    requires postLog == preLog + PresenceDispatch(presence, room, Left(s[i]))
    ensures LeaveProgress(s, i + 1, name, post, base, postLog, presence, room)
  {
    RemoveSplice(s, i, name, pre);
    RemoveFirstAt(pre, s[i]);
    LeaveLogStep(s, i, name, presence, room);
    AppendAssoc(base, LeaveByNameLog(s[..i], name, presence, room), PresenceDispatch(presence, room, Left(s[i])));
  }

  /** Cutting the member at `i` out of the list of that step, at its index there. */
  lemma RemoveSplice(s: seq<RoomMember>, i: nat, name: string, current: seq<RoomMember>)
    requires i < |s| && s[i].name == name
    requires current == Without(s[..i], name) + s[i..]
    ensures s[i] in current
    ensures current[..IndexOf(current, s[i])] + current[IndexOf(current, s[i]) + 1..]
            == Without(s[..i + 1], name) + s[i + 1..]
  {
    WithoutStep(s, i, name);
    assert s[i..] == [s[i]] + s[i + 1..];
    assert s[i] !in Without(s[..i], name);
    SpliceAfter(Without(s[..i], name), s[i], s[i + 1..], current);
  }

  class MockChatRoom {
    const roomJid: string
    /** Whether a nickname is a valid resource part (XMPP resourceprep succeeds). */
    const nickValid: string -> bool
    /** Parsing of a full address; None when the parser rejects it. */
    const parseFullJid: string -> Option<Jid>

    var joined: bool
    var members: seq<RoomMember>
    var roomListeners: seq<ListenerId>
    var presenceListeners: seq<ListenerId>
    var roleListeners: seq<ListenerId>
    /** Every listener callback made so far, in order. */
    ghost var log: seq<Notification>

    /** The room invariant: nicknames are unique and valid. */
    ghost predicate Valid()
      reads this`members
    {
      UniqueNames(members) && forall m :: m in members ==> nickValid(m.name)
    }

    constructor (roomJid: string, nickValid: string -> bool, parseFullJid: string -> Option<Jid>)
      ensures Valid()
      ensures this.roomJid == roomJid && this.nickValid == nickValid && this.parseFullJid == parseFullJid
      ensures !joined && members == [] && log == []
      ensures roomListeners == [] && presenceListeners == [] && roleListeners == []
    {
      this.roomJid := roomJid;
      this.nickValid := nickValid;
      this.parseFullJid := parseFullJid;
      joined := false;
      members := [];
      roomListeners, presenceListeners, roleListeners := [], [], [];
      log := [];
    }

    /** True exactly while the local user is joined. */
    function IsJoined(): (b: bool)
      reads this
      ensures b <==> joined
    {
      joined
    }

    /** The number of current members. */
    function MembersCount(): (n: nat)
      reads this
      ensures n == |members|
    {
      |members|
    }

    /**
     * Joining fails when already joined; otherwise the room becomes joined and
     * every local-role listener of the snapshot is told (Owner, initial).
     */
    method Join() returns (r: Outcome<RoomError>)
      requires Valid()
      modifies this`joined, this`log
      ensures Valid() && joined
      ensures old(joined) ==> r == Fail(AlreadyJoined) && log == old(log)
      ensures !old(joined) ==> r == Pass && log == old(log) + RoleDispatch(roleListeners, LocalRoleEvent(Owner, true))
    {
      if joined {
        return Fail(AlreadyJoined);
      }
      joined := true;
      FireLocalUserRoleEvent(Owner);
      r := Pass;
    }

    /** Leaving is idempotent and touches nothing but the joined flag. */
    method Leave()
      requires Valid()
      modifies this`joined
      ensures Valid() && !joined
    {
      if !joined {
        return;
      }
      joined := false;
    }

    /**
     * Adds a member: rejected when its nickname is invalid or already taken;
     * otherwise appended at the end and announced with one `Joined` dispatch.
     */
    method MockJoin(m: RoomMember) returns (r: Result<RoomMember, RoomError>)
      requires Valid()
      modifies this`members, this`log
      ensures Valid()
      ensures !nickValid(m.name) ==>
                r == Failure(InvalidMemberName) && members == old(members) && log == old(log)
      ensures nickValid(m.name) && NameTaken(old(members), m.name) ==>
                r == Failure(DuplicateMember) && members == old(members) && log == old(log)
      ensures nickValid(m.name) && !NameTaken(old(members), m.name) ==>
                && r == Success(m)
                && members == old(members) + [m]
                && log == old(log) + PresenceDispatch(presenceListeners, roomListeners, Joined(m))
    {
      if !nickValid(m.name) {
        return Failure(InvalidMemberName);
      }
      var existing := FindMember(Some(m.name));
      if existing.Some? {
        return Failure(DuplicateMember);
      }
      members := members + [m];
      FireMemberPresenceEvent(Joined(m));
      r := Success(m);
    }

    /**
     * Removes, over a snapshot of the list, every member called `name`, each
     * with its own `Left` dispatch; LeaveByNameEffect shows that under the
     * room invariant this is one member or, silently, none.
     */
    method MockLeaveByName(name: string)
      requires Valid()
      modifies this`members, this`log
      ensures Valid()
      ensures members == Without(old(members), name)
      ensures log == old(log) + LeaveByNameLog(old(members), name, presenceListeners, roomListeners)
    {
      var snapshot := members;
      LeaveStart(snapshot, name, log, presenceListeners, roomListeners);
      var i := 0;
      while i < |snapshot|
        invariant 0 <= i <= |snapshot|
        invariant Valid()
        invariant LeaveProgress(snapshot, i, name, members, old(log), log, presenceListeners, roomListeners)
      {
        LeaveIfNamed(snapshot, i, name, old(log));
        i := i + 1;
      }
      LeaveDone(snapshot, name, members, old(log), log, presenceListeners, roomListeners);
    }

    /** One turn of that loop: the member at `i` of the snapshot leaves when it is called `name`. */
    method LeaveIfNamed(snapshot: seq<RoomMember>, i: nat, name: string, ghost base: seq<Notification>)
      requires i < |snapshot| && Valid()
      requires LeaveProgress(snapshot, i, name, members, base, log, presenceListeners, roomListeners)
      modifies this`members, this`log
      ensures Valid()
      ensures LeaveProgress(snapshot, i + 1, name, members, base, log, presenceListeners, roomListeners)
    {
      var m := snapshot[i];
      if m.name != name {
        LeaveKeep(snapshot, i, name, members, base, log, presenceListeners, roomListeners);
      } else {
        LeaveFound(snapshot, i, name, members, base, log, presenceListeners, roomListeners);
        ghost var pre, preLog := members, log;
        var _ := MockLeaveMember(m);
        LeaveAfter(snapshot, i, name, pre, members, base, preLog, log, presenceListeners, roomListeners);
      }
    }

    /**
     * Removes one member (by equality): fails when it is not in the room;
     * otherwise deletes exactly that member, keeping the others' order, and
     * announces it with one `Left` dispatch.
     */
    method MockLeaveMember(m: RoomMember) returns (r: Outcome<RoomError>)
      requires Valid()
      modifies this`members, this`log
      ensures Valid()
      ensures presenceListeners == old(presenceListeners) && roomListeners == old(roomListeners)
      ensures m !in old(members) ==>
                r == Fail(MemberNotInRoom) && members == old(members) && log == old(log)
      ensures m in old(members) ==>
                && r == Pass
                && members == RemoveFirst(old(members), m)
                && log == old(log) + PresenceDispatch(presenceListeners, roomListeners, Left(m))
    {
      if m !in members {
        return Fail(MemberNotInRoom);
      }
      RemoveFirstAt(members, m);
      UniqueAfterRemoveFirst(members, m);
      members := RemoveFirst(members, m);
      FireMemberPresenceEvent(Left(m));
      r := Pass;
    }

    /** The first member called `nickname`; none for a missing nickname. */
    method FindMember(nickname: Option<string>) returns (r: Option<RoomMember>)
      ensures nickname.None? ==> r.None?
      ensures nickname.Some? && r.None? ==> !NameTaken(members, nickname.value)
      ensures r.Some? ==>
                nickname.Some? && exists k :: FirstWithName(members, k, nickname.value) && members[k] == r.value
    {
      if nickname.None? {
        return None;
      }
      var nick := nickname.value;
      var i := 0;
      while i < |members|
        invariant 0 <= i <= |members|
        invariant forall j :: 0 <= j < i ==> members[j].name != nick
      {
        if members[i].name == nick {
          assert FirstWithName(members, i, nick);
          return Some(members[i]);
        }
        i := i + 1;
      }
      return None;
    }

    /** The member whose nickname is the resource of `address`. */
    method FindChatMember(address: Jid) returns (r: Option<RoomMember>)
      requires Valid()
      ensures address.resource.None? ==> r.None?
      ensures address.resource.Some? ==>
                (r.None? <==> !NameTaken(members, address.resource.value))
      ensures r.Some? ==> r.value in members && Some(r.value.name) == address.resource
    {
      r := FindMember(address.resource);
    }

    /**
     * Sets the role of the member named by the resource of `address`; a
     * missing resource or an absent member leaves the room as it was.
     */
    method GrantRole(address: Jid, newRole: Role)
      requires Valid()
      modifies this`members
      ensures Valid()
      ensures address.resource.None? ==> members == old(members)
      ensures address.resource.Some? ==> members == WithRole(old(members), address.resource.value, newRole)
    {
      var found := FindMember(address.resource);
      if found.None? {
        if address.resource.Some? {
          AbsentWithRole(members, address.resource.value, newRole);
        }
        return;  // no member has this nickname: nothing changes
      }
      var nick := address.resource.value;
      ghost var first :| FirstWithName(members, first, nick) && members[first] == found.value;
      var k := IndexOf(members, found.value);
      assert k == first;
      members := members[k := found.value.(role := newRole)];
      assert members == WithRole(old(members), nick, newRole);
    }

    /**
     * Makes the member addressed by `address` an owner; an unparsable
     * address, a missing resource or an absent member is absorbed silently.
     */
    method GrantOwnership(address: string)
      requires Valid()
      modifies this`members
      ensures Valid()
      ensures parseFullJid(address).None? || parseFullJid(address).value.resource.None? ==>
                members == old(members)
      ensures parseFullJid(address).Some? && parseFullJid(address).value.resource.Some? ==>
                members == WithRole(old(members), parseFullJid(address).value.resource.value, Owner)
    {
      match parseFullJid(address)
      case None =>  // an unparsable address: nothing changes
      case Some(jid) => GrantRole(jid, Owner);
    }

    method AddListener(l: ListenerId)
      requires Valid()
      modifies this`roomListeners
      ensures Valid() && roomListeners == old(roomListeners) + [l]
    {
      roomListeners := roomListeners + [l];
    }

    method RemoveListener(l: ListenerId)
      requires Valid()
      modifies this`roomListeners
      ensures Valid() && roomListeners == RemoveFirst(old(roomListeners), l)
    {
      roomListeners := RemoveFirst(roomListeners, l);
    }

    method AddMemberPresenceListener(l: ListenerId)
      requires Valid()
      modifies this`presenceListeners
      ensures Valid() && presenceListeners == old(presenceListeners) + [l]
    {
      presenceListeners := presenceListeners + [l];
    }

    method RemoveMemberPresenceListener(l: ListenerId)
      requires Valid()
      modifies this`presenceListeners
      ensures Valid() && presenceListeners == RemoveFirst(old(presenceListeners), l)
    {
      presenceListeners := RemoveFirst(presenceListeners, l);
    }

    method AddLocalUserRoleListener(l: ListenerId)
      requires Valid()
      modifies this`roleListeners
      ensures Valid() && roleListeners == old(roleListeners) + [l]
    {
      roleListeners := roleListeners + [l];
    }

    method RemoveLocalUserRoleListener(l: ListenerId)
      requires Valid()
      modifies this`roleListeners
      ensures Valid() && roleListeners == RemoveFirst(old(roleListeners), l)
    {
      roleListeners := RemoveFirst(roleListeners, l);
    }

    /**
     * Tells a snapshot of the presence listeners, in order, then the room
     * listeners, in order, with the callback for the event's kind.
     */
    method FireMemberPresenceEvent(e: PresenceEvent)
      modifies this`log
      ensures log == old(log) + PresenceDispatch(presenceListeners, roomListeners, e)
    {
      var snapshot := presenceListeners;
      Notify(snapshot, PresenceCall(e));
      Notify(roomListeners, RoomListenerCall(e));
      AppendAssoc(old(log), Deliver(snapshot, PresenceCall(e)), Deliver(roomListeners, RoomListenerCall(e)));
    }

    /** Tells a snapshot of the local-role listeners, in order, of (role, initial). */
    method FireLocalUserRoleEvent(role: Role)
      modifies this`log
      ensures log == old(log) + RoleDispatch(roleListeners, LocalRoleEvent(role, true))
    {
      var snapshot := roleListeners;
      Notify(snapshot, LocalRoleCall(LocalRoleEvent(role, true)));
    }

    /** Makes the callback `cb` on each listener of the snapshot `listeners`, in order. */
    method Notify(listeners: seq<ListenerId>, cb: Callback)
      modifies this`log
      ensures log == old(log) + Deliver(listeners, cb)
    {
      for i := 0 to |listeners|
        invariant log == old(log) + Deliver(listeners[..i], cb)
      {
        ghost var done := Deliver(listeners[..i], cb);
        DeliverStep(listeners, i, cb);
        AppendAssoc(old(log), done, [Invoke(cb, listeners[i])]);
        log := log + [Invoke(cb, listeners[i])];
      }
      assert listeners[..|listeners|] == listeners;
    }
  }

  /**
   * A client of the membership contracts: one member joins, a duplicate join
   * is refused, and the member leaves by nickname.
   */
  method LoungeScenario()
  {
    var room := new MockChatRoom("lounge@conference.example", n => |n| > 0, a => None);
    room.AddMemberPresenceListener(1);
    room.AddListener(2);
    var alice := RoomMember("alice", Member);
    var r := room.MockJoin(alice);
    assert r == Success(alice);
    assert room.members == [alice];
    assert room.log == PresenceDispatch([1], [2], Joined(alice));
    PresenceDispatchOrder([1], [2], Joined(alice));
    assert room.log[0] == MemberPresenceChanged(1, Joined(alice));
    assert room.log[1] == MemberJoined(2, alice);

    assert alice in room.members;
    r := room.MockJoin(alice);
    assert r == Failure(DuplicateMember);

    ghost var before := room.members;
    assert FirstWithName(before, 0, "alice");
    LeaveByNameEffect(before, "alice", room.presenceListeners, room.roomListeners);
    room.MockLeaveByName("alice");
    assert room.members == before[..0] + before[1..];
    assert room.MembersCount() == 0;
  }

  /** A client of the join/leave contracts: join, refused re-join, leave twice, join again. */
  method JoinLeaveScenario(roleListener: ListenerId)
  {
    var room := new MockChatRoom("lounge@conference.example", n => |n| > 0, a => None);
    room.AddLocalUserRoleListener(roleListener);
    var j := room.Join();
    assert room.log == RoleDispatch([roleListener], LocalRoleEvent(Owner, true));
    assert j == Pass && room.IsJoined();
    j := room.Join();
    assert j == Fail(AlreadyJoined);
    room.Leave();
    room.Leave();
    assert !room.IsJoined();
    j := room.Join();
    assert j == Pass;
  }
}
