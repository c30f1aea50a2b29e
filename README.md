# Chat room membership and room-existence check, modelled in Dafny

This project models two pieces of Jicofo, the Jitsi conference focus.

**The in-memory chat room** (`MockChatRoom`). Tests use it in place of a real
multi-user chat room. It tracks:

- whether the local user has joined;
- the ordered member list, with nicknames unique within the room;
- each member's role;
- three listener registries: room listeners, member-presence listeners and
  local-user-role listeners.

Adding a member fails on an invalid or duplicate nickname. Removing a member
fails when it is not in the room. A second `join()` fails. Granting ownership
is lenient: an unparsable address or an unknown nickname changes nothing and
raises no error. Leaving by a nickname nobody has is a silent no-op, and so
is `leave()` when not joined. Each successful membership change becomes one
presence event. That event goes first to a snapshot of the presence
listeners, in registration order. It then goes to the room listeners, each of
which gets the callback for the event's kind (joined, left or kicked).
`join()` tells every local-role listener that the local user is now the
owner, with the initial flag set.

**The room-existence endpoint** (`RestRooms.getRoom`). It maps the `room`
query parameter to an HTTP status:

- 400 for a missing, empty or malformed name;
- 200 when a conference is active for `name@conference.conf.turkgram.org`;
- 404 when no conference is active for it;
- 500 when an unexpected exception escapes.

Files:

- `wrappers.dfy` (module `Wrappers`): the `Option`, `Result` and `Outcome`
  datatypes.
- `muc_events.dfy` (module `MucEvents`): roles, members, presence and
  local-role events, and the notification log. `Deliver`, `PresenceDispatch`
  and `RoleDispatch` define what one dispatch produces. Lemmas about them
  state the delivery order and who is reached.
- `muc_members.dfy` (module `MucMembers`): the member list as a sequence.
  `RemoveFirst` is list removal by equality. `Without` drops everyone who has
  a given nickname. `WithRole` sets a role by nickname. The module also has
  the uniqueness lemmas.
- `mock_chat_room.dfy` (module `Muc`): the class `MockChatRoom`. Its fields
  are the joined flag, the member sequence and the three registries, plus a
  ghost `log` of every listener callback. `Valid()` is the room invariant:
  nicknames are unique and valid. Every operation that changes the member
  list requires it and preserves it. `MockLeaveByName` is proved through `LeaveIfNamed`, one turn
  of its loop, and the predicate `LeaveProgress`, which says how far the
  removal over the snapshot has got.
- `rest_rooms.dfy` (module `RestRooms`): the status decision as pure
  functions. `HandleQuery` and `LookupRoom` follow the handler's
  try/catch structure. `Classify` states the room-existence outcome
  independently, and `GetRoom`'s contract ties the two together.

Foreign calls are parameters:

- XMPP resourceprep of a nickname is the class constant `nickValid`.
- Parsing a full address (`JidCreate.entityFullFrom`) is the class constant
  `parseFullJid`. It yields `None` on a parse error, or a `Jid` whose
  resource may be absent.
- Localpart normalisation is `Services.localpartFrom`.
- Fetching the focus manager may throw: `Services.focusManagerFault`.
- The conference lookup is `Services.getConference`, which returns active,
  none, or an unexpected fault.

Listener objects are identified by a `ListenerId`.

Three behaviours of the code worth spelling out:

- A fault fetching the focus manager (RestRooms.java:37) gives 500 even when
  the parameter is missing, because the handler fetches it before it checks
  the parameter.
- `mockJoin` also rejects a nickname that fails resourceprep
  (MockChatRoom.java:180-187), with `InvalidMemberName`.
- `getMembers` returns the live list.

## Model

| member | source | states |
|---|---|---|
| `MucEvents.Invoke` | src/test/java/mock/muc/MockChatRoom.java:352-363 | a presence listener gets the tagged event; a room listener gets memberJoined, memberLeft or memberKicked exactly when the event is Joined, Left or Kicked, carrying the event's member; a role listener gets the role event |
| `MucEvents.Deliver` | src/test/java/mock/muc/MockChatRoom.java:347-350 | a dispatch over a listener snapshot makes exactly one callback per registered listener |
| `MucEvents.DeliverAt` | src/test/java/mock/muc/MockChatRoom.java:376-377 | the k-th callback of a dispatch goes to the k-th listener of the snapshot, i.e. registration order |
| `MucEvents.PresenceDispatchOrder` | src/test/java/mock/muc/MockChatRoom.java:339-364 | one presence event notifies every presence listener in order, then every room listener in order, with nothing else in between |
| `MucEvents.PresenceReachesRegistered` | src/test/java/mock/muc/MockChatRoom.java:341-363 | a listener receives the presence callback exactly when it is in the presence snapshot, and the kind-matched room callback exactly when it is in the room-listener registry |
| `MucEvents.RoleDispatchOrder` | src/test/java/mock/muc/MockChatRoom.java:366-378 | the local-role event reaches every role listener of the snapshot in registration order, and a listener is reached exactly when it is registered |
| `MucMembers.IndexOf` | src/test/java/mock/muc/MockChatRoom.java:216 | the position list removal acts on is the first occurrence of the element |
| `MucMembers.RemoveFirst` | src/test/java/mock/muc/MockChatRoom.java:216 | removing a present element shortens the list by one; removing an absent one changes nothing |
| `MucMembers.RemoveFirstAt` | src/test/java/mock/muc/MockChatRoom.java:216 | removal deletes exactly the first occurrence and keeps every other element in its relative order |
| `MucMembers.UniqueAfterRemoveFirst` | src/test/java/mock/muc/MockChatRoom.java:211-222 | removing a member keeps nicknames unique |
| `MucMembers.Without` | src/test/java/mock/muc/MockChatRoom.java:200-209 | after removal by nickname no remaining member has that nickname, and the list does not grow |
| `MucMembers.WithoutMembers` | src/test/java/mock/muc/MockChatRoom.java:200-209 | removal by nickname keeps exactly the members with another nickname |
| `MucMembers.WithoutAbsent` | src/test/java/mock/muc/MockChatRoom.java:200-209 | removal by a nickname nobody has leaves the list as it was |
| `MucMembers.WithoutSingle` | src/test/java/mock/muc/MockChatRoom.java:200-216 | with unique nicknames, removal by a present nickname deletes just that member and keeps the others in order |
| `MucMembers.WithRole` | src/test/java/mock/muc/MockChatRoom.java:288-298 | granting a role by nickname keeps the length and every nickname, gives the named members the role, and leaves every other member untouched |
| `MucMembers.AbsentWithRole` | src/test/java/mock/muc/MockChatRoom.java:290-295 | granting a role to a nickname nobody has changes nothing |
| `Muc.LeaveByNameLogAbsent` | src/test/java/mock/muc/MockChatRoom.java:200-209 | leaving by a nickname nobody has notifies nobody |
| `Muc.LeaveByNameLogSingle` | src/test/java/mock/muc/MockChatRoom.java:200-222 | with unique nicknames, leaving by a present nickname produces exactly one Left dispatch for that member |
| `Muc.LeaveByNameEffect` | src/test/java/mock/muc/MockChatRoom.java:200-222 | under the room invariant, `mockLeave(name)` is a silent no-op when nobody has the name; otherwise it removes exactly the first member with that name, keeps the others in order, and emits one Left dispatch for it |
| `Muc.MockChatRoom.constructor` | src/test/java/mock/muc/MockChatRoom.java:54-76 | a new room is not joined, has no members, no listeners and no notifications, and satisfies the room invariant |
| `Muc.MockChatRoom.IsJoined` | src/test/java/mock/muc/MockChatRoom.java:225-229 | reports the joined flag |
| `Muc.MockChatRoom.MembersCount` | src/test/java/mock/muc/MockChatRoom.java:282-286 | reports the number of current members |
| `Muc.MockChatRoom.Join` | src/test/java/mock/muc/MockChatRoom.java:154-167 | when already joined: fails with AlreadyJoined and notifies nobody; otherwise: becomes joined and appends (Owner, initial) for every role listener of the snapshot, in order; members and registries unchanged |
| `Muc.MockChatRoom.Leave` | src/test/java/mock/muc/MockChatRoom.java:231-238 | afterwards the room is not joined, whatever it was before; only the joined flag may change, so members, roles, registries and the log stay as they were |
| `Muc.MockChatRoom.MockJoin` | src/test/java/mock/muc/MockChatRoom.java:175-198 | an invalid nickname fails with InvalidMemberName; a taken nickname fails with DuplicateMember; both leave members and log unchanged; otherwise the member is appended at the end, count +1, exactly one Joined dispatch, and the member is returned; uniqueness is preserved |
| `Muc.MockChatRoom.MockLeaveByName` | src/test/java/mock/muc/MockChatRoom.java:200-209 | over a snapshot of the list, removes every member with the nickname and appends one Left dispatch per removed member, in list order; never fails; uniqueness is preserved |
| `Muc.MockChatRoom.LeaveIfNamed` | src/test/java/mock/muc/MockChatRoom.java:202-208 | one turn of the loop over the snapshot: a member with another nickname stays, a member with the nickname is removed with one Left dispatch, and the list and log then match removal by nickname over one more member of the snapshot |
| `Muc.MockChatRoom.MockLeaveMember` | src/test/java/mock/muc/MockChatRoom.java:211-223 | a member not in the room fails with MemberNotInRoom and changes nothing; otherwise the list becomes its `RemoveFirst` (by `RemoveFirstAt`, exactly that member deleted and the others in their order), one Left dispatch is appended, and the registries stay as they were |
| `Muc.MockChatRoom.FindMember` | src/test/java/mock/muc/MockChatRoom.java:300-313 | a missing nickname finds nothing; otherwise the result is the first member with the nickname, or nothing exactly when no member has it |
| `Muc.MockChatRoom.FindChatMember` | src/test/java/mock/muc/MockChatRoom.java:386-390 | looks up the member named by the address's resource; nothing when the resource is missing or nobody has it |
| `Muc.MockChatRoom.GrantRole` | src/test/java/mock/muc/MockChatRoom.java:288-298 | a missing resource or an absent nickname changes nothing; otherwise only the named member's role becomes the new role; no notification |
| `Muc.MockChatRoom.GrantOwnership` | src/test/java/mock/muc/MockChatRoom.java:315-326 | an unparsable address, a missing resource or an absent nickname changes nothing and raises no error; otherwise only the named member becomes Owner; no notification |
| `Muc.MockChatRoom.AddListener` | src/test/java/mock/muc/MockChatRoom.java:99-103 | the room listener is appended to its registry |
| `Muc.MockChatRoom.RemoveListener` | src/test/java/mock/muc/MockChatRoom.java:105-109 | the first registration of the room listener is removed, if any |
| `Muc.MockChatRoom.AddMemberPresenceListener` | src/test/java/mock/muc/MockChatRoom.java:246-253 | the presence listener is appended to its registry |
| `Muc.MockChatRoom.RemoveMemberPresenceListener` | src/test/java/mock/muc/MockChatRoom.java:255-262 | the first registration of the presence listener is removed, if any |
| `Muc.MockChatRoom.AddLocalUserRoleListener` | src/test/java/mock/muc/MockChatRoom.java:264-268 | the role listener is appended to its registry |
| `Muc.MockChatRoom.RemoveLocalUserRoleListener` | src/test/java/mock/muc/MockChatRoom.java:270-274 | the first registration of the role listener is removed, if any |
| `Muc.MockChatRoom.FireMemberPresenceEvent` | src/test/java/mock/muc/MockChatRoom.java:339-364 | appends to the log exactly the presence dispatch of the event over the current registries; nothing else changes |
| `Muc.MockChatRoom.FireLocalUserRoleEvent` | src/test/java/mock/muc/MockChatRoom.java:366-378 | appends to the log exactly the role dispatch of (role, initial) over the role-listener snapshot; nothing else changes |
| `Muc.MockChatRoom.Notify` | src/test/java/mock/muc/MockChatRoom.java:347-350 | calling every listener of a snapshot in order appends exactly the dispatch `Deliver` of that snapshot to the log |
| `RestRooms.GetRoom` | jicofo/src/main/java/org/jitsi/jicofo/rest/RestRooms.java:21-73 | the answer is one of 200, 400, 404 and 500. A fault fetching the focus manager gives 500. A missing, empty or unnormalisable name gives 400. For `localpart@conference.conf.turkgram.org`, an active conference gives 200, none gives 404, and a lookup fault gives 500. The answer always equals the status of the independent verdict `Classify` |

## Left out

- Locking and thread safety are not modelled: `synchronized`, `volatile`, `CopyOnWriteArrayList` and `Vector`. The model is sequential. Each dispatch still iterates over a copy of its registry taken before it starts.
- Listener callbacks are not run. Each callback is recorded in the ghost `log`, so callbacks that re-enter the room are not modelled.
- XMPP stringprep and address construction (`Resourcepart.from`, `Localpart.from`, `Domainpart.from`, `JidCreate`) are foreign library calls. They are the parameters listed above. The model treats resourceprep as a validity test that leaves the nickname unchanged. This holds for members created by `createMockRoomMember`, whose names are already normalised.
- `createMockRoomMember` and `createAddressForName` are not modelled, because `MockRoomMember` is not part of this model. Callers of `MockJoin` pass the member value directly.
- Member identity: the Java code compares `MockRoomMember` objects. The model compares (nickname, role) values and updates a role by replacing the element. Through `mockLeave(String)`, which passes current members, the two agree.
- Muc.MockChatRoom.MockLeaveMember: matches the member by value, so a value captured before a role change (by `GrantRole` or `GrantOwnership`) no longer matches and the call fails with `MemberNotInRoom`, where the Java object, whose role `setRole` changed in place, would still be removed. The Java method is private and is reached only from `mockLeave(String)` with current members, where the two agree.
- `Muc.MockChatRoom.MockLeaveByName`: its contract gives the general effect (every member with the nickname removed, one Left dispatch each). The consequences under unique nicknames (no-op, or one member) are stated by `Muc.LeaveByNameEffect` about the same functions.
- The `RuntimeException` of the private `mockLeave` cannot reach `mockLeave(name)` in the sequential model: every member found in the snapshot is still present. So `MockLeaveByName` has no error result.
- Kicked events: the variant exists and dispatch handles it, but no modelled operation produces one.
- `getMembers` returns the live list, which a value sequence cannot represent.
- Stub methods with nothing to verify are not modelled: the presence-extension methods, the AV-moderation methods (including `isMemberAllowedToUnmute`, which always returns true), `getMeetingId`, `destroy`, `getUserRole` (always OWNER) and `toString`. `getRoomJid` is the constant `roomJid`. The XMPP provider is opaque and not modelled.
- Logging is not modelled, including the error logged when `grantRole` finds no member and when `grantOwnership` gets an invalid address.
- RestRooms: the JAX-RS annotations, `Response` building, the `JicofoServices` singleton and the `FocusManager` are replaced by the `Services` parameter. The write to the `domain` field is not modelled. `Domainpart.from` on the fixed domain is taken to succeed.
