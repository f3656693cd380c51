/** The request handlers of app/routes.py, each as a function from the
    tables before the request to the tables after it and the handler's
    outcome. A handler is one atomic step: its session is committed once,
    or not at all when it returns early. `caller` is `current_user`, `now`
    is `datetime.utcnow()`. Module Handlers runs these steps on a
    `Database`. */
module Routes {
  import opened Common
  import opened Models
  import opened Store
  import opened Playback
  import opened Forms
  import opened Uploads

  /** The chat line written when a member joins or leaves. */
  const JoinNotice: string := "进入了房间"
  const LeaveNotice: string := "离开了房间"

  /** Why a handler refused a request after looking at it; each is a flash
      message or an error reply in the source. */
  datatype Refusal =
    | InvalidForm
    | QuotaReached
    | NoSuchRoom
    | RoomClosed
    | OwnerCannotLeave
    | NotAMember
    | UnknownAction
    | NoMusicChosen
    | MusicUnavailable
    | UploadRejected(error: MusicError)
    | EmptyMessage

  datatype Outcome =
    | Done
    | Created(code: string)
    | Opened(memberCount: nat)
    | NotFound
    | Forbidden
    | Refused(why: Refusal)
    | Notified(notice: Option<string>)

  datatype Step = Step(tables: Tables, outcome: Outcome)

  /** `_attach_member`: nothing for a closed room or its owner; otherwise a
      membership and a join message when the user has none yet, and a
      participation record when asked for one or when the membership is new. */
  function Attach(t: Tables, room: Room, userId: nat, recordParticipation: bool, now: int): Tables
  {
    if !room.isActive || room.ownerId == userId then t
    else
      var created := FindMember(t.members, room.id, userId) == -1;
      var members := if created then
        t.members + [RoomMember(NextRowId(t.members, MemberRowId), room.id, userId, now)]
      else t.members;
      var messages := if created then
        t.messages + [RoomMessage(NextRowId(t.messages, MessageRowId), room.id, userId, JoinNotice, now)]
      else t.messages;
      var participations := if recordParticipation || created then
        t.participations + [RoomParticipationRecord(NextRowId(t.participations, ParticipationRowId), userId, room.code, now)]
      else t.participations;
      t.(members := members, messages := messages, participations := participations)
  }

  /** Attaching to a closed room, or attaching its owner, changes nothing. */
  lemma AttachRefusesClosedOrOwner(t: Tables, room: Room, userId: nat, record: bool, now: int)
    requires !room.isActive || room.ownerId == userId
    ensures Attach(t, room, userId, record, now) == t
  {
  }

  /** Otherwise the user is a member afterwards; a membership row and a join
      message are added exactly when the user was not yet a member, one of
      each; a participation record is added exactly when asked for or when
      the membership is new; no other table changes. */
  lemma AttachMembershipRule(t: Tables, room: Room, userId: nat, record: bool, now: int)
    requires room.isActive && room.ownerId != userId
    ensures var a := Attach(t, room, userId, record, now);
      var created := FindMember(t.members, room.id, userId) == -1;
      && FindMember(a.members, room.id, userId) >= 0
      && (created ==> a.members == t.members + [RoomMember(a.members[|t.members|].id, room.id, userId, now)])
      && (!created ==> a.members == t.members)
      && (created ==>
            (|a.messages| == |t.messages| + 1 && a.messages[..|t.messages|] == t.messages
             && a.messages[|t.messages|].content == JoinNotice
             && a.messages[|t.messages|].roomId == room.id && a.messages[|t.messages|].userId == userId))
      && (!created ==> a.messages == t.messages)
      && (record || created ==>
            (|a.participations| == |t.participations| + 1
             && a.participations[..|t.participations|] == t.participations
             && a.participations[|t.participations|].roomCode == room.code
             && a.participations[|t.participations|].userId == userId))
      && (!record && !created ==> a.participations == t.participations)
      && a.(members := t.members, messages := t.messages, participations := t.participations) == t
  {
    var a := Attach(t, room, userId, record, now);
    if FindMember(t.members, room.id, userId) == -1 {
      assert a.members[|t.members|].roomId == room.id && a.members[|t.members|].userId == userId;
      assert a.messages[..|t.messages|] == t.messages;
    }
    if record || FindMember(t.members, room.id, userId) == -1 {
      assert a.participations[..|t.participations|] == t.participations;
    }
  }

  /** Attaching twice adds nothing the first attach did not, apart from one
      more participation record when the second asks for one. */
  lemma AttachIdempotent(t: Tables, room: Room, userId: nat, now: int, later: int)
    ensures var once := Attach(t, room, userId, false, now);
      Attach(once, room, userId, false, later) == once
  {
    var once := Attach(t, room, userId, false, now);
    if room.isActive && room.ownerId != userId {
      AttachMembershipRule(t, room, userId, false, now);
    }
  }

  /** Attaching keeps every integrity rule: the membership is added only
      when the pair is new, and the join message's author is a user. */
  lemma AttachKeepsValid(t: Tables, room: Room, userId: nat, record: bool, now: int)
    requires Valid(t) && userId in UserIds(t.users) && room in t.rooms
    ensures Valid(Attach(t, room, userId, record, now))
  {
    if room.isActive && room.ownerId != userId && FindMember(t.members, room.id, userId) == -1 {
      AttachNewMemberKeepsValid(t, room, userId, record, now);
    } else if room.isActive && room.ownerId != userId && record {
      var p := RoomParticipationRecord(NextRowId(t.participations, ParticipationRowId), userId, room.code, now);
      AppendParticipationKeepsValid(t, p);
    }
  }

  lemma AttachNewMemberKeepsValid(t: Tables, room: Room, userId: nat, record: bool, now: int)
    requires Valid(t) && userId in UserIds(t.users) && room in t.rooms
    requires room.isActive && room.ownerId != userId && FindMember(t.members, room.id, userId) == -1
    ensures Valid(Attach(t, room, userId, record, now))
  {
    var m := RoomMember(NextRowId(t.members, MemberRowId), room.id, userId, now);
    var joined := RoomMessage(NextRowId(t.messages, MessageRowId), room.id, userId, JoinNotice, now);
    var p := RoomParticipationRecord(NextRowId(t.participations, ParticipationRowId), userId, room.code, now);
    RoomIdsHas(t.rooms, room);
    AppendJoinKeepsValid(t, m, joined, p);
  }

  /** `join_room`: administrators are refused with 403; the code must pass
      the form; the room must exist and be open; then the caller is
      attached with a participation record. */
  function JoinRoom(t: Tables, caller: User, code: string, now: int): Step
  {
    if caller.isAdmin then Step(t, Forbidden)
    else if !RoomCodeFieldValid(code) then Step(t, Refused(InvalidForm))
    else
      var k := FindRoom(t.rooms, code);
      if k == -1 then Step(t, Refused(NoSuchRoom))
      else if !t.rooms[k].isActive then Step(t, Refused(RoomClosed))
      else Step(Attach(t, t.rooms[k], caller.id, true, now), Done)
  }

  /** A join changes the tables only when it succeeds, and a successful
      join leaves the caller a member of the open room with that code (an
      owner joining their own room is let through but attached to nothing). */
  lemma JoinRoomRule(t: Tables, caller: User, code: string, now: int)
    ensures var s := JoinRoom(t, caller, code, now);
      && (s.outcome != Done ==> s.tables == t)
      && (s.outcome == Done <==>
            !caller.isAdmin && IsRoomCode(code) && FindRoom(t.rooms, code) >= 0
            && t.rooms[FindRoom(t.rooms, code)].isActive)
      && (s.outcome == Done && t.rooms[FindRoom(t.rooms, code)].ownerId != caller.id ==>
            FindMember(s.tables.members, t.rooms[FindRoom(t.rooms, code)].id, caller.id) >= 0)
  {
    RoomCodeFieldIsSixDigits(code);
    var k := FindRoom(t.rooms, code);
    if !caller.isAdmin && IsRoomCode(code) && k >= 0 && t.rooms[k].isActive && t.rooms[k].ownerId != caller.id {
      AttachMembershipRule(t, t.rooms[k], caller.id, true, now);
    }
  }

  /** `room_detail`: administrators get 403, an unknown code 404; a closed
      room is shown to its owner only; anyone else is attached without a
      participation record. The page shows the member count plus one for
      the owner. */
  function RoomDetail(t: Tables, caller: User, code: string, now: int): Step
  {
    if caller.isAdmin then Step(t, Forbidden)
    else
      var k := FindRoom(t.rooms, code);
      if k == -1 then Step(t, NotFound)
      else
        var room := t.rooms[k];
        if !room.isActive && room.ownerId != caller.id then Step(t, Refused(RoomClosed))
        else
          var after := if room.ownerId != caller.id then Attach(t, room, caller.id, false, now) else t;
          Step(after, Opened(MemberCount(after.members, room.id) + 1))
  }

  /** Opening a room's page makes a visitor a member, logs a participation
      only on the first visit, and repeated visits change nothing. */
  lemma RoomDetailRule(t: Tables, caller: User, code: string, now: int, later: int)
    requires !caller.isAdmin && FindRoom(t.rooms, code) >= 0
    requires t.rooms[FindRoom(t.rooms, code)].isActive
    requires t.rooms[FindRoom(t.rooms, code)].ownerId != caller.id
    ensures var room := t.rooms[FindRoom(t.rooms, code)];
      var s := RoomDetail(t, caller, code, now);
      && s.outcome.Opened?
      && FindMember(s.tables.members, room.id, caller.id) >= 0
      && (FindMember(t.members, room.id, caller.id) >= 0 ==> s.tables == t)
      && RoomDetail(s.tables, caller, code, later).tables == s.tables
  {
    var room := t.rooms[FindRoom(t.rooms, code)];
    var s := RoomDetail(t, caller, code, now);
    AttachMembershipRule(t, room, caller.id, false, now);
    AttachIdempotent(t, room, caller.id, now, later);
    assert s.tables.rooms == t.rooms;
  }

  /** `leave_room`: 404 for an unknown code; the owner cannot leave; a member
      leaves with a parting chat line; for anyone else nothing happens. */
  function LeaveRoom(t: Tables, caller: User, code: string, now: int): Step
  {
    var k := FindRoom(t.rooms, code);
    if k == -1 then Step(t, NotFound)
    else
      var room := t.rooms[k];
      if room.ownerId == caller.id then Step(t, Refused(OwnerCannotLeave))
      else
        var j := FindMember(t.members, room.id, caller.id);
        if j == -1 then Step(t, Refused(NotAMember))
        else
          var parting := RoomMessage(NextRowId(t.messages, MessageRowId), room.id, caller.id, LeaveNotice, now);
          Step(t.(messages := t.messages + [parting], members := RemoveAt(t.members, j)), Done)
  }

  /** A member who leaves is no longer a member, the one parting message is
      appended, and every other membership stays; the owner and non-members
      change nothing. */
  lemma LeaveRoomRule(t: Tables, caller: User, code: string, now: int)
    requires DistinctBy(t.members, MemberKey) && FindRoom(t.rooms, code) >= 0
    ensures var room := t.rooms[FindRoom(t.rooms, code)];
      var s := LeaveRoom(t, caller, code, now);
      && (room.ownerId == caller.id ==> s == Step(t, Refused(OwnerCannotLeave)))
      && (room.ownerId != caller.id && FindMember(t.members, room.id, caller.id) == -1 ==>
            s == Step(t, Refused(NotAMember)))
      && (room.ownerId != caller.id && FindMember(t.members, room.id, caller.id) >= 0 ==>
            && s.outcome == Done
            && FindMember(s.tables.members, room.id, caller.id) == -1
            && |s.tables.members| == |t.members| - 1
            && (forall m :: m in t.members && !(m.roomId == room.id && m.userId == caller.id) ==> m in s.tables.members)
            && |s.tables.messages| == |t.messages| + 1 && s.tables.messages[..|t.messages|] == t.messages
            && s.tables.messages[|t.messages|].content == LeaveNotice
            && s.tables.(messages := t.messages, members := t.members) == t)
  {
    var room := t.rooms[FindRoom(t.rooms, code)];
    var j := FindMember(t.members, room.id, caller.id);
    if room.ownerId != caller.id && j >= 0 {
      var s := LeaveRoom(t, caller, code, now);
      RemoveAtElements(t.members, j);
      forall i | 0 <= i < |s.tables.members|
        ensures !(s.tables.members[i].roomId == room.id && s.tables.members[i].userId == caller.id)
      {
        var i' := if i < j then i else i + 1;
        assert s.tables.members[i] == t.members[i'];
        assert MemberKey(t.members[i']) != MemberKey(t.members[j]);
      }
      assert s.tables.messages[..|t.messages|] == t.messages;
    }
  }

  lemma LeaveRoomKeepsValid(t: Tables, caller: User, code: string, now: int)
    requires Valid(t) && IsUser(t, caller)
    ensures Valid(LeaveRoom(t, caller, code, now).tables)
  {
    var s := LeaveRoom(t, caller, code, now);
    var k := FindRoom(t.rooms, code);
    if k >= 0 && t.rooms[k].ownerId != caller.id {
      var j := FindMember(t.members, t.rooms[k].id, caller.id);
      if j >= 0 {
        UserIdsHas(t.users, caller);
        RoomIdsHas(t.rooms, t.rooms[k]);
        LeaveMemberKeepsValid(t, j, RoomMessage(NextRowId(t.messages, MessageRowId), t.rooms[k].id, caller.id, LeaveNotice, now));
      }
    }
  }

  /** `room_availability`: 404 for an unknown code, 403 for anyone but the
      owner, a refusal for an action other than "open" and "close";
      otherwise the room's row is rewritten and committed. */
  function RoomAvailability(t: Tables, caller: User, code: string, action: string, now: int): Step
  {
    var k := FindRoom(t.rooms, code);
    if k == -1 then Step(t, NotFound)
    else if t.rooms[k].ownerId != caller.id then Step(t, Forbidden)
    else
      match SetAvailability(t.rooms[k], action)
      case None => Step(t, Refused(UnknownAction))
      case Some(r) => Step(t.(rooms := t.rooms[k := Commit(t.rooms[k], r, now)]), Done)
  }

  /** `delete_room`: 404 and 403 as for every owner action; otherwise the
      room's messages, memberships and playlist entries are deleted with
      the room itself. Participation records keep the code as plain text
      and stay. */
  function DeleteRoom(t: Tables, caller: User, code: string): Step
  {
    var k := FindRoom(t.rooms, code);
    if k == -1 then Step(t, NotFound)
    else if t.rooms[k].ownerId != caller.id then Step(t, Forbidden)
    else
      var id := t.rooms[k].id;
      Step(t.(messages := Filter(t.messages, NotMessageOf(id)),
              members := Filter(t.members, NotMemberOf(id)),
              playlist := Filter(t.playlist, NotEntryOf(id)),
              rooms := RemoveAt(t.rooms, k)), Done)
  }

  /** `toggle_playback`: 404 and 403 as for every owner action; otherwise
      the toggle's new record is committed, and a track switch logs one
      listen for the owner. An unplayable track is only a flash message:
      the reply is a success either way. */
  function TogglePlayback(t: Tables, caller: User, code: string, req: ToggleRequest, now: int): Step
  {
    var k := FindRoom(t.rooms, code);
    if k == -1 then Step(t, NotFound)
    else if t.rooms[k].ownerId != caller.id then Step(t, Forbidden)
    else
      var room := t.rooms[k];
      var e := Toggle(room, req, t.musics, now);
      var listens := match e.listened
        case Some(song) => t.listens + [ListenRecord(NextRowId(t.listens, ListenRowId), caller.id, song, now)]
        case None => t.listens;
      Step(t.(rooms := t.rooms[k := Commit(room, e.room, now)], listens := listens), Done)
  }

  /** `delete_from_playlist`: 404 and 403 as for every owner action; an
      entry is deleted only when the id names one and it belongs to this
      room. The reply is a success in every other case too. */
  function DeleteFromPlaylist(t: Tables, caller: User, code: string, itemId: Option<nat>): Step
  {
    var k := FindRoom(t.rooms, code);
    if k == -1 then Step(t, NotFound)
    else if t.rooms[k].ownerId != caller.id then Step(t, Forbidden)
    else
      match itemId
      case None => Step(t, Done)
      case Some(id) =>
        var j := FindEntry(t.playlist, id);
        if j >= 0 && t.playlist[j].roomId == t.rooms[k].id then
          Step(t.(playlist := RemoveAt(t.playlist, j)), Done)
        else Step(t, Done)
  }

  /** Every owner-only handler answers 404 for an unknown code and 403 to
      anyone but the owner, before it changes anything. */
  lemma OwnerGates(t: Tables, caller: User, code: string, action: string, req: ToggleRequest,
                   itemId: Option<nat>, now: int)
    ensures FindRoom(t.rooms, code) == -1 ==>
      && RoomAvailability(t, caller, code, action, now) == Step(t, NotFound)
      && DeleteRoom(t, caller, code) == Step(t, NotFound)
      && TogglePlayback(t, caller, code, req, now) == Step(t, NotFound)
      && DeleteFromPlaylist(t, caller, code, itemId) == Step(t, NotFound)
    ensures FindRoom(t.rooms, code) >= 0 && t.rooms[FindRoom(t.rooms, code)].ownerId != caller.id ==>
      && RoomAvailability(t, caller, code, action, now) == Step(t, Forbidden)
      && DeleteRoom(t, caller, code) == Step(t, Forbidden)
      && TogglePlayback(t, caller, code, req, now) == Step(t, Forbidden)
      && DeleteFromPlaylist(t, caller, code, itemId) == Step(t, Forbidden)
  {
  }

  /** For the owner: closing shuts and pauses the room but keeps its track
      and stored position, opening only reopens it, both restamp the row
      when it changes, any other action changes nothing; no other room and
      no other table changes. */
  lemma RoomAvailabilityRule(t: Tables, caller: User, code: string, action: string, now: int)
    requires FindRoom(t.rooms, code) >= 0 && t.rooms[FindRoom(t.rooms, code)].ownerId == caller.id
    ensures var k := FindRoom(t.rooms, code);
      var room, s := t.rooms[k], RoomAvailability(t, caller, code, action, now);
      && (action != "open" && action != "close" ==> s == Step(t, Refused(UnknownAction)))
      && (action == "open" || action == "close" ==>
            && s.outcome == Done
            && |s.tables.rooms| == |t.rooms|
            && (forall i :: 0 <= i < |t.rooms| && i != k ==> s.tables.rooms[i] == t.rooms[i])
            && s.tables.(rooms := t.rooms) == t)
      && (action == "close" ==>
            var r := s.tables.rooms[k];
            && !r.isActive && r.status == Paused
            && r.trackName == room.trackName && r.trackFile == room.trackFile && r.position == room.position
            && (room.isActive || room.status == Playing ==> r.updatedAt == Some(now)))
      && (action == "open" ==>
            var r := s.tables.rooms[k];
            && r.isActive && r.status == room.status && r.trackName == room.trackName
            && r.position == room.position
            && (!room.isActive ==> r.updatedAt == Some(now)))
  {
    var room := t.rooms[FindRoom(t.rooms, code)];
    CloseKeepsTrack(room, now);
    OpenOnlyActivates(room, now);
  }

  lemma RoomAvailabilityKeepsValid(t: Tables, caller: User, code: string, action: string, now: int)
    requires Valid(t)
    ensures Valid(RoomAvailability(t, caller, code, action, now).tables)
  {
    var k := FindRoom(t.rooms, code);
    if k >= 0 && t.rooms[k].ownerId == caller.id && SetAvailability(t.rooms[k], action).Some? {
      var room := t.rooms[k];
      AvailabilityKeepsRoomWellFormed(room, action, now);
      RoomUpdateKeepsValid(t, k, Commit(room, SetAvailability(room, action).value, now));
    }
  }

  /** Deleting a room removes it and exactly the messages, memberships and
      playlist entries that point at it; every other row stays, and the
      code no longer finds a room. */
  lemma DeleteRoomCascade(t: Tables, caller: User, code: string)
    requires Valid(t)
    requires FindRoom(t.rooms, code) >= 0 && t.rooms[FindRoom(t.rooms, code)].ownerId == caller.id
    ensures var room, s := t.rooms[FindRoom(t.rooms, code)], DeleteRoom(t, caller, code);
      && s.outcome == Done
      && FindRoom(s.tables.rooms, code) == -1
      && (forall r :: r in s.tables.rooms <==> r in t.rooms && r != room)
      && (forall m :: m in s.tables.messages <==> m in t.messages && m.roomId != room.id)
      && (forall m :: m in s.tables.members <==> m in t.members && m.roomId != room.id)
      && (forall e :: e in s.tables.playlist <==> e in t.playlist && e.roomId != room.id)
      && s.tables.(rooms := t.rooms, messages := t.messages, members := t.members, playlist := t.playlist) == t
  {
    var k := FindRoom(t.rooms, code);
    var room := t.rooms[k];
    var s := DeleteRoom(t, caller, code);
    var rest := RemoveAt(t.rooms, k);
    forall i | 0 <= i < |rest| ensures rest[i].code != code {
      var i' := if i < k then i else i + 1;
      assert rest[i] == t.rooms[i'] && RoomCodeKey(t.rooms[i']) != RoomCodeKey(t.rooms[k]);
    }
    RemoveAtElements(t.rooms, k);
    assert forall m :: NotMessageOf(room.id)(m) <==> m.roomId != room.id;
    assert forall m :: NotMemberOf(room.id)(m) <==> m.roomId != room.id;
    assert forall e :: NotEntryOf(room.id)(e) <==> e.roomId != room.id;
  }

  lemma DeleteRoomKeepsValid(t: Tables, caller: User, code: string)
    requires Valid(t)
    ensures Valid(DeleteRoom(t, caller, code).tables)
  {
    var k := FindRoom(t.rooms, code);
    if k >= 0 && t.rooms[k].ownerId == caller.id {
      var room := t.rooms[k];
      var s := DeleteRoom(t, caller, code).tables;
      DeleteRoomCascade(t, caller, code);
      DistinctByRemoveAt(t.rooms, k, RoomCodeKey);
      DistinctByRemoveAt(t.rooms, k, RoomRowId);
      DistinctByFilter(t.members, NotMemberOf(room.id), MemberKey);
      DistinctByFilter(t.members, NotMemberOf(room.id), MemberRowId);
      DistinctByFilter(t.messages, NotMessageOf(room.id), MessageRowId);
      DistinctByFilter(t.playlist, NotEntryOf(room.id), EntryRowId);
      forall u: nat ensures OwnedCount(s.rooms, u) <= MaxOwnedRooms {
        FilterRemoveAt(t.rooms, k, OwnedBy(u));
        assert OwnedCount(t.rooms, u) <= MaxOwnedRooms;
      }
      assert RoomsValid(s.rooms) by {
        forall i | 0 <= i < |s.rooms| ensures IsRoomCode(s.rooms[i].code) && RoomWellFormed(s.rooms[i]) {
          assert s.rooms[i] == t.rooms[if i < k then i else i + 1];
        }
      }
      forall id | id in RoomIds(t.rooms) && id != room.id ensures id in RoomIds(s.rooms) {
        var r :| r in t.rooms && r.id == id;
        assert r in s.rooms;
      }
    }
  }

  /** The first draw no room has: `_generate_unique_room_code`, which draws
      until a draw is free. The draws are given in order. */
  function IsFreeCode(rooms: seq<Room>): string -> bool
  {
    (c: string) => FindRoom(rooms, c) == -1
  }

  ghost predicate SomeDrawFree(rooms: seq<Room>, draws: seq<string>)
  {
    exists i :: 0 <= i < |draws| && FindRoom(rooms, draws[i]) == -1
  }

  function FirstFreeDraw(rooms: seq<Room>, draws: seq<string>): (i: nat)
    requires SomeDrawFree(rooms, draws)
    ensures i < |draws| && FindRoom(rooms, draws[i]) == -1
    ensures forall j :: 0 <= j < i ==> FindRoom(rooms, draws[j]) >= 0
  {
    var i := FirstIndex(draws, IsFreeCode(rooms));
    assert forall j :: 0 <= j < |draws| ==> (IsFreeCode(rooms)(draws[j]) <==> FindRoom(rooms, draws[j]) == -1);
    i
  }

  /** The checks `create_room` passes before it draws a code. */
  predicate MayCreateRoom(t: Tables, caller: User, name: string)
  {
    !caller.isAdmin && RoomNameValid(name) && OwnedCount(t.rooms, caller.id) < MaxOwnedRooms
  }

  /** `create_room`: 403 for administrators, a refusal for an invalid name or
      for an owner of three rooms already; otherwise a fresh open room with
      the first free drawn code, and a participation record for the owner. */
  function CreateRoom(t: Tables, caller: User, name: string, draws: seq<string>, now: int): Step
    requires MayCreateRoom(t, caller, name) ==> SomeDrawFree(t.rooms, draws)
  {
    if caller.isAdmin then Step(t, Forbidden)
    else if !RoomNameValid(name) then Step(t, Refused(InvalidForm))
    else if OwnedCount(t.rooms, caller.id) >= MaxOwnedRooms then Step(t, Refused(QuotaReached))
    else
      var code := draws[FirstFreeDraw(t.rooms, draws)];
      var room := NewRoom(NextRowId(t.rooms, RoomRowId), caller.id, name, code, now);
      var record := RoomParticipationRecord(NextRowId(t.participations, ParticipationRowId), caller.id, code, now);
      Step(t.(rooms := t.rooms + [room], participations := t.participations + [record]), Created(code))
  }

  /** A room is created exactly when the checks pass, and then the caller
      owns one more room and nobody else's count changes; a refused request
      changes nothing, and the fourth room is always refused. */
  lemma CreateRoomQuota(t: Tables, caller: User, name: string, draws: seq<string>, now: int)
    requires MayCreateRoom(t, caller, name) ==> SomeDrawFree(t.rooms, draws)
    ensures var s := CreateRoom(t, caller, name, draws, now);
      && (s.outcome.Created? <==> MayCreateRoom(t, caller, name))
      && (!s.outcome.Created? ==> s.tables == t)
      && (!caller.isAdmin && RoomNameValid(name) && OwnedCount(t.rooms, caller.id) >= MaxOwnedRooms ==>
            s.outcome == Refused(QuotaReached))
      && (s.outcome.Created? ==>
            && OwnedCount(s.tables.rooms, caller.id) == OwnedCount(t.rooms, caller.id) + 1
            && OwnedCount(s.tables.rooms, caller.id) <= MaxOwnedRooms
            && forall u: nat :: u != caller.id ==> OwnedCount(s.tables.rooms, u) == OwnedCount(t.rooms, u))
  {
    var s := CreateRoom(t, caller, name, draws, now);
    if MayCreateRoom(t, caller, name) {
      var room := s.tables.rooms[|t.rooms|];
      assert s.tables.rooms == t.rooms + [room];
      forall u: nat ensures OwnedCount(s.tables.rooms, u) == OwnedCount(t.rooms, u) + (if u == caller.id then 1 else 0) {
        FilterAppend(t.rooms, room, OwnedBy(u));
      }
    }
  }

  /** The created room is open, paused, has no track, belongs to the
      caller, carries the first free draw as its code and is found by it;
      one participation record names that code; nothing else changes. */
  lemma CreateRoomRule(t: Tables, caller: User, name: string, draws: seq<string>, now: int)
    requires MayCreateRoom(t, caller, name) && SomeDrawFree(t.rooms, draws)
    ensures var s, i := CreateRoom(t, caller, name, draws, now), FirstFreeDraw(t.rooms, draws);
      && s.outcome == Created(draws[i])
      && FindRoom(t.rooms, draws[i]) == -1
      && (forall j :: 0 <= j < i ==> FindRoom(t.rooms, draws[j]) >= 0)
      && |s.tables.rooms| == |t.rooms| + 1 && s.tables.rooms[..|t.rooms|] == t.rooms
      && FindRoom(s.tables.rooms, draws[i]) == |t.rooms|
      && (var r := s.tables.rooms[|t.rooms|];
          && r.ownerId == caller.id && r.name == name && r.code == draws[i]
          && r.isActive && r.status == Paused && r.trackName == None && r.position == 0.0
          && (forall j :: 0 <= j < |t.rooms| ==> r.id != t.rooms[j].id))
      && |s.tables.participations| == |t.participations| + 1
      && s.tables.participations[|t.participations|].roomCode == draws[i]
      && s.tables.participations[|t.participations|].userId == caller.id
      && s.tables.(rooms := t.rooms, participations := t.participations) == t
  {
    var room, record := CreateRoomShape(t, caller, name, draws, now);
    assert (t.rooms + [room])[..|t.rooms|] == t.rooms;
    FoundAtEnd(t.rooms, room, room.code);
  }

  /** A code no room has is found at a room appended with it. */
  lemma FoundAtEnd(rooms: seq<Room>, r: Room, code: string)
    requires FindRoom(rooms, code) == -1 && r.code == code
    ensures FindRoom(rooms + [r], code) == |rooms|
  {
    var s := rooms + [r];
    assert s[|rooms|].code == code;
    forall j | 0 <= j < |rooms| ensures s[j].code != code {
      assert s[j] == rooms[j];
    }
  }

  lemma CreateRoomKeepsValid(t: Tables, caller: User, name: string, draws: seq<string>, now: int)
    requires Valid(t) && IsUser(t, caller) && (forall i :: 0 <= i < |draws| ==> IsRoomCode(draws[i]))
    requires MayCreateRoom(t, caller, name) ==> SomeDrawFree(t.rooms, draws)
    ensures Valid(CreateRoom(t, caller, name, draws, now).tables)
  {
    if MayCreateRoom(t, caller, name) {
      var room, record := CreateRoomShape(t, caller, name, draws, now);
      UserIdsHas(t.users, caller);
      AppendRoomKeepsValid(t, room, record);
    }
  }

  /** The room and the participation record `CreateRoom` appends, as values. */
  lemma CreateRoomShape(t: Tables, caller: User, name: string, draws: seq<string>, now: int)
    returns (room: Room, record: RoomParticipationRecord)
    requires MayCreateRoom(t, caller, name) && SomeDrawFree(t.rooms, draws)
    ensures CreateRoom(t, caller, name, draws, now).tables
            == t.(rooms := t.rooms + [room], participations := t.participations + [record])
    ensures room.code == draws[FirstFreeDraw(t.rooms, draws)]
    ensures RoomWellFormed(room) && FindRoom(t.rooms, room.code) == -1
    ensures forall j :: 0 <= j < |t.rooms| ==> t.rooms[j].id < room.id
    ensures room.ownerId == caller.id && record.userId == caller.id && record.roomCode == room.code
    ensures forall j :: 0 <= j < |t.participations| ==> t.participations[j].id < record.id
  {
    var i := FirstFreeDraw(t.rooms, draws);
    room := NewRoom(NextRowId(t.rooms, RoomRowId), caller.id, name, draws[i], now);
    record := RoomParticipationRecord(NextRowId(t.participations, ParticipationRowId), caller.id, draws[i], now);
  }

  /** Adding a well-formed room with a fresh code and a fresh key for an
      existing owner of fewer than three rooms, with the owner's
      participation record, keeps every rule. */
  lemma AppendRoomKeepsValid(t: Tables, room: Room, p: RoomParticipationRecord)
    requires Valid(t) && IsRoomCode(room.code) && RoomWellFormed(room)
    requires room.ownerId in UserIds(t.users) && p.userId == room.ownerId
    requires FindRoom(t.rooms, room.code) == -1
    requires forall j :: 0 <= j < |t.rooms| ==> t.rooms[j].id < room.id
    requires forall j :: 0 <= j < |t.participations| ==> t.participations[j].id < p.id
    requires OwnedCount(t.rooms, room.ownerId) < MaxOwnedRooms
    ensures Valid(t.(rooms := t.rooms + [room], participations := t.participations + [p]))
  {
    DistinctByAppend(t.participations, p, ParticipationRowId);
    var rooms := t.rooms + [room];
    assert QuotaValid(rooms) by {
      forall u: nat ensures OwnedCount(rooms, u) <= MaxOwnedRooms {
        FilterAppend(t.rooms, room, OwnedBy(u));
        assert OwnedCount(t.rooms, u) <= MaxOwnedRooms;
      }
    }
    AppendRoomKeepsRoomsValid(t.rooms, room);
    RoomIdsGrow(t.rooms, room);
  }

  lemma RoomIdsGrow(rooms: seq<Room>, room: Room)
    ensures RoomIds(rooms) <= RoomIds(rooms + [room])
  {
    forall id | id in RoomIds(rooms) ensures id in RoomIds(rooms + [room]) {
      var r :| r in rooms && r.id == id;
      assert r in rooms + [room];
    }
  }

  /** A well-formed room with a fresh code and a fresh key keeps the rules
      on rooms. */
  lemma AppendRoomKeepsRoomsValid(rooms: seq<Room>, room: Room)
    requires RoomsValid(rooms) && IsRoomCode(room.code) && RoomWellFormed(room)
    requires FindRoom(rooms, room.code) == -1
    requires forall j :: 0 <= j < |rooms| ==> rooms[j].id < room.id
    ensures RoomsValid(rooms + [room])
  {
    DistinctByAppend(rooms, room, RoomCodeKey);
    DistinctByAppend(rooms, room, RoomRowId);
  }

  function OwnApproved(id: nat, userId: nat): Music -> bool
  {
    (m: Music) => m.id == id && m.userId == userId && m.status == Approved
  }

  /** `add_to_playlist`: 404 for an unknown code, a refusal without a music
      id or when the id is not an approved track of the caller's; otherwise
      one entry is appended. Neither ownership of the room, nor membership,
      nor the room being open is checked, and a track may be listed twice. */
  function AddToPlaylist(t: Tables, caller: User, code: string, musicId: Option<nat>, now: int): Step
  {
    var k := FindRoom(t.rooms, code);
    if k == -1 then Step(t, NotFound)
    else
      match musicId
      case None => Step(t, Refused(NoMusicChosen))
      case Some(id) =>
        if FirstIndex(t.musics, OwnApproved(id, caller.id)) == -1 then Step(t, Refused(MusicUnavailable))
        else
          var entry := RoomPlaylistEntry(NextRowId(t.playlist, EntryRowId), t.rooms[k].id, id, now);
          Step(t.(playlist := t.playlist + [entry]), Done)
  }

  /** An entry is added exactly when the room exists and the caller owns an
      approved track with that id; whoever owns the room and whether it is
      open make no difference. Only the playlist changes, by one entry. */
  lemma AddToPlaylistRule(t: Tables, caller: User, code: string, musicId: Option<nat>, now: int)
    ensures var s := AddToPlaylist(t, caller, code, musicId, now);
      && (s.outcome == Done <==>
            FindRoom(t.rooms, code) >= 0 && musicId.Some? &&
            exists m :: m in t.musics && m.id == musicId.value && m.userId == caller.id && m.status == Approved)
      && (s.outcome != Done ==> s.tables == t)
      && (s.outcome == Done ==>
            && |s.tables.playlist| == |t.playlist| + 1 && s.tables.playlist[..|t.playlist|] == t.playlist
            && s.tables.playlist[|t.playlist|].roomId == t.rooms[FindRoom(t.rooms, code)].id
            && s.tables.playlist[|t.playlist|].musicId == musicId.value
            && s.tables.(playlist := t.playlist) == t)
  {
    var s := AddToPlaylist(t, caller, code, musicId, now);
    if musicId.Some? {
      var p := OwnApproved(musicId.value, caller.id);
      var j := FirstIndex(t.musics, p);
      if j >= 0 {
        assert t.musics[j] in t.musics;
      } else {
        FirstIndexNone(t.musics, p);
        assert forall m :: p(m) <==> m.id == musicId.value && m.userId == caller.id && m.status == Approved;
      }
    }
    if s.outcome == Done {
      assert s.tables.playlist[..|t.playlist|] == t.playlist;
    }
  }

  lemma AddToPlaylistKeepsValid(t: Tables, caller: User, code: string, musicId: Option<nat>, now: int)
    requires Valid(t)
    ensures Valid(AddToPlaylist(t, caller, code, musicId, now).tables)
  {
    var s := AddToPlaylist(t, caller, code, musicId, now);
    if s.outcome == Done {
      var k := FindRoom(t.rooms, code);
      var j := FirstIndex(t.musics, OwnApproved(musicId.value, caller.id));
      var entry := s.tables.playlist[|t.playlist|];
      assert s.tables.playlist == t.playlist + [entry];
      DistinctByAppend(t.playlist, entry, EntryRowId);
      assert t.musics[j] in t.musics && t.musics[j].id == entry.musicId;
      RoomIdsHas(t.rooms, t.rooms[k]);
    }
  }

  /** Deleting an entry removes exactly the entry with that id when it lists
      a track in this room; an entry of another room, an unknown id or no id
      changes nothing; the reply is a success every time. */
  lemma DeleteFromPlaylistRule(t: Tables, caller: User, code: string, itemId: Option<nat>)
    requires DistinctBy(t.playlist, EntryRowId)
    requires FindRoom(t.rooms, code) >= 0 && t.rooms[FindRoom(t.rooms, code)].ownerId == caller.id
    ensures var room, s := t.rooms[FindRoom(t.rooms, code)], DeleteFromPlaylist(t, caller, code, itemId);
      var hit := itemId.Some? && exists e :: e in t.playlist && e.id == itemId.value && e.roomId == room.id;
      && s.outcome == Done
      && s.tables.(playlist := t.playlist) == t
      && |s.tables.playlist| == |t.playlist| - (if hit then 1 else 0)
      && (forall e :: e in s.tables.playlist <==>
            e in t.playlist && !(itemId.Some? && e.id == itemId.value && e.roomId == room.id))
  {
    var room := t.rooms[FindRoom(t.rooms, code)];
    var s := DeleteFromPlaylist(t, caller, code, itemId);
    if itemId.Some? {
      var j := FindEntry(t.playlist, itemId.value);
      if j >= 0 && t.playlist[j].roomId == room.id {
        RemoveAtElements(t.playlist, j);
        assert t.playlist[j] in t.playlist;
        forall e | e in s.tables.playlist ensures !(e.id == itemId.value && e.roomId == room.id) {
          var i :| 0 <= i < |s.tables.playlist| && s.tables.playlist[i] == e;
          var i' := if i < j then i else i + 1;
          assert e == t.playlist[i'] && EntryRowId(t.playlist[i']) != EntryRowId(t.playlist[j]);
        }
      } else {
        forall e | e in t.playlist ensures !(e.id == itemId.value && e.roomId == room.id) {
          var i :| 0 <= i < |t.playlist| && t.playlist[i] == e;
          if j >= 0 && e.id == itemId.value {
            assert EntryRowId(t.playlist[i]) == EntryRowId(t.playlist[j]);
          }
        }
      }
    }
  }

  lemma DeleteFromPlaylistKeepsValid(t: Tables, caller: User, code: string, itemId: Option<nat>)
    requires Valid(t)
    ensures Valid(DeleteFromPlaylist(t, caller, code, itemId).tables)
  {
    var k := FindRoom(t.rooms, code);
    if k >= 0 && t.rooms[k].ownerId == caller.id && itemId.Some? {
      var j := FindEntry(t.playlist, itemId.value);
      if j >= 0 && t.playlist[j].roomId == t.rooms[k].id {
        DistinctByRemoveAt(t.playlist, j, EntryRowId);
        RemoveAtElements(t.playlist, j);
      }
    }
  }

  /** `send_message`: 404 for an unknown code; the content is stripped and a
      blank one is refused with 400; otherwise one message is appended. No
      membership, ownership or open-room check is made. */
  function SendMessage(t: Tables, caller: User, code: string, content: string, now: int): Step
  {
    var k := FindRoom(t.rooms, code);
    if k == -1 then Step(t, NotFound)
    else
      var text := Strip(content);
      if text == [] then Step(t, Refused(EmptyMessage))
      else
        var message := RoomMessage(NextRowId(t.messages, MessageRowId), t.rooms[k].id, caller.id, text, now);
        Step(t.(messages := t.messages + [message]), Done)
  }

  /** Anyone may post to any existing room, open or closed, member or not;
      a message is stored exactly when its content is not blank, stripped of
      surrounding whitespace, and nothing else changes. */
  lemma SendMessageRule(t: Tables, caller: User, code: string, content: string, now: int)
    ensures var s := SendMessage(t, caller, code, content, now);
      && (s.outcome == Done <==> FindRoom(t.rooms, code) >= 0 && !IsBlank(content))
      && (s.outcome != Done ==> s.tables == t)
      && (s.outcome == Done ==>
            var m := s.tables.messages[|t.messages|];
            && s.tables.messages == t.messages + [m]
            && m.roomId == t.rooms[FindRoom(t.rooms, code)].id && m.userId == caller.id
            && m.content == Strip(content) && m.content != [] && m.createdAt == now
            && (forall i :: 0 <= i < |t.messages| ==> t.messages[i].id < m.id)
            && s.tables.(messages := t.messages) == t)
  {
  }

  lemma SendMessageKeepsValid(t: Tables, caller: User, code: string, content: string, now: int)
    requires Valid(t) && IsUser(t, caller)
    ensures Valid(SendMessage(t, caller, code, content, now).tables)
  {
    var k := FindRoom(t.rooms, code);
    if k >= 0 && Strip(content) != [] {
      UserIdsHas(t.users, caller);
      RoomIdsHas(t.rooms, t.rooms[k]);
      AppendMessageKeepsValid(t, RoomMessage(NextRowId(t.messages, MessageRowId), t.rooms[k].id, caller.id, Strip(content), now));
    }
  }

  /** For the owner, a toggle commits the record `Toggle` computes, keeps
      every other room, and logs one listen, for the owner and under the
      track's title, exactly when an approved track was switched to. */
  lemma TogglePlaybackRule(t: Tables, caller: User, code: string, req: ToggleRequest, now: int)
    requires FindRoom(t.rooms, code) >= 0 && t.rooms[FindRoom(t.rooms, code)].ownerId == caller.id
    ensures var k := FindRoom(t.rooms, code);
      var e, s := Toggle(t.rooms[k], req, t.musics, now), TogglePlayback(t, caller, code, req, now);
      && s.outcome == Done
      && s.tables.rooms == t.rooms[k := e.room]
      && (e.listened.Some? <==>
            req.musicId.Some? && FindMusic(t.musics, req.musicId.value) >= 0
            && t.musics[FindMusic(t.musics, req.musicId.value)].status == Approved)
      && (e.listened.Some? ==>
            && |s.tables.listens| == |t.listens| + 1 && s.tables.listens[..|t.listens|] == t.listens
            && s.tables.listens[|t.listens|].userId == caller.id
            && s.tables.listens[|t.listens|].songName == t.musics[FindMusic(t.musics, req.musicId.value)].title)
      && (e.listened.None? ==> s.tables.listens == t.listens)
      && s.tables.(rooms := t.rooms, listens := t.listens) == t
  {
    var k := FindRoom(t.rooms, code);
    var s := TogglePlayback(t, caller, code, req, now);
    CommitOfToggle(t.rooms[k], req, t.musics, now);
    assert s.tables.listens[..|t.listens|] == t.listens;
  }

  lemma TogglePlaybackKeepsValid(t: Tables, caller: User, code: string, req: ToggleRequest, now: int)
    requires Valid(t)
    ensures Valid(TogglePlayback(t, caller, code, req, now).tables)
  {
    var k := FindRoom(t.rooms, code);
    if k >= 0 && t.rooms[k].ownerId == caller.id {
      var room := t.rooms[k];
      var e := Toggle(room, req, t.musics, now);
      ToggleKeepsRoomWellFormed(room, req, t.musics, now);
      CommitOfToggle(room, req, t.musics, now);
      RoomUpdateKeepsValid(t, k, e.room);
      if e.listened.Some? {
        assert room in t.rooms;
        ListenKeepsValid(t.(rooms := t.rooms[k := e.room]), caller.id, e.listened.value, now);
      }
    }
  }

  /** Logging a listen for an existing user keeps every rule. */
  lemma ListenKeepsValid(t: Tables, userId: nat, song: string, now: int)
    requires Valid(t) && userId in UserIds(t.users)
    ensures Valid(t.(listens := t.listens + [ListenRecord(NextRowId(t.listens, ListenRowId), userId, song, now)]))
  {
    AppendListenKeepsValid(t, ListenRecord(NextRowId(t.listens, ListenRowId), userId, song, now));
  }

  function OwnMusic(id: nat, userId: nat): Music -> bool
  {
    (m: Music) => m.id == id && m.userId == userId
  }

  /** `delete_music`: 403 for administrators, 404 unless the caller uploaded
      a track with that id; otherwise every playlist entry listing it, in
      any room, is deleted with it. */
  function DeleteMusic(t: Tables, caller: User, musicId: nat): Step
  {
    if caller.isAdmin then Step(t, Forbidden)
    else
      var j := FirstIndex(t.musics, OwnMusic(musicId, caller.id));
      if j == -1 then Step(t, NotFound)
      else Step(t.(playlist := Filter(t.playlist, NotEntryFor(musicId)), musics := RemoveAt(t.musics, j)), Done)
  }

  /** A track is deleted exactly when the caller uploaded it; afterwards no
      track has its id and no playlist entry in any room lists it, while
      every other track and entry stays. */
  lemma DeleteMusicCascade(t: Tables, caller: User, musicId: nat)
    requires DistinctBy(t.musics, MusicRowId)
    ensures var s := DeleteMusic(t, caller, musicId);
      && (s.outcome == Done <==>
            !caller.isAdmin && exists m :: m in t.musics && m.id == musicId && m.userId == caller.id)
      && (s.outcome != Done ==> s.tables == t)
      && (s.outcome == Done ==>
            && FindMusic(s.tables.musics, musicId) == -1
            && (forall m :: m in s.tables.musics <==> m in t.musics && m.id != musicId)
            && (forall e :: e in s.tables.playlist <==> e in t.playlist && e.musicId != musicId)
            && s.tables.(playlist := t.playlist, musics := t.musics) == t)
  {
    if !caller.isAdmin {
      var p := OwnMusic(musicId, caller.id);
      var j := FirstIndex(t.musics, p);
      if j >= 0 {
        assert t.musics[j] in t.musics;
        RemoveUniqueMusic(t.musics, j);
        assert forall e :: NotEntryFor(musicId)(e) <==> e.musicId != musicId;
      } else {
        FirstIndexNone(t.musics, p);
        assert forall m :: p(m) <==> m.id == musicId && m.userId == caller.id;
      }
    }
  }

  /** Removing the row of a unique key removes every row with that key and
      no other row. */
  lemma RemoveUniqueMusic(musics: seq<Music>, j: nat)
    requires j < |musics| && DistinctBy(musics, MusicRowId)
    ensures var rest := RemoveAt(musics, j);
      && FindMusic(rest, musics[j].id) == -1
      && forall m :: m in rest <==> m in musics && m.id != musics[j].id
  {
    var rest := RemoveAt(musics, j);
    RemoveAtElements(musics, j);
    forall i | 0 <= i < |rest| ensures rest[i].id != musics[j].id {
      var i' := if i < j then i else i + 1;
      assert rest[i] == musics[i'] && MusicRowId(musics[i']) != MusicRowId(musics[j]);
    }
  }

  lemma DeleteMusicKeepsValid(t: Tables, caller: User, musicId: nat)
    requires Valid(t)
    ensures Valid(DeleteMusic(t, caller, musicId).tables)
  {
    var s := DeleteMusic(t, caller, musicId);
    if s.outcome == Done {
      var j := FirstIndex(t.musics, OwnMusic(musicId, caller.id));
      DeleteMusicCascade(t, caller, musicId);
      DistinctByRemoveAt(t.musics, j, MusicRowId);
      DistinctByFilter(t.playlist, NotEntryFor(musicId), EntryRowId);
      forall e | e in s.tables.playlist ensures e.musicId in MusicIds(s.tables.musics) {
        var m :| m in t.musics && m.id == e.musicId;
        assert m in s.tables.musics;
      }
    }
  }

  const UntitledSong: string := "未命名歌曲"

  /** The title an upload is stored under: the stripped form title, else
      the stem of the client's file name, else a fixed placeholder. */
  function UploadTitle(title: string, filename: string): (r: string)
    ensures r != []
    ensures !IsBlank(title) ==> r == Strip(title)
  {
    var stripped := Strip(title);
    if stripped != [] then stripped
    else
      var stem := Stem(PathName(filename));
      if stem != [] then stem else UntitledSong
  }

  /** The upload handler of the `music` page: 403 for administrators; the
      form needs a title of at most 64 characters and a file (so the
      handler's own missing-file branch never fires); the file must pass
      `save_music`; then a pending track is added for the caller. */
  function UploadMusic(t: Tables, caller: User, title: string, file: Option<Upload>, stamp: string, now: int): Step
  {
    if caller.isAdmin then Step(t, Forbidden)
    else if !MusicTitleValid(title) || !Present(file) then Step(t, Refused(InvalidForm))
    else
      match SaveMusic(file, stamp)
      case Failed(error) => Step(t, Refused(UploadRejected(error)))
      case Saved(stored) =>
        var m := NewMusic(NextRowId(t.musics, MusicRowId), caller.id, UploadTitle(title, file.value.filename),
                          file.value.filename, stored, now);
        Step(t.(musics := t.musics + [m]), Done)
  }

  /** A track is added exactly when the form and `save_music` accept the
      upload; it waits for moderation, belongs to the caller, is titled by
      the stripped form title, and is stored under a name that starts with
      the upload stamp. Nothing else changes. */
  lemma UploadMusicRule(t: Tables, caller: User, title: string, file: Option<Upload>, stamp: string, now: int)
    ensures var s := UploadMusic(t, caller, title, file, stamp, now);
      && (s.outcome == Done <==>
            !caller.isAdmin && MusicTitleValid(title) && Present(file) && SaveMusic(file, stamp).Saved?)
      && (s.outcome != Done ==> s.tables == t)
      && (s.outcome == Done ==>
            var m := s.tables.musics[|t.musics|];
            && s.tables.musics == t.musics + [m]
            && m.status == Pending && m.rejectionReason == None && m.userId == caller.id
            && m.title == Strip(title) && m.storedFilename == SaveMusic(file, stamp).name
            && StartsWith(m.storedFilename, "music_" + stamp + "_")
            && (forall i :: 0 <= i < |t.musics| ==> t.musics[i].id < m.id)
            && s.tables.(musics := t.musics) == t)
  {
  }

  lemma UploadMusicKeepsValid(t: Tables, caller: User, title: string, file: Option<Upload>, stamp: string, now: int)
    requires Valid(t) && IsUser(t, caller)
    ensures Valid(UploadMusic(t, caller, title, file, stamp, now).tables)
  {
    UploadMusicRule(t, caller, title, file, stamp, now);
    var s := UploadMusic(t, caller, title, file, stamp, now);
    if s.outcome == Done {
      UserIdsHas(t.users, caller);
      AppendMusicKeepsValid(t, s.tables.musics[|t.musics|]);
    }
  }

  /** The notice part of `dashboard`: an administrator is sent on to the
      admin dashboard first; otherwise a pending notice is shown once and
      cleared in the same request. */
  function TakeNotice(t: Tables, caller: User): Step
  {
    if caller.isAdmin then Step(t, Notified(None))
    else
      var k := FindUser(t.users, caller.id);
      if k == -1 then Step(t, Notified(None))
      else
        match t.users[k].notification
        case Some(n) =>
          if n != "" then Step(t.(users := t.users[k := t.users[k].(notification := None)]), Notified(Some(n)))
          else Step(t, Notified(None))
        case None => Step(t, Notified(None))
  }

  /** A notice is shown once: the visit that shows it clears it, changing no
      other field and no other user, and the next visit shows nothing and
      changes nothing. */
  lemma TakeNoticeOneShot(t: Tables, caller: User)
    ensures var first := TakeNotice(t, caller);
      var second := TakeNotice(first.tables, caller);
      && second == Step(first.tables, Notified(None))
      && first.tables.(users := t.users) == t
      && |first.tables.users| == |t.users|
      && (forall i :: 0 <= i < |t.users| ==>
            first.tables.users[i] == t.users[i].(notification := first.tables.users[i].notification))
      && (first.outcome.notice.Some? <==>
            !caller.isAdmin && FindUser(t.users, caller.id) >= 0
            && t.users[FindUser(t.users, caller.id)].notification.Some?
            && t.users[FindUser(t.users, caller.id)].notification.value != "")
      && (first.outcome.notice.Some? ==>
            first.outcome.notice == t.users[FindUser(t.users, caller.id)].notification)
  {
    var first := TakeNotice(t, caller);
    var k := FindUser(t.users, caller.id);
    if first.outcome.notice.Some? {
      FindUserUpdate(t.users, k, t.users[k].(notification := None), caller.id);
    }
  }

  lemma TakeNoticeKeepsValid(t: Tables, caller: User)
    requires Valid(t)
    ensures Valid(TakeNotice(t, caller).tables)
  {
    if TakeNotice(t, caller).outcome.notice.Some? {
      var k := FindUser(t.users, caller.id);
      UserUpdateKeepsValid(t, k, t.users[k].(notification := None));
    }
  }

  /** How many of a room's latest chat messages a poll returns. */
  const MessageWindow: nat := 50

  /** One chat line as `room_state` sends it. `createdAt` is the message's
      instant; the source formats it as hours and minutes. */
  datatype MessageView = MessageView(id: nat, authorName: string, authorAvatar: string, createdAt: int, content: string)

  /** One playlist entry as `room_state` sends it. */
  datatype EntryView = EntryView(id: nat, musicId: nat, title: string)

  /** The body of a `room_state` reply. */
  datatype RoomView = RoomView(
    status: PlaybackStatus,
    trackName: Option<string>,
    trackFile: Option<string>,
    position: real,
    isActive: bool,
    updatedAt: Option<int>,
    messages: seq<MessageView>,
    playlist: seq<EntryView>,
    memberCount: nat)

  /** `room_state` answers 404 for an unknown code, 403 for a closed room
      polled by anyone but its owner, and a snapshot otherwise. */
  datatype StateReply = NoRoom | Closed | Snapshot(view: RoomView)

  /** The user row a message's `author` relationship loads. */
  function AuthorOf(users: seq<User>, id: nat): (u: User)
    requires id in UserIds(users)
    ensures u in users && u.id == id
  {
    users[UserIndex(users, id)]
  }

  /** The music row a playlist entry's `music` relationship loads. */
  function TrackOf(musics: seq<Music>, id: nat): (m: Music)
    requires id in MusicIds(musics)
    ensures m in musics && m.id == id
  {
    var k := FindMusic(musics, id);
    assert k >= 0 by {
      var w :| w in musics && w.id == id;
      var j :| 0 <= j < |musics| && musics[j] == w;
    }
    musics[k]
  }

  /** The serialised chat lines, in the order of `ms`. */
  function ViewMessages(users: seq<User>, ms: seq<RoomMessage>): (vs: seq<MessageView>)
    requires forall m :: m in ms ==> m.userId in UserIds(users)
    ensures |vs| == |ms|
    ensures forall i :: 0 <= i < |ms| ==>
      && vs[i].id == ms[i].id && vs[i].content == ms[i].content && vs[i].createdAt == ms[i].createdAt
      && vs[i].authorName == DisplayName(AuthorOf(users, ms[i].userId))
      && vs[i].authorAvatar == AvatarUrl(AuthorOf(users, ms[i].userId))
    decreases |ms|
  {
    if ms == [] then []
    else
      var m := ms[0];
      var author := AuthorOf(users, m.userId);
      [MessageView(m.id, DisplayName(author), AvatarUrl(author), m.createdAt, m.content)]
        + ViewMessages(users, ms[1..])
  }

  /** The serialised playlist, in the order of `es`. */
  function ViewEntries(musics: seq<Music>, es: seq<RoomPlaylistEntry>): (vs: seq<EntryView>)
    requires forall e :: e in es ==> e.musicId in MusicIds(musics)
    ensures |vs| == |es|
    ensures forall i :: 0 <= i < |es| ==>
      vs[i].id == es[i].id && vs[i].musicId == es[i].musicId && vs[i].title == TrackOf(musics, es[i].musicId).title
    decreases |es|
  {
    if es == [] then []
    else
      [EntryView(es[0].id, es[0].musicId, TrackOf(musics, es[0].musicId).title)] + ViewEntries(musics, es[1..])
  }

  /** The messages a poll of room `roomId` returns: its latest
      `MessageWindow` messages, oldest first. */
  function RecentMessages(messages: seq<RoomMessage>, roomId: nat): (w: seq<RoomMessage>)
    ensures forall m :: m in w ==> m in messages && m.roomId == roomId
  {
    LastN(Filter(messages, MessageOf(roomId)), MessageWindow)
  }

  /** The chat part of a snapshot: the room's recent messages with their
      authors' display names and avatars. */
  function ChatWindow(t: Tables, roomId: nat): seq<MessageView>
    requires ReferencesValid(t)
  {
    ViewMessages(t.users, RecentMessages(t.messages, roomId))
  }

  /** `room_state`: the polled snapshot of a room, open to any signed-in
      user while the room is open and to its owner only once it is closed.
      The position is the stored one advanced by the time since the last
      update while playing; the member count includes the owner. */
  function RoomState(t: Tables, caller: User, code: string, now: int): StateReply
    requires ReferencesValid(t)
  {
    var k := FindRoom(t.rooms, code);
    if k == -1 then NoRoom
    else
      var room := t.rooms[k];
      if !room.isActive && room.ownerId != caller.id then Closed
      else
        var entries := Filter(t.playlist, EntryOf(room.id));
        Snapshot(RoomView(room.status, room.trackName, room.trackFile, DerivedPosition(room, now),
                          room.isActive, room.updatedAt,
                          ChatWindow(t, room.id),
                          ViewEntries(t.musics, entries),
                          MemberCount(t.members, room.id) + 1))
  }

  /** A poll answers 404 exactly for an unknown code and 403 exactly for a
      closed room polled by a non-owner; every other poll gets a snapshot,
      whether or not the caller is a member. */
  lemma RoomStateGates(t: Tables, caller: User, code: string, now: int)
    requires ReferencesValid(t)
    ensures var reply, k := RoomState(t, caller, code, now), FindRoom(t.rooms, code);
      && (reply == NoRoom <==> k == -1)
      && (reply == Closed <==> k >= 0 && !t.rooms[k].isActive && t.rooms[k].ownerId != caller.id)
  {
  }

  /** A snapshot carries the room's playback columns, the derived position,
      every entry of its playlist in order, and a member count one above its
      membership rows. */
  lemma RoomStateSnapshot(t: Tables, caller: User, code: string, now: int)
    requires ReferencesValid(t)
    requires FindRoom(t.rooms, code) >= 0
    requires t.rooms[FindRoom(t.rooms, code)].isActive || t.rooms[FindRoom(t.rooms, code)].ownerId == caller.id
    ensures var reply, room := RoomState(t, caller, code, now), t.rooms[FindRoom(t.rooms, code)];
      var entries := Filter(t.playlist, EntryOf(room.id));
      && reply.Snapshot?
      && var v := reply.view;
      && room.code == code
      && v.status == room.status && v.trackName == room.trackName && v.trackFile == room.trackFile
      && v.isActive == room.isActive && v.updatedAt == room.updatedAt
      && v.position == DerivedPosition(room, now)
      && v.memberCount == MemberCount(t.members, room.id) + 1 && v.memberCount >= 1
      && v.messages == ChatWindow(t, room.id)
      && |v.playlist| == |entries|
      && (forall i :: 0 <= i < |entries| ==>
            v.playlist[i].id == entries[i].id && v.playlist[i].musicId == entries[i].musicId)
  {
  }

  /** A snapshot's chat holds the room's last min(50, n) of its n
      messages, in order. */
  lemma ChatWindowIsRecent(t: Tables, roomId: nat)
    requires ReferencesValid(t)
    ensures var own, v := Filter(t.messages, MessageOf(roomId)), ChatWindow(t, roomId);
      && |v| == (if |own| < MessageWindow then |own| else MessageWindow)
      && (forall i :: 0 <= i < |v| ==>
            && v[i].id == own[|own| - |v| + i].id
            && v[i].content == own[|own| - |v| + i].content)
  {
    var own := Filter(t.messages, MessageOf(roomId));
    var w := RecentMessages(t.messages, roomId);
    var d := |own| - |w|;
    assert w == own[d..];
    assert forall i :: 0 <= i < |w| ==> w[i] == own[d + i];
  }

  /** Message keys are unique, so no chat window ever carries the same
      message id twice: the client's de-duplication by id loses nothing. */
  lemma ChatWindowIdsDistinct(t: Tables, roomId: nat)
    requires ReferencesValid(t) && DistinctBy(t.messages, MessageRowId)
    ensures var v := ChatWindow(t, roomId);
      forall i, j :: 0 <= i < j < |v| ==> v[i].id != v[j].id
  {
    var own := Filter(t.messages, MessageOf(roomId));
    var w := RecentMessages(t.messages, roomId);
    var v := ViewMessages(t.users, w);
    DistinctByFilter(t.messages, MessageOf(roomId), MessageRowId);
    var d := |own| - |w|;
    assert w == own[d..];
    forall i, j | 0 <= i < j < |v| ensures v[i].id != v[j].id {
      assert w[i] == own[d + i] && w[j] == own[d + j];
      assert MessageRowId(own[d + i]) != MessageRowId(own[d + j]);
    }
  }

  /** A paused room reports the same snapshot whenever it is polled; a
      playing one differs only in a position that has advanced by the
      elapsed time. */
  lemma RoomStateOverTime(t: Tables, caller: User, code: string, now: int, later: int)
    requires ReferencesValid(t)
    ensures var a, b := RoomState(t, caller, code, now), RoomState(t, caller, code, later);
      && a.Snapshot? == b.Snapshot?
      && (a.Snapshot? ==> a.view.(position := b.view.position) == b.view)
      && (a.Snapshot? && a.view.status == Paused ==> a == b)
      && (a.Snapshot? && a.view.status == Playing && a.view.updatedAt.Some? ==>
            b.view.position - a.view.position == (later - now) as real / MicrosPerSecond)
  {
    var k := FindRoom(t.rooms, code);
    if RoomState(t, caller, code, now).Snapshot? {
      if t.rooms[k].status == Playing && t.rooms[k].updatedAt.Some? {
        PlayingPositionAdvances(t.rooms[k], now, later);
      }
    }
  }
}
