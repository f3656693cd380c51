/** The request handlers run against the live database: each method below
    performs a handler's steps in the order the source performs them,
    reading and rewriting the tables of a `Database` in place. Each is
    proved to leave the database exactly as the corresponding step function
    of module Routes, Admin or Auth describes and to return that step's
    outcome; the lemmas proved about those functions (each handler's rule
    and its preservation of the integrity rules `Valid`) therefore hold of
    the database. */
module Handlers {
  import opened Common
  import opened Models
  import opened Store
  import opened Playback
  import opened Forms
  import opened Uploads
  import R = Routes
  import A = Admin
  import Au = Auth

  /** `_attach_member`. */
  method AttachMember(db: Database, room: Room, userId: nat, recordParticipation: bool, now: int)
    modifies db`members, db`messages, db`participations
    ensures db.State() == R.Attach(old(db.State()), room, userId, recordParticipation, now)
  {
    if !room.isActive {
      return;
    }
    if room.ownerId == userId {
      return;
    }
    var existing := FindMember(db.members, room.id, userId);
    var createdNow := false;
    if existing == -1 {
      db.members := db.members + [RoomMember(NextRowId(db.members, MemberRowId), room.id, userId, now)];
      createdNow := true;
      db.messages := db.messages + [RoomMessage(NextRowId(db.messages, MessageRowId), room.id, userId, R.JoinNotice, now)];
    }
    if recordParticipation || createdNow {
      db.participations := db.participations
        + [RoomParticipationRecord(NextRowId(db.participations, ParticipationRowId), userId, room.code, now)];
    }
  }

  /** `join_room`. */
  method JoinRoom(db: Database, caller: User, code: string, now: int) returns (outcome: R.Outcome)
    modifies db`members, db`messages, db`participations
    ensures var s := R.JoinRoom(old(db.State()), caller, code, now);
      db.State() == s.tables && outcome == s.outcome
  {
    if caller.isAdmin {
      return R.Forbidden;
    }
    if !RoomCodeFieldValid(code) {
      return R.Refused(R.InvalidForm);
    }
    var k := FindRoom(db.rooms, code);
    if k == -1 {
      return R.Refused(R.NoSuchRoom);
    }
    var room := db.rooms[k];
    if !room.isActive {
      return R.Refused(R.RoomClosed);
    }
    AttachMember(db, room, caller.id, true, now);
    return R.Done;
  }

  /** `room_detail`, up to the member count the page shows. */
  method RoomDetail(db: Database, caller: User, code: string, now: int) returns (outcome: R.Outcome)
    modifies db`members, db`messages, db`participations
    ensures var s := R.RoomDetail(old(db.State()), caller, code, now);
      db.State() == s.tables && outcome == s.outcome
  {
    if caller.isAdmin {
      return R.Forbidden;
    }
    var k := FindRoom(db.rooms, code);
    if k == -1 {
      return R.NotFound;
    }
    var room := db.rooms[k];
    if !room.isActive && room.ownerId != caller.id {
      return R.Refused(R.RoomClosed);
    }
    if room.ownerId != caller.id {
      AttachMember(db, room, caller.id, false, now);
    }
    var memberCount := MemberCount(db.members, room.id) + 1;
    return R.Opened(memberCount);
  }

  /** `leave_room`: the parting message is added before the membership is
      deleted, and both are committed together. */
  method LeaveRoom(db: Database, caller: User, code: string, now: int) returns (outcome: R.Outcome)
    modifies db`members, db`messages
    ensures var s := R.LeaveRoom(old(db.State()), caller, code, now);
      db.State() == s.tables && outcome == s.outcome
  {
    var k := FindRoom(db.rooms, code);
    if k == -1 {
      return R.NotFound;
    }
    var room := db.rooms[k];
    if room.ownerId == caller.id {
      return R.Refused(R.OwnerCannotLeave);
    }
    var membership := FindMember(db.members, room.id, caller.id);
    if membership == -1 {
      return R.Refused(R.NotAMember);
    }
    db.messages := db.messages + [RoomMessage(NextRowId(db.messages, MessageRowId), room.id, caller.id, R.LeaveNotice, now)];
    db.members := RemoveAt(db.members, membership);
    return R.Done;
  }

  /** `room_availability`: the row's fields are assigned one by one and the
      commit writes them, refreshing `updated_at` when anything changed. */
  method RoomAvailability(db: Database, caller: User, code: string, action: string, now: int)
    returns (outcome: R.Outcome)
    modifies db`rooms
    ensures var s := R.RoomAvailability(old(db.State()), caller, code, action, now);
      db.State() == s.tables && outcome == s.outcome
  {
    var k := FindRoom(db.rooms, code);
    if k == -1 {
      return R.NotFound;
    }
    var room := db.rooms[k];
    if room.ownerId != caller.id {
      return R.Forbidden;
    }
    if action == "close" {
      room := room.(isActive := false);
      room := room.(status := Paused);
    } else if action == "open" {
      room := room.(isActive := true);
    } else {
      return R.Refused(R.UnknownAction);
    }
    db.rooms := db.rooms[k := Commit(db.rooms[k], room, now)];
    return R.Done;
  }

  /** `delete_room`: three bulk deletes by room id, then the room. */
  method DeleteRoom(db: Database, caller: User, code: string) returns (outcome: R.Outcome)
    modifies db`rooms, db`messages, db`members, db`playlist
    ensures var s := R.DeleteRoom(old(db.State()), caller, code);
      db.State() == s.tables && outcome == s.outcome
  {
    var k := FindRoom(db.rooms, code);
    if k == -1 {
      return R.NotFound;
    }
    var room := db.rooms[k];
    if room.ownerId != caller.id {
      return R.Forbidden;
    }
    ghost var t := db.State();
    assert R.DeleteRoom(t, caller, code).tables == t.(messages := Filter(t.messages, NotMessageOf(room.id)),
      members := Filter(t.members, NotMemberOf(room.id)), playlist := Filter(t.playlist, NotEntryOf(room.id)),
      rooms := RemoveAt(t.rooms, k));
    db.messages := Filter(db.messages, NotMessageOf(room.id));
    db.members := Filter(db.members, NotMemberOf(room.id));
    db.playlist := Filter(db.playlist, NotEntryOf(room.id));
    db.rooms := RemoveAt(db.rooms, k);
    return R.Done;
  }

  /** `toggle_playback`: a non-empty music id is handled first and alone;
      only without one is the action read. `unplayable` is the "cannot play
      this track" flash message; the reply is a success either way. */
  method TogglePlayback(db: Database, caller: User, code: string, req: ToggleRequest, now: int)
    returns (outcome: R.Outcome, unplayable: bool)
    modifies db`rooms, db`listens
    ensures var s := R.TogglePlayback(old(db.State()), caller, code, req, now);
      db.State() == s.tables && outcome == s.outcome
    ensures unplayable <==> (outcome == R.Done && req.musicId.Some? &&
      (FindMusic(db.musics, req.musicId.value) == -1 ||
       db.musics[FindMusic(db.musics, req.musicId.value)].status != Approved))
  {
    unplayable := false;
    var k := FindRoom(db.rooms, code);
    if k == -1 {
      return R.NotFound, false;
    }
    var room := db.rooms[k];
    if room.ownerId != caller.id {
      return R.Forbidden, false;
    }
    if req.musicId.Some? {
      var j := FindMusic(db.musics, req.musicId.value);
      if j >= 0 && db.musics[j].status == Approved {
        var music := db.musics[j];
        room := room.(trackName := Some(music.title));
        room := room.(trackFile := Some(music.storedFilename));
        room := room.(status := Playing);
        room := room.(position := 0.0);
        room := room.(updatedAt := Some(now));
        db.listens := db.listens + [ListenRecord(NextRowId(db.listens, ListenRowId), caller.id, music.title, now)];
      } else {
        unplayable := true;
      }
    } else if req.action == "play" || req.action == "pause" || req.action == "stop" {
      if req.action == "stop" {
        room := room.(status := Paused);
        room := room.(trackName := None);
        room := room.(trackFile := None);
        room := room.(position := 0.0);
      } else {
        room := room.(status := if req.action == "play" then Playing else Paused);
        if req.position.Some? && req.position.value >= 0.0 {
          room := room.(position := req.position.value);
        }
      }
      room := room.(updatedAt := Some(now));
    }
    db.rooms := db.rooms[k := Commit(db.rooms[k], room, now)];
    return R.Done, unplayable;
  }

  /** `_generate_unique_room_code`: tries the drawn codes in order until
      one belongs to no room. The random draws are given as a sequence in
      which some code is free. */
  method GenerateUniqueRoomCode(db: Database, draws: seq<string>) returns (code: string)
    requires R.SomeDrawFree(db.rooms, draws)
    ensures code == draws[R.FirstFreeDraw(db.rooms, draws)]
    ensures FindRoom(db.rooms, code) == -1
  {
    var i := 0;
    while true
      invariant 0 <= i <= R.FirstFreeDraw(db.rooms, draws)
      decreases R.FirstFreeDraw(db.rooms, draws) - i
    {
      code := draws[i];
      if FindRoom(db.rooms, code) == -1 {
        return;
      }
      i := i + 1;
    }
  }

  /** `create_room`: the form, then the quota, then a free code; the room
      and the owner's participation record are committed one after the
      other, both stamped `now`. */
  method CreateRoom(db: Database, caller: User, name: string, draws: seq<string>, now: int)
    returns (outcome: R.Outcome)
    requires R.MayCreateRoom(db.State(), caller, name) ==> R.SomeDrawFree(db.rooms, draws)
    modifies db`rooms, db`participations
    ensures var s := R.CreateRoom(old(db.State()), caller, name, draws, now);
      db.State() == s.tables && outcome == s.outcome
  {
    if caller.isAdmin {
      return R.Forbidden;
    }
    if !RoomNameValid(name) {
      return R.Refused(R.InvalidForm);
    }
    var currentCount := OwnedCount(db.rooms, caller.id);
    if currentCount >= MaxOwnedRooms {
      return R.Refused(R.QuotaReached);
    }
    var code := GenerateUniqueRoomCode(db, draws);
    db.rooms := db.rooms + [NewRoom(NextRowId(db.rooms, RoomRowId), caller.id, name, code, now)];
    db.participations := db.participations
      + [RoomParticipationRecord(NextRowId(db.participations, ParticipationRowId), caller.id, code, now)];
    return R.Created(code);
  }

  /** `add_to_playlist`. */
  method AddToPlaylist(db: Database, caller: User, code: string, musicId: Option<nat>, now: int)
    returns (outcome: R.Outcome)
    modifies db`playlist
    ensures var s := R.AddToPlaylist(old(db.State()), caller, code, musicId, now);
      db.State() == s.tables && outcome == s.outcome
  {
    var k := FindRoom(db.rooms, code);
    if k == -1 {
      return R.NotFound;
    }
    var room := db.rooms[k];
    if musicId.None? {
      return R.Refused(R.NoMusicChosen);
    }
    var j := FirstIndex(db.musics, R.OwnApproved(musicId.value, caller.id));
    if j == -1 {
      return R.Refused(R.MusicUnavailable);
    }
    db.playlist := db.playlist + [RoomPlaylistEntry(NextRowId(db.playlist, EntryRowId), room.id, musicId.value, now)];
    return R.Done;
  }

  /** `delete_from_playlist`. */
  method DeleteFromPlaylist(db: Database, caller: User, code: string, itemId: Option<nat>)
    returns (outcome: R.Outcome)
    modifies db`playlist
    ensures var s := R.DeleteFromPlaylist(old(db.State()), caller, code, itemId);
      db.State() == s.tables && outcome == s.outcome
  {
    var k := FindRoom(db.rooms, code);
    if k == -1 {
      return R.NotFound;
    }
    var room := db.rooms[k];
    if room.ownerId != caller.id {
      return R.Forbidden;
    }
    if itemId.Some? {
      var j := FindEntry(db.playlist, itemId.value);
      if j >= 0 && db.playlist[j].roomId == room.id {
        db.playlist := RemoveAt(db.playlist, j);
      }
    }
    return R.Done;
  }

  /** `send_message`. */
  method SendMessage(db: Database, caller: User, code: string, content: string, now: int)
    returns (outcome: R.Outcome)
    modifies db`messages
    ensures var s := R.SendMessage(old(db.State()), caller, code, content, now);
      db.State() == s.tables && outcome == s.outcome
  {
    var k := FindRoom(db.rooms, code);
    if k == -1 {
      return R.NotFound;
    }
    var text := Strip(content);
    if text == [] {
      return R.Refused(R.EmptyMessage);
    }
    db.messages := db.messages + [RoomMessage(NextRowId(db.messages, MessageRowId), db.rooms[k].id, caller.id, text, now)];
    return R.Done;
  }

  /** `delete_music`: the playlist entries listing the track, in every
      room, are deleted first, then the track. */
  method DeleteMusic(db: Database, caller: User, musicId: nat) returns (outcome: R.Outcome)
    modifies db`playlist, db`musics
    ensures var s := R.DeleteMusic(old(db.State()), caller, musicId);
      db.State() == s.tables && outcome == s.outcome
  {
    if caller.isAdmin {
      return R.Forbidden;
    }
    var j := FirstIndex(db.musics, R.OwnMusic(musicId, caller.id));
    if j == -1 {
      return R.NotFound;
    }
    db.playlist := Filter(db.playlist, NotEntryFor(musicId));
    db.musics := RemoveAt(db.musics, j);
    return R.Done;
  }

  /** The upload branch of the `music` page. */
  method UploadMusic(db: Database, caller: User, title: string, file: Option<Upload>, stamp: string, now: int)
    returns (outcome: R.Outcome)
    modifies db`musics
    ensures var s := R.UploadMusic(old(db.State()), caller, title, file, stamp, now);
      db.State() == s.tables && outcome == s.outcome
  {
    if caller.isAdmin {
      return R.Forbidden;
    }
    if !MusicTitleValid(title) || !Present(file) {
      return R.Refused(R.InvalidForm);
    }
    var saved := SaveMusic(file, stamp);
    if saved.Failed? {
      return R.Refused(R.UploadRejected(saved.error));
    }
    var stored := saved.name;
    var songTitle := R.UploadTitle(title, file.value.filename);
    db.musics := db.musics + [NewMusic(NextRowId(db.musics, MusicRowId), caller.id, songTitle, file.value.filename, stored, now)];
    return R.Done;
  }

  /** The notice part of `dashboard`. */
  method TakeNotice(db: Database, caller: User) returns (outcome: R.Outcome)
    modifies db`users
    ensures var s := R.TakeNotice(old(db.State()), caller);
      db.State() == s.tables && outcome == s.outcome
  {
    if caller.isAdmin {
      return R.Notified(None);
    }
    var k := FindUser(db.users, caller.id);
    if k == -1 {
      return R.Notified(None);
    }
    var pendingNotice := db.users[k].notification;
    if pendingNotice.Some? && pendingNotice.value != "" {
      db.users := db.users[k := db.users[k].(notification := None)];
      return R.Notified(pendingNotice);
    }
    return R.Notified(None);
  }

  /** `approve_music`. */
  method ApproveMusic(db: Database, caller: User, musicId: nat) returns (outcome: R.Outcome)
    modifies db`musics
    ensures var s := A.ApproveMusic(old(db.State()), caller, musicId);
      db.State() == s.tables && outcome == s.outcome
  {
    if !caller.isAdmin {
      return R.Forbidden;
    }
    var j := FindMusic(db.musics, musicId);
    if j == -1 {
      return R.NotFound;
    }
    db.musics := db.musics[j := db.musics[j].(status := Approved)];
    db.musics := db.musics[j := db.musics[j].(rejectionReason := None)];
    return R.Done;
  }

  /** `reject_music`: the track row, then its uploader's notice. */
  method RejectMusic(db: Database, caller: User, musicId: nat, reason: Option<string>) returns (outcome: R.Outcome)
    requires ReferencesValid(db.State())
    modifies db`musics, db`users
    ensures var s := A.RejectMusic(old(db.State()), caller, musicId, reason);
      db.State() == s.tables && outcome == s.outcome
  {
    if !caller.isAdmin {
      return R.Forbidden;
    }
    var j := FindMusic(db.musics, musicId);
    if j == -1 {
      return R.NotFound;
    }
    var music := db.musics[j];
    music := music.(status := Rejected);
    music := music.(rejectionReason := Some(if reason.Some? then reason.value else A.DefaultRejectionReason));
    db.musics := db.musics[j := music];
    var k := UserIndex(db.users, music.userId);
    db.users := db.users[k := db.users[k].(notification := Some(A.RejectionNotice))];
    return R.Done;
  }

  /** `register`. */
  method Register(db: Database, session: Option<User>, f: RegistrationForm, hash: string)
    returns (outcome: Au.AuthOutcome)
    modifies db`users
    ensures var s := Au.Register(old(db.State()), session, f, hash);
      db.State() == s.tables && outcome == s.outcome
  {
    ghost var t := db.State();
    if session.Some? {
      assert Au.Register(t, session, f, hash) == Au.AuthStep(t, Au.AlreadySignedIn(Au.HomeOf(session.value)));
      return Au.AlreadySignedIn(Au.HomeOf(session.value));
    }
    var valid := RegistrationValid(f);
    if !valid {
      assert Au.Register(t, session, f, hash) == Au.AuthStep(t, Au.FormRejected);
      return Au.FormRejected;
    }
    if FindUserByName(db.users, f.username) >= 0 {
      assert Au.Register(t, session, f, hash) == Au.AuthStep(t, Au.NameTaken);
      return Au.NameTaken;
    }
    var user := NewUser(NextRowId(db.users, UserRowId), f.username, hash, f.role == "admin");
    assert Au.Register(t, session, f, hash) ==
      Au.AuthStep(t.(users := t.users + [user]), Au.Registered(user.id, true, Au.HomeOf(user)));
    db.users := db.users + [user];
    return Au.Registered(user.id, true, Au.HomeOf(user));
  }

  /** `admin_register`. */
  method AdminRegister(db: Database, session: Option<User>, f: RegistrationForm, hash: string)
    returns (outcome: Au.AuthOutcome)
    modifies db`users
    ensures var s := Au.AdminRegister(old(db.State()), session, f, hash);
      db.State() == s.tables && outcome == s.outcome
  {
    ghost var t := db.State();
    if session.Some? && session.value.isAdmin {
      assert Au.AdminRegister(t, session, f, hash) == Au.AuthStep(t, Au.AlreadySignedIn(Au.AdminDashboard));
      return Au.AlreadySignedIn(Au.AdminDashboard);
    }
    var valid := AdminRegistrationValid(f);
    if !valid {
      assert Au.AdminRegister(t, session, f, hash) == Au.AuthStep(t, Au.FormRejected);
      return Au.FormRejected;
    }
    if FindUserByName(db.users, f.username) >= 0 {
      assert Au.AdminRegister(t, session, f, hash) == Au.AuthStep(t, Au.NameTaken);
      return Au.NameTaken;
    }
    var user := NewUser(NextRowId(db.users, UserRowId), f.username, hash, true);
    assert Au.AdminRegister(t, session, f, hash) ==
      Au.AuthStep(t.(users := t.users + [user]), Au.Registered(user.id, false, Au.AdminLoginPage));
    db.users := db.users + [user];
    return Au.Registered(user.id, false, Au.AdminLoginPage);
  }
}
