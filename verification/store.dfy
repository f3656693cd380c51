/** The application's SQLite tables (app/models.py) as one value, the
    queries the handlers run on them, the integrity rules every handler
    keeps, and the `Database` object whose fields hold the live tables.
    Each table is a sequence of rows in insertion order. */
module Store {
  import opened Common
  import opened Models

  datatype Tables = Tables(
    users: seq<User>,
    musics: seq<Music>,
    rooms: seq<Room>,
    members: seq<RoomMember>,
    messages: seq<RoomMessage>,
    playlist: seq<RoomPlaylistEntry>,
    listens: seq<ListenRecord>,
    participations: seq<RoomParticipationRecord>)

  function UserRowId(u: User): nat { u.id }
  function MusicRowId(m: Music): nat { m.id }
  function RoomRowId(r: Room): nat { r.id }
  function MemberRowId(m: RoomMember): nat { m.id }
  function MessageRowId(m: RoomMessage): nat { m.id }
  function EntryRowId(e: RoomPlaylistEntry): nat { e.id }
  function ListenRowId(l: ListenRecord): nat { l.id }
  function ParticipationRowId(p: RoomParticipationRecord): nat { p.id }

  /** The primary key SQLite gives the next inserted row of a table: one
      more than the largest key in use, or 1 in an empty table. */
  function NextRowId<T>(rows: seq<T>, id: T -> nat): (n: nat)
    ensures n >= 1
    ensures forall i :: 0 <= i < |rows| ==> id(rows[i]) < n
    ensures rows != [] ==> exists i :: 0 <= i < |rows| && n == id(rows[i]) + 1
    decreases |rows|
  {
    if rows == [] then 1
    else
      var init := rows[..|rows| - 1];
      var m := NextRowId(init, id);
      var last := id(rows[|rows| - 1]) + 1;
      assert forall i :: 0 <= i < |init| ==> rows[i] == init[i];
      if m >= last then
        (if init == [] then assert m == 1 && last >= 1; last else m)
      else last
  }

  function RoomHasCode(code: string): Room -> bool
  {
    (r: Room) => r.code == code
  }

  function IsMembership(roomId: nat, userId: nat): RoomMember -> bool
  {
    (m: RoomMember) => m.roomId == roomId && m.userId == userId
  }

  function EntryHasId(id: nat): RoomPlaylistEntry -> bool
  {
    (e: RoomPlaylistEntry) => e.id == id
  }

  function UserHasId(id: nat): User -> bool
  {
    (u: User) => u.id == id
  }

  function UserHasName(name: string): User -> bool
  {
    (u: User) => u.username == name
  }

  function OwnedBy(userId: nat): Room -> bool
  {
    (r: Room) => r.ownerId == userId
  }

  function MemberOf(roomId: nat): RoomMember -> bool
  {
    (m: RoomMember) => m.roomId == roomId
  }

  function MessageOf(roomId: nat): RoomMessage -> bool
  {
    (m: RoomMessage) => m.roomId == roomId
  }

  function EntryOf(roomId: nat): RoomPlaylistEntry -> bool
  {
    (e: RoomPlaylistEntry) => e.roomId == roomId
  }

  function NotMemberOf(roomId: nat): RoomMember -> bool
  {
    (m: RoomMember) => m.roomId != roomId
  }

  function NotMessageOf(roomId: nat): RoomMessage -> bool
  {
    (m: RoomMessage) => m.roomId != roomId
  }

  function NotEntryOf(roomId: nat): RoomPlaylistEntry -> bool
  {
    (e: RoomPlaylistEntry) => e.roomId != roomId
  }

  function NotEntryFor(musicId: nat): RoomPlaylistEntry -> bool
  {
    (e: RoomPlaylistEntry) => e.musicId != musicId
  }

  /** `Room.query.filter_by(code=code).first()`. */
  function FindRoom(rooms: seq<Room>, code: string): (k: int)
    ensures -1 <= k < |rooms|
    ensures k >= 0 ==> rooms[k].code == code
    ensures k == -1 <==> forall j :: 0 <= j < |rooms| ==> rooms[j].code != code
  {
    var k := FirstIndex(rooms, RoomHasCode(code));
    assert forall j :: 0 <= j < |rooms| ==> (RoomHasCode(code)(rooms[j]) <==> rooms[j].code == code);
    k
  }

  /** `RoomMember.query.filter_by(room_id=…, user_id=…).first()`. */
  function FindMember(members: seq<RoomMember>, roomId: nat, userId: nat): (k: int)
    ensures -1 <= k < |members|
    ensures k >= 0 ==> members[k].roomId == roomId && members[k].userId == userId
    ensures k == -1 <==> forall j :: 0 <= j < |members| ==> !(members[j].roomId == roomId && members[j].userId == userId)
  {
    var k := FirstIndex(members, IsMembership(roomId, userId));
    assert forall j :: 0 <= j < |members| ==>
      (IsMembership(roomId, userId)(members[j]) <==> members[j].roomId == roomId && members[j].userId == userId);
    k
  }

  /** `RoomPlaylist.query.get(id)`. */
  function FindEntry(playlist: seq<RoomPlaylistEntry>, id: nat): (k: int)
    ensures -1 <= k < |playlist|
    ensures k >= 0 ==> playlist[k].id == id
    ensures k == -1 <==> forall j :: 0 <= j < |playlist| ==> playlist[j].id != id
  {
    var k := FirstIndex(playlist, EntryHasId(id));
    assert forall j :: 0 <= j < |playlist| ==> (EntryHasId(id)(playlist[j]) <==> playlist[j].id == id);
    k
  }

  /** `User.query.get(id)`. */
  function FindUser(users: seq<User>, id: nat): (k: int)
    ensures -1 <= k < |users|
    ensures k >= 0 ==> users[k].id == id
    ensures k == -1 <==> forall j :: 0 <= j < |users| ==> users[j].id != id
  {
    var k := FirstIndex(users, UserHasId(id));
    assert forall j :: 0 <= j < |users| ==> (UserHasId(id)(users[j]) <==> users[j].id == id);
    k
  }

  /** Rewriting a user's row under the same key does not move `User.query.get`. */
  lemma FindUserUpdate(users: seq<User>, k: nat, v: User, id: nat)
    requires k < |users| && v.id == users[k].id
    ensures FindUser(users[k := v], id) == FindUser(users, id)
  {
    FirstIndexAgree(users[k := v], users, UserHasId(id));
  }

  /** `User.query.filter_by(username=name).first()`. */
  function FindUserByName(users: seq<User>, name: string): (k: int)
    ensures -1 <= k < |users|
    ensures k >= 0 ==> users[k].username == name
    ensures k == -1 <==> forall j :: 0 <= j < |users| ==> users[j].username != name
  {
    var k := FirstIndex(users, UserHasName(name));
    assert forall j :: 0 <= j < |users| ==> (UserHasName(name)(users[j]) <==> users[j].username == name);
    k
  }

  /** `Room.query.filter_by(owner_id=userId).count()`. */
  function OwnedCount(rooms: seq<Room>, userId: nat): nat
  {
    |Filter(rooms, OwnedBy(userId))|
  }

  /** `RoomMember.query.filter_by(room_id=roomId).count()`. */
  function MemberCount(members: seq<RoomMember>, roomId: nat): nat
  {
    |Filter(members, MemberOf(roomId))|
  }

  function UserIds(users: seq<User>): set<nat>
  {
    set u | u in users :: u.id
  }

  function MusicIds(musics: seq<Music>): set<nat>
  {
    set m | m in musics :: m.id
  }

  function RoomIds(rooms: seq<Room>): set<nat>
  {
    set r | r in rooms :: r.id
  }

  /** `User.query.get(id)` for an id some row has. */
  function UserIndex(users: seq<User>, id: nat): (k: nat)
    requires id in UserIds(users)
    ensures k < |users| && users[k].id == id && FindUser(users, id) == k
  {
    var k := FindUser(users, id);
    assert k >= 0 by {
      var w :| w in users && w.id == id;
      var j :| 0 <= j < |users| && users[j] == w;
    }
    k
  }

  function RoomCodeKey(r: Room): string { r.code }
  function MemberKey(m: RoomMember): (nat, nat) { (m.roomId, m.userId) }
  function UserNameKey(u: User): string { u.username }

  /** The most rooms one user may own. */
  const MaxOwnedRooms: nat := 3

  /** Every room has a six-digit code no other room has, a primary key no
      other room has, and well-formed playback columns. */
  ghost predicate RoomsValid(rooms: seq<Room>)
  {
    && (forall i :: 0 <= i < |rooms| ==> IsRoomCode(rooms[i].code) && RoomWellFormed(rooms[i]))
    && DistinctBy(rooms, RoomCodeKey)
    && DistinctBy(rooms, RoomRowId)
  }

  /** Nobody owns more than three rooms. */
  ghost predicate QuotaValid(rooms: seq<Room>)
  {
    forall u: nat :: OwnedCount(rooms, u) <= MaxOwnedRooms
  }

  /** Rows that point at users, music and rooms point at rows that exist:
      the foreign keys of the schema. */
  ghost predicate ReferencesValid(t: Tables)
  {
    && (forall r :: r in t.rooms ==> r.ownerId in UserIds(t.users))
    && (forall m :: m in t.musics ==> m.userId in UserIds(t.users))
    && (forall e :: e in t.playlist ==> e.musicId in MusicIds(t.musics) && e.roomId in RoomIds(t.rooms))
    && (forall m :: m in t.messages ==> m.userId in UserIds(t.users) && m.roomId in RoomIds(t.rooms))
    && (forall m :: m in t.members ==> m.userId in UserIds(t.users) && m.roomId in RoomIds(t.rooms))
    && (forall l :: l in t.listens ==> l.userId in UserIds(t.users))
    && (forall p :: p in t.participations ==> p.userId in UserIds(t.users))
  }

  /** The integrity rules of the schema and of the handlers together: a
      primary key no other row of its table has, in every table; unique
      user names; the rules on rooms; at most one membership per (room,
      user) (`uniq_room_member`); and references that resolve. */
  ghost predicate Valid(t: Tables)
  {
    && DistinctBy(t.users, UserRowId)
    && DistinctBy(t.users, UserNameKey)
    && DistinctBy(t.musics, MusicRowId)
    && RoomsValid(t.rooms)
    && QuotaValid(t.rooms)
    && DistinctBy(t.members, MemberRowId)
    && DistinctBy(t.members, MemberKey)
    && DistinctBy(t.messages, MessageRowId)
    && DistinctBy(t.playlist, EntryRowId)
    && DistinctBy(t.listens, ListenRowId)
    && DistinctBy(t.participations, ParticipationRowId)
    && ReferencesValid(t)
  }

  function EmptyTables(): (t: Tables)
    ensures Valid(t)
  {
    Tables([], [], [], [], [], [], [], [])
  }

  /** A user who is a row of the table: `current_user`. */
  ghost predicate IsUser(t: Tables, u: User)
  {
    u in t.users
  }

  lemma UserIdsHas(users: seq<User>, u: User)
    requires u in users
    ensures u.id in UserIds(users)
  {
  }

  lemma RoomIdsHas(rooms: seq<Room>, r: Room)
    requires r in rooms
    ensures r.id in RoomIds(rooms)
  {
  }

  /** Rewriting one room's row keeps every rule as long as the row keeps its
      key, its code and its owner and stays well formed. */
  lemma RoomUpdateKeepsValid(t: Tables, k: nat, r: Room)
    requires Valid(t) && k < |t.rooms|
    requires r.id == t.rooms[k].id && r.code == t.rooms[k].code && r.ownerId == t.rooms[k].ownerId
    requires RoomWellFormed(r)
    ensures Valid(t.(rooms := t.rooms[k := r]))
  {
    var rooms := t.rooms[k := r];
    DistinctByUpdate(t.rooms, k, r, RoomCodeKey);
    DistinctByUpdate(t.rooms, k, r, RoomRowId);
    forall u: nat ensures OwnedCount(rooms, u) <= MaxOwnedRooms {
      assert OwnedBy(u)(r) == OwnedBy(u)(t.rooms[k]);
      FilterUpdate(t.rooms, k, r, OwnedBy(u));
      assert OwnedCount(t.rooms, u) <= MaxOwnedRooms;
    }
    assert RoomIds(rooms) == RoomIds(t.rooms) by {
      forall x | x in RoomIds(rooms) ensures x in RoomIds(t.rooms) {
        var i :| 0 <= i < |rooms| && rooms[i].id == x;
        assert t.rooms[i] in t.rooms;
      }
      forall x | x in RoomIds(t.rooms) ensures x in RoomIds(rooms) {
        var i :| 0 <= i < |t.rooms| && t.rooms[i].id == x;
        assert rooms[i] in rooms;
      }
    }
  }

  /** Appending a track with a fresh key that belongs to an existing user
      keeps every rule. */
  lemma AppendMusicKeepsValid(t: Tables, m: Music)
    requires Valid(t) && m.userId in UserIds(t.users)
    requires forall i :: 0 <= i < |t.musics| ==> t.musics[i].id < m.id
    ensures Valid(t.(musics := t.musics + [m]))
  {
    DistinctByAppend(t.musics, m, MusicRowId);
    assert forall id :: id in MusicIds(t.musics) ==> id in MusicIds(t.musics + [m]);
  }

  /** A user joining a room: appending the membership, the join message and
      a participation record, each with a fresh key, keeps every rule. */
  lemma AppendJoinKeepsValid(t: Tables, m: RoomMember, joined: RoomMessage, p: RoomParticipationRecord)
    requires Valid(t) && m.userId in UserIds(t.users) && m.roomId in RoomIds(t.rooms)
    requires joined.userId == m.userId && joined.roomId == m.roomId && p.userId == m.userId
    requires forall i :: 0 <= i < |t.members| ==> t.members[i].id < m.id
    requires forall i :: 0 <= i < |t.messages| ==> t.messages[i].id < joined.id
    requires forall i :: 0 <= i < |t.participations| ==> t.participations[i].id < p.id
    requires FindMember(t.members, m.roomId, m.userId) == -1
    ensures Valid(t.(members := t.members + [m], messages := t.messages + [joined],
                     participations := t.participations + [p]))
  {
    DistinctByAppend(t.members, m, MemberRowId);
    DistinctByAppend(t.members, m, MemberKey);
    DistinctByAppend(t.messages, joined, MessageRowId);
    DistinctByAppend(t.participations, p, ParticipationRowId);
  }

  /** A member leaving a room: deleting the membership and appending the
      parting message, under a fresh key, by an existing user in an
      existing room, keeps every rule. */
  lemma LeaveMemberKeepsValid(t: Tables, j: nat, parting: RoomMessage)
    requires Valid(t) && j < |t.members|
    requires parting.userId in UserIds(t.users) && parting.roomId in RoomIds(t.rooms)
    requires forall i :: 0 <= i < |t.messages| ==> t.messages[i].id < parting.id
    ensures Valid(t.(messages := t.messages + [parting], members := RemoveAt(t.members, j)))
  {
    DistinctByRemoveAt(t.members, j, MemberRowId);
    DistinctByRemoveAt(t.members, j, MemberKey);
    RemoveAtElements(t.members, j);
    DistinctByAppend(t.messages, parting, MessageRowId);
  }

  /** Appending a chat message with a fresh key, by an existing user in an
      existing room, keeps every rule. */
  lemma AppendMessageKeepsValid(t: Tables, m: RoomMessage)
    requires Valid(t) && m.userId in UserIds(t.users) && m.roomId in RoomIds(t.rooms)
    requires forall i :: 0 <= i < |t.messages| ==> t.messages[i].id < m.id
    ensures Valid(t.(messages := t.messages + [m]))
  {
    DistinctByAppend(t.messages, m, MessageRowId);
  }

  /** Appending a listen record with a fresh key for an existing user keeps
      every rule. */
  lemma AppendListenKeepsValid(t: Tables, l: ListenRecord)
    requires Valid(t) && l.userId in UserIds(t.users)
    requires forall i :: 0 <= i < |t.listens| ==> t.listens[i].id < l.id
    ensures Valid(t.(listens := t.listens + [l]))
  {
    DistinctByAppend(t.listens, l, ListenRowId);
  }

  /** Appending a participation record with a fresh key for an existing
      user keeps every rule. */
  lemma AppendParticipationKeepsValid(t: Tables, p: RoomParticipationRecord)
    requires Valid(t) && p.userId in UserIds(t.users)
    requires forall i :: 0 <= i < |t.participations| ==> t.participations[i].id < p.id
    ensures Valid(t.(participations := t.participations + [p]))
  {
    DistinctByAppend(t.participations, p, ParticipationRowId);
  }

  /** Two different rows of the music table have different keys. */
  lemma MusicRowUnique(musics: seq<Music>, i: nat, j: nat)
    requires DistinctBy(musics, MusicRowId) && i < |musics| && j < |musics|
    ensures i != j ==> musics[i].id != musics[j].id
  {
    if i < j {
      assert MusicRowId(musics[i]) != MusicRowId(musics[j]);
    } else if j < i {
      assert MusicRowId(musics[j]) != MusicRowId(musics[i]);
    }
  }

  /** Rewriting one track's row keeps every rule as long as the row keeps
      its key and its uploader. */
  lemma MusicUpdateKeepsValid(t: Tables, j: nat, m: Music)
    requires Valid(t) && j < |t.musics|
    requires m.id == t.musics[j].id && m.userId == t.musics[j].userId
    ensures Valid(t.(musics := t.musics[j := m]))
  {
    var musics := t.musics[j := m];
    DistinctByUpdate(t.musics, j, m, MusicRowId);
    assert MusicIds(musics) == MusicIds(t.musics) by {
      forall x | x in MusicIds(musics) ensures x in MusicIds(t.musics) {
        var i :| 0 <= i < |musics| && musics[i].id == x;
        assert t.musics[i] in t.musics;
      }
      forall x | x in MusicIds(t.musics) ensures x in MusicIds(musics) {
        var i :| 0 <= i < |t.musics| && t.musics[i].id == x;
        assert musics[i] in musics;
      }
    }
    forall x | x in musics ensures x.userId in UserIds(t.users) {
      var i :| 0 <= i < |musics| && musics[i] == x;
      assert t.musics[i] in t.musics;
    }
  }

  /** Rewriting one user's row keeps every rule as long as the row keeps its
      key and its user name. */
  lemma UserUpdateKeepsValid(t: Tables, k: nat, u: User)
    requires Valid(t) && k < |t.users|
    requires u.id == t.users[k].id && u.username == t.users[k].username
    ensures Valid(t.(users := t.users[k := u]))
  {
    var users := t.users[k := u];
    DistinctByUpdate(t.users, k, u, UserRowId);
    DistinctByUpdate(t.users, k, u, UserNameKey);
    assert UserIds(users) == UserIds(t.users) by {
      forall x | x in UserIds(users) ensures x in UserIds(t.users) {
        var i :| 0 <= i < |users| && users[i].id == x;
        assert t.users[i] in t.users;
      }
      forall x | x in UserIds(t.users) ensures x in UserIds(users) {
        var i :| 0 <= i < |t.users| && t.users[i].id == x;
        assert users[i] in users;
      }
    }
  }

  /** The live tables of the application. */
  class Database {
    var users: seq<User>
    var musics: seq<Music>
    var rooms: seq<Room>
    var members: seq<RoomMember>
    var messages: seq<RoomMessage>
    var playlist: seq<RoomPlaylistEntry>
    var listens: seq<ListenRecord>
    var participations: seq<RoomParticipationRecord>

    function State(): Tables
      reads this
    {
      Tables(users, musics, rooms, members, messages, playlist, listens, participations)
    }

    constructor ()
      ensures State() == EmptyTables() && Valid(State())
    {
      users, musics, rooms, members := [], [], [], [];
      messages, playlist, listens, participations := [], [], [], [];
    }
  }
}
