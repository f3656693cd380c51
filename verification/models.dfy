/** The rows of the application's tables (app/models.py) as values, with the
    column defaults a freshly inserted row receives and the two URL
    properties. Timestamps are integers counting microseconds, the
    resolution of Python's `datetime`; nullable columns are `Option`s. */
module Models {
  import opened Common

  datatype MusicStatus = Pending | Approved | Rejected

  datatype PlaybackStatus = Paused | Playing

  datatype User = User(
    id: nat,
    username: string,
    passwordHash: string,
    isAdmin: bool,
    nickname: Option<string>,
    avatarPath: Option<string>,
    notification: Option<string>)

  datatype Music = Music(
    id: nat,
    userId: nat,
    title: string,
    originalFilename: string,
    storedFilename: string,
    status: MusicStatus,
    rejectionReason: Option<string>,
    uploadedAt: int)

  /** The authoritative playback record of one room. `position` is in
      seconds; `updatedAt` is the instant from which a playing room's
      position keeps advancing. */
  datatype Room = Room(
    id: nat,
    ownerId: nat,
    name: string,
    code: string,
    isActive: bool,
    status: PlaybackStatus,
    trackName: Option<string>,
    trackFile: Option<string>,
    position: real,
    createdAt: int,
    updatedAt: Option<int>)

  datatype RoomMember = RoomMember(id: nat, roomId: nat, userId: nat, joinedAt: int)

  datatype RoomMessage = RoomMessage(id: nat, roomId: nat, userId: nat, content: string, createdAt: int)

  datatype RoomPlaylistEntry = RoomPlaylistEntry(id: nat, roomId: nat, musicId: nat, createdAt: int)

  datatype ListenRecord = ListenRecord(id: nat, userId: nat, songName: string, playedAt: int)

  datatype RoomParticipationRecord = RoomParticipationRecord(
    id: nat, userId: nat, roomCode: string, participatedAt: int)

  const DefaultNickname: string := "新用户"
  const PlaceholderAvatar: string := "https://placehold.co/80x80?text=VS"
  const AvatarUrlPrefix: string := "/static/uploads/avatars/"
  const MusicUrlPrefix: string := "/static/uploads/music/"

  /** `Room.code` is a `String(6)` column. */
  const RoomCodeWidth: nat := 6

  predicate IsAsciiDigit(c: char)
  {
    '0' <= c <= '9'
  }

  /** The shape of every room code: exactly six ASCII digits. */
  predicate IsRoomCode(s: string)
  {
    |s| == RoomCodeWidth && forall i :: 0 <= i < |s| ==> IsAsciiDigit(s[i])
  }

  /** The track columns are written and cleared together, and the stored
      position never goes below zero. */
  predicate RoomWellFormed(r: Room)
  {
    r.trackName.Some? == r.trackFile.Some? && r.position >= 0.0
  }

  /** A Room row as inserted: open, paused at 0.0 with no track, both
      timestamps taken from the insertion instant. */
  function NewRoom(id: nat, ownerId: nat, name: string, code: string, now: int): (r: Room)
    ensures RoomWellFormed(r)
    ensures r.isActive && r.status == Paused && r.position == 0.0
    ensures r.trackName == None && r.trackFile == None
    ensures r.updatedAt == Some(now) && r.createdAt == now
    ensures r.id == id && r.ownerId == ownerId && r.name == name && r.code == code
  {
    Room(id, ownerId, name, code, true, Paused, None, None, 0.0, now, Some(now))
  }

  /** A Music row as inserted by an upload: it waits for moderation. */
  function NewMusic(id: nat, userId: nat, title: string, original: string, stored: string, now: int): (m: Music)
    ensures m.status == Pending && m.rejectionReason == None
    ensures m.id == id && m.userId == userId && m.title == title
    ensures m.originalFilename == original && m.storedFilename == stored && m.uploadedAt == now
  {
    Music(id, userId, title, original, stored, Pending, None, now)
  }

  /** A User row as inserted by registration: default nickname, no avatar,
      no pending notice. */
  function NewUser(id: nat, username: string, passwordHash: string, isAdmin: bool): (u: User)
    ensures u.nickname == Some(DefaultNickname) && u.avatarPath == None && u.notification == None
    ensures u.id == id && u.username == username && u.passwordHash == passwordHash && u.isAdmin == isAdmin
  {
    User(id, username, passwordHash, isAdmin, Some(DefaultNickname), None, None)
  }

  /** `User.avatar_url`: the placeholder image when no avatar is stored,
      otherwise the avatar folder URL followed by the last component of the
      stored path, so no stored path can point outside that folder. */
  function AvatarUrl(u: User): (url: string)
    ensures (u.avatarPath == None || u.avatarPath == Some("")) ==> url == PlaceholderAvatar
    ensures u.avatarPath.Some? && u.avatarPath.value != "" ==>
      StartsWith(url, AvatarUrlPrefix) && '/' !in url[|AvatarUrlPrefix|..] &&
      url[|AvatarUrlPrefix|..] == PathName(u.avatarPath.value)
  {
    match u.avatarPath
    case Some(p) =>
      if p != "" then
        var name := PathName(p);
        assert (AvatarUrlPrefix + name)[|AvatarUrlPrefix|..] == name;
        AvatarUrlPrefix + name
      else PlaceholderAvatar
    case None => PlaceholderAvatar
  }

  /** An avatar stored under a bare file name is served under that name. */
  lemma AvatarUrlOfStoredName(u: User, stored: string)
    requires u.avatarPath == Some(stored) && stored != "" && '/' !in stored && stored != "."
    ensures AvatarUrl(u) == AvatarUrlPrefix + stored
  {
    PathNameOfBareName(stored);
  }

  /** `Music.file_url`: the music folder URL followed by the stored name,
      which can be read back from the URL. */
  function FileUrl(m: Music): (url: string)
    ensures StartsWith(url, MusicUrlPrefix) && url[|MusicUrlPrefix|..] == m.storedFilename
  {
    MusicUrlPrefix + m.storedFilename
  }

  /** The name shown for a chat author: `nickname or username`. */
  function DisplayName(u: User): (name: string)
    ensures u.nickname.Some? && u.nickname.value != "" ==> name == u.nickname.value
    ensures (u.nickname == None || u.nickname == Some("")) ==> name == u.username
  {
    match u.nickname
    case Some(n) => if n != "" then n else u.username
    case None => u.username
  }

  function MusicHasId(id: nat): Music -> bool
  {
    (m: Music) => m.id == id
  }

  /** `Music.query.get(id)`: the index of the row with that primary key, or
      -1 when there is none. */
  function FindMusic(musics: seq<Music>, id: nat): (k: int)
    ensures -1 <= k < |musics|
    ensures k >= 0 ==> musics[k].id == id
    ensures k >= 0 ==> forall j :: 0 <= j < k ==> musics[j].id != id
    ensures k == -1 <==> forall j :: 0 <= j < |musics| ==> musics[j].id != id
  {
    var k := FirstIndex(musics, MusicHasId(id));
    assert forall j :: 0 <= j < |musics| ==> (MusicHasId(id)(musics[j]) <==> musics[j].id == id);
    k
  }
}
