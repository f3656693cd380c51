/** The playback state machine of one Room record (app/routes.py): the
    owner's track switch, play, pause and stop, the open/close switch, the
    refresh of `updated_at` on every UPDATE of the row (app/models.py), and the
    position every participant derives lazily when it polls the room. Each
    transition is a function from the old record to the new one; the
    handlers in module Routes apply them to the Room table. */
module Playback {
  import opened Common
  import opened Models

  const MicrosPerSecond: real := 1000000.0

  /** The live position `room_state` reports: a playing room has advanced by
      the wall-clock time since `updatedAt`; any other room is where it was
      stored. */
  function DerivedPosition(r: Room, now: int): real
  {
    if r.status == Playing && r.updatedAt.Some? then
      r.position + (now - r.updatedAt.value) as real / MicrosPerSecond
    else r.position
  }

  /** Between two polls with no mutation in between, a playing room's position
      advances by exactly the elapsed time. */
  lemma PlayingPositionAdvances(r: Room, t1: int, t2: int)
    requires r.status == Playing && r.updatedAt.Some?
    ensures DerivedPosition(r, t2) - DerivedPosition(r, t1) == (t2 - t1) as real / MicrosPerSecond
    ensures t1 <= t2 ==> DerivedPosition(r, t1) <= DerivedPosition(r, t2)
  {
  }

  /** A paused room reports the same stored position at every instant. */
  lemma PausedPositionFrozen(r: Room, t1: int, t2: int)
    requires r.status == Paused
    ensures DerivedPosition(r, t1) == DerivedPosition(r, t2) == r.position
  {
  }

  /** The form fields of a toggle request. `musicId` is `None` when the field
      is absent or empty; `position` is `None` when it is absent or does not
      parse as a number. */
  datatype ToggleRequest = ToggleRequest(musicId: Option<nat>, action: string, position: Option<real>)

  /** The new record, the song name of the ListenRecord to append (if any),
      and whether the user is told the requested track cannot be played. */
  datatype ToggleEffect = ToggleEffect(room: Room, listened: Option<string>, unplayable: bool)

  function SwitchTrack(r: Room, m: Music, now: int): Room
  {
    r.(trackName := Some(m.title), trackFile := Some(m.storedFilename),
       status := Playing, position := 0.0, updatedAt := Some(now))
  }

  function StopPlayback(r: Room, now: int): Room
  {
    r.(status := Paused, trackName := None, trackFile := None, position := 0.0, updatedAt := Some(now))
  }

  function PlayOrPause(r: Room, play: bool, position: Option<real>, now: int): Room
  {
    var moved := if position.Some? && position.value >= 0.0 then position.value else r.position;
    r.(status := if play then Playing else Paused, position := moved, updatedAt := Some(now))
  }

  /** `toggle_playback` after the owner check: a non-empty music id is a
      track switch and nothing else; only without one is the action read. */
  function Toggle(r: Room, req: ToggleRequest, musics: seq<Music>, now: int): ToggleEffect
  {
    match req.musicId
    case Some(id) =>
      var k := FindMusic(musics, id);
      if k >= 0 && musics[k].status == Approved then
        ToggleEffect(SwitchTrack(r, musics[k], now), Some(musics[k].title), false)
      else ToggleEffect(r, None, true)
    case None =>
      if req.action == "stop" then ToggleEffect(StopPlayback(r, now), None, false)
      else if req.action == "play" || req.action == "pause" then
        ToggleEffect(PlayOrPause(r, req.action == "play", req.position, now), None, false)
      else ToggleEffect(r, None, false)
  }

  /** Switching to an existing approved track loads it from the music row,
      starts it from 0.0 at `now` and logs exactly one listen; the action and
      position fields play no part. */
  lemma ToggleSwitchesApprovedTrack(r: Room, req: ToggleRequest, musics: seq<Music>, now: int, k: nat)
    requires req.musicId.Some? && k < |musics| && musics[k].id == req.musicId.value
    requires musics[k].status == Approved
    requires forall j :: 0 <= j < k ==> musics[j].id != req.musicId.value
    ensures var e := Toggle(r, req, musics, now);
      && e.room.trackName == Some(musics[k].title)
      && e.room.trackFile == Some(musics[k].storedFilename)
      && e.room.status == Playing && e.room.position == 0.0 && e.room.updatedAt == Some(now)
      && e.room.isActive == r.isActive && e.room.ownerId == r.ownerId && e.room.code == r.code
      && e.listened == Some(musics[k].title) && !e.unplayable
      && DerivedPosition(e.room, now) == 0.0
  {
  }

  /** A missing or non-approved track leaves every field of the record as it
      was and logs no listen. */
  lemma ToggleRefusesUnplayableTrack(r: Room, req: ToggleRequest, musics: seq<Music>, now: int)
    requires req.musicId.Some?
    requires forall j :: 0 <= j < |musics| && musics[j].id == req.musicId.value ==> musics[j].status != Approved
    ensures Toggle(r, req, musics, now) == ToggleEffect(r, None, true)
  {
  }

  /** With a music id present, whatever the action and position fields say is
      ignored. */
  lemma ToggleMusicIdTakesPrecedence(r: Room, req: ToggleRequest, action: string, position: Option<real>,
                                     musics: seq<Music>, now: int)
    requires req.musicId.Some?
    ensures Toggle(r, req, musics, now) == Toggle(r, ToggleRequest(req.musicId, action, position), musics, now)
  {
  }

  /** Stop leaves a paused room with no track at 0.0, stamped `now`; nothing
      else about the room changes. */
  lemma ToggleStop(r: Room, req: ToggleRequest, musics: seq<Music>, now: int)
    requires req.musicId.None? && req.action == "stop"
    ensures var e := Toggle(r, req, musics, now);
      && e.room.status == Paused && e.room.trackName == None && e.room.trackFile == None
      && e.room.position == 0.0 && e.room.updatedAt == Some(now)
      && e.room.(status := r.status, trackName := r.trackName, trackFile := r.trackFile,
                 position := r.position, updatedAt := r.updatedAt) == r
      && e.listened == None && !e.unplayable
  {
  }

  /** Play and pause set the status, overwrite the position only with a
      parsed non-negative one (otherwise the stale stored position stays),
      keep the track, and always restamp `updatedAt`. */
  lemma TogglePlayPause(r: Room, req: ToggleRequest, musics: seq<Music>, now: int)
    requires req.musicId.None? && (req.action == "play" || req.action == "pause")
    ensures var e := Toggle(r, req, musics, now);
      && e.room.status == (if req.action == "play" then Playing else Paused)
      && e.room.position == (if req.position.Some? && req.position.value >= 0.0 then req.position.value else r.position)
      && e.room.updatedAt == Some(now)
      && e.room.trackName == r.trackName && e.room.trackFile == r.trackFile
      && e.room.isActive == r.isActive
      && e.listened == None && !e.unplayable
  {
  }

  /** Without a music id, any action other than play, pause and stop changes
      nothing. */
  lemma ToggleUnknownActionIsNoop(r: Room, req: ToggleRequest, musics: seq<Music>, now: int)
    requires req.musicId.None? && req.action != "play" && req.action != "pause" && req.action != "stop"
    ensures Toggle(r, req, musics, now) == ToggleEffect(r, None, false)
  {
  }

  /** Every toggle keeps the room's key, code and owner, keeps the track
      columns paired and the position non-negative; a listen is logged
      exactly when the record switched track; and whenever the record
      changed it was stamped `now`. */
  lemma ToggleKeepsRoomWellFormed(r: Room, req: ToggleRequest, musics: seq<Music>, now: int)
    requires RoomWellFormed(r)
    ensures var e := Toggle(r, req, musics, now);
      && RoomWellFormed(e.room)
      && e.room.id == r.id && e.room.code == r.code && e.room.ownerId == r.ownerId
      && (e.listened.Some? ==> e.room.trackName == e.listened && e.room.status == Playing)
      && (e.room != r ==> e.room.updatedAt == Some(now))
      && (e.unplayable ==> e.room == r && e.listened.None?)
  {
  }

  /** The effect of committing a modified Room row: SQLAlchemy emits an
      UPDATE only when some column changed, and every UPDATE sets
      `updated_at` to the current instant (`onupdate=datetime.utcnow`). */
  function Commit(before: Room, after: Room, now: int): (r: Room)
    ensures r == before || r == after.(updatedAt := Some(now))
  {
    if after == before then before else after.(updatedAt := Some(now))
  }

  /** The commit of a toggle writes exactly what the toggle computed: the
      handler stamps `updated_at` itself whenever it changes the row. */
  lemma CommitOfToggle(r: Room, req: ToggleRequest, musics: seq<Music>, now: int)
    ensures var e := Toggle(r, req, musics, now);
      Commit(r, e.room, now) == e.room
  {
  }

  /** `room_availability` after the owner check: `None` for an unknown
      action, which changes nothing. */
  function SetAvailability(r: Room, action: string): Option<Room>
  {
    if action == "close" then Some(r.(isActive := false, status := Paused))
    else if action == "open" then Some(r.(isActive := true))
    else None
  }

  /** Closing pauses the room and shuts it but keeps its track and stored
      position; the row change also restamps `updatedAt` unless the room was
      already closed and paused. */
  lemma CloseKeepsTrack(r: Room, now: int)
    ensures SetAvailability(r, "close").Some?
    ensures var c := Commit(r, SetAvailability(r, "close").value, now);
      && !c.isActive && c.status == Paused
      && c.trackName == r.trackName && c.trackFile == r.trackFile && c.position == r.position
      && (r.isActive || r.status == Playing ==> c.updatedAt == Some(now))
      && (!r.isActive && r.status == Paused ==> c == r)
  {
  }

  /** Closing a playing room does not save its live position: afterwards every
      poll reports the position stored at the last toggle, so the time played
      since then is lost and a later reopen resumes (paused) from there. */
  lemma CloseDropsLiveProgress(r: Room, now: int, later: int)
    requires r.status == Playing && r.updatedAt.Some? && r.updatedAt.value < now
    ensures var c := Commit(r, SetAvailability(r, "close").value, now);
      DerivedPosition(c, later) == r.position < DerivedPosition(r, now)
  {
  }

  /** Opening shuts nothing and starts nothing: only `isActive` changes, and
      reopening an open room is no UPDATE at all. */
  lemma OpenOnlyActivates(r: Room, now: int)
    ensures SetAvailability(r, "open").Some?
    ensures var o := Commit(r, SetAvailability(r, "open").value, now);
      && o.isActive && o.status == r.status && o.trackName == r.trackName
      && o.position == r.position
      && (r.isActive ==> o == r)
      && (!r.isActive ==> o.updatedAt == Some(now))
  {
  }

  lemma UnknownAvailabilityAction(r: Room, action: string)
    requires action != "close" && action != "open"
    ensures SetAvailability(r, action) == None
  {
  }

  /** Opening and closing keep the record well formed. */
  lemma AvailabilityKeepsRoomWellFormed(r: Room, action: string, now: int)
    requires RoomWellFormed(r) && SetAvailability(r, action).Some?
    ensures RoomWellFormed(Commit(r, SetAvailability(r, action).value, now))
  {
  }

  /** The walk-through of a listening session: switch to an approved track
      at `t0`, read 5 seconds later, pause there at `t1`, read at any later
      instant, then stop. */
  lemma SessionScenario(r: Room, musics: seq<Music>, k: nat, t0: int, t1: int, t2: int)
    requires k < |musics| && musics[k].status == Approved
    requires forall j :: 0 <= j < k ==> musics[j].id != musics[k].id
    requires t1 >= t0 && t2 >= t1
    ensures var playing := Toggle(r, ToggleRequest(Some(musics[k].id), "", None), musics, t0).room;
      && playing.trackName == Some(musics[k].title) && playing.status == Playing
      && DerivedPosition(playing, t0) == 0.0
      && DerivedPosition(playing, t0 + 5000000) == 5.0
      && var paused := Toggle(playing, ToggleRequest(None, "pause", Some(5.0)), musics, t1).room;
      && paused.status == Paused && DerivedPosition(paused, t2) == 5.0
      && var stopped := Toggle(paused, ToggleRequest(None, "stop", None), musics, t2).room;
      && stopped.trackName == None && stopped.trackFile == None
      && stopped.status == Paused && DerivedPosition(stopped, t2) == 0.0
  {
    assert FindMusic(musics, musics[k].id) == k;
  }
}
