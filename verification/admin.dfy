/** The moderation pages of app/admin.py: approving and rejecting uploaded
    tracks, and the dashboard's two queues. Every route sits behind
    `login_required`, so `_admin_required` only ever refuses a signed-in
    user who is not an administrator. */
module Admin {
  import opened Common
  import opened Models
  import opened Store
  import opened Routes

  /** The reason stored when the reject form sends none. */
  const DefaultRejectionReason: string := "上传音乐涉及违规内容，已驳回删除"

  /** The notice the uploader sees on their next dashboard visit; it is the
      same fixed text whatever reason the administrator typed. */
  const RejectionNotice: string := "上传音乐涉及违规内容，已驳回删除"

  /** `approve_music`: 403 for a non-administrator, 404 for an unknown id;
      otherwise the track is approved and any earlier rejection reason is
      cleared. */
  function ApproveMusic(t: Tables, caller: User, musicId: nat): Step
  {
    if !caller.isAdmin then Step(t, Forbidden)
    else
      var j := FindMusic(t.musics, musicId);
      if j == -1 then Step(t, NotFound)
      else Step(t.(musics := t.musics[j := t.musics[j].(status := Approved, rejectionReason := None)]), Done)
  }

  /** `reject_music`: 403 and 404 as for approval; otherwise the track is
      marked rejected with the submitted reason (the default when the field
      is absent) and its uploader is sent the fixed notice. The track's
      file and row stay, and so do playlist entries that list it. */
  function RejectMusic(t: Tables, caller: User, musicId: nat, reason: Option<string>): Step
    requires ReferencesValid(t)
  {
    if !caller.isAdmin then Step(t, Forbidden)
    else
      var j := FindMusic(t.musics, musicId);
      if j == -1 then Step(t, NotFound)
      else
        var m := t.musics[j];
        var text := if reason.Some? then reason.value else DefaultRejectionReason;
        var k := UserIndex(t.users, m.userId);
        Step(t.(musics := t.musics[j := m.(status := Rejected, rejectionReason := Some(text))],
                users := t.users[k := t.users[k].(notification := Some(RejectionNotice))]), Done)
  }

  /** Only an administrator changes anything, and only when the track
      exists; approval then touches that one row, setting its status and
      clearing its reason, and leaves every other table as it was. */
  lemma ApproveMusicRule(t: Tables, caller: User, musicId: nat)
    ensures var s, j := ApproveMusic(t, caller, musicId), FindMusic(t.musics, musicId);
      && (!caller.isAdmin ==> s == Step(t, Forbidden))
      && (caller.isAdmin && j == -1 ==> s == Step(t, NotFound))
      && (s.outcome == Done <==> caller.isAdmin && exists m :: m in t.musics && m.id == musicId)
      && (s.outcome == Done ==>
            && |s.tables.musics| == |t.musics|
            && s.tables.musics[j].status == Approved && s.tables.musics[j].rejectionReason == None
            && s.tables.musics[j].(status := t.musics[j].status, rejectionReason := t.musics[j].rejectionReason)
               == t.musics[j]
            && (forall i :: 0 <= i < |t.musics| && i != j ==> s.tables.musics[i] == t.musics[i])
            && s.tables.(musics := t.musics) == t)
  {
    var j := FindMusic(t.musics, musicId);
    if caller.isAdmin && j == -1 {
      assert forall m :: m in t.musics ==> m.id != musicId;
    }
  }

  /** Rejection marks the track with the submitted or default reason and
      gives its uploader, and nobody else, the fixed notice; nothing else
      changes. */
  lemma RejectMusicRule(t: Tables, caller: User, musicId: nat, reason: Option<string>)
    requires ReferencesValid(t) && DistinctBy(t.users, UserRowId)
    ensures var s, j := RejectMusic(t, caller, musicId, reason), FindMusic(t.musics, musicId);
      && (!caller.isAdmin ==> s == Step(t, Forbidden))
      && (caller.isAdmin && j == -1 ==> s == Step(t, NotFound))
      && (s.outcome == Done <==> caller.isAdmin && j >= 0)
      && (s.outcome == Done ==>
            var m := t.musics[j];
            && |s.tables.musics| == |t.musics| && |s.tables.users| == |t.users|
            && s.tables.musics[j] == m.(status := Rejected,
                                        rejectionReason := Some(if reason.Some? then reason.value else DefaultRejectionReason))
            && (forall i :: 0 <= i < |t.musics| && i != j ==> s.tables.musics[i] == t.musics[i])
            && (forall i :: 0 <= i < |t.users| ==>
                  s.tables.users[i] == (if t.users[i].id == m.userId
                                        then t.users[i].(notification := Some(RejectionNotice))
                                        else t.users[i]))
            && s.tables.(musics := t.musics, users := t.users) == t)
  {
    var s, j := RejectMusic(t, caller, musicId, reason), FindMusic(t.musics, musicId);
    if s.outcome == Done {
      var k := UserIndex(t.users, t.musics[j].userId);
      forall i | 0 <= i < |t.users| && i != k ensures t.users[i].id != t.musics[j].userId {
        assert UserRowId(t.users[i]) != UserRowId(t.users[k]);
      }
    }
  }

  lemma ApproveMusicKeepsValid(t: Tables, caller: User, musicId: nat)
    requires Valid(t)
    ensures Valid(ApproveMusic(t, caller, musicId).tables)
  {
    var j := FindMusic(t.musics, musicId);
    if caller.isAdmin && j >= 0 {
      MusicUpdateKeepsValid(t, j, t.musics[j].(status := Approved, rejectionReason := None));
    }
  }

  lemma RejectMusicKeepsValid(t: Tables, caller: User, musicId: nat, reason: Option<string>)
    requires Valid(t)
    ensures Valid(RejectMusic(t, caller, musicId, reason).tables)
  {
    var j := FindMusic(t.musics, musicId);
    if caller.isAdmin && j >= 0 {
      var m := t.musics[j];
      var text := if reason.Some? then reason.value else DefaultRejectionReason;
      var t1 := t.(musics := t.musics[j := m.(status := Rejected, rejectionReason := Some(text))]);
      MusicUpdateKeepsValid(t, j, t1.musics[j]);
      var k := UserIndex(t.users, m.userId);
      UserUpdateKeepsValid(t1, k, t.users[k].(notification := Some(RejectionNotice)));
    }
  }

  /** An uploader whose track was rejected sees the fixed notice on their
      next dashboard visit, and only on that one. */
  lemma RejectionNoticeShownOnce(t: Tables, admin: User, musicId: nat, reason: Option<string>, owner: User)
    requires Valid(t) && admin.isAdmin && !owner.isAdmin
    requires FindMusic(t.musics, musicId) >= 0 && owner.id == t.musics[FindMusic(t.musics, musicId)].userId
    ensures var s := RejectMusic(t, admin, musicId, reason).tables;
      var first := TakeNotice(s, owner);
      && first.outcome == Notified(Some(RejectionNotice))
      && TakeNotice(first.tables, owner).outcome == Notified(None)
  {
    var s := RejectMusic(t, admin, musicId, reason).tables;
    var k := UserIndex(t.users, owner.id);
    RejectMusicRule(t, admin, musicId, reason);
    assert s.users[k].id == owner.id && s.users[k].notification == Some(RejectionNotice);
    forall i | 0 <= i < k ensures s.users[i].id != owner.id {
      assert UserRowId(t.users[i]) != UserRowId(t.users[k]);
    }
    assert FindUser(s.users, owner.id) == k;
    TakeNoticeOneShot(s, owner);
  }

  function HasStatus(status: MusicStatus): Music -> bool
  {
    (m: Music) => m.status == status
  }

  function OldestFirst(m: Music): int { m.uploadedAt }
  function NewestFirst(m: Music): int { -m.uploadedAt }

  /** The dashboard's moderation queue: every pending track, oldest upload
      first. */
  function PendingQueue(musics: seq<Music>): (q: seq<Music>)
    ensures forall m :: m in q <==> m in musics && m.status == Pending
    ensures forall i, j :: 0 <= i < j < |q| ==> q[i].uploadedAt <= q[j].uploadedAt
    ensures multiset(q) == multiset(Filter(musics, HasStatus(Pending)))
  {
    var q := SortBy(Filter(musics, HasStatus(Pending)), OldestFirst);
    SortByElements(Filter(musics, HasStatus(Pending)), OldestFirst);
    q
  }

  /** The dashboard's list of rejected tracks, newest upload first. */
  function RejectedList(musics: seq<Music>): (q: seq<Music>)
    ensures forall m :: m in q <==> m in musics && m.status == Rejected
    ensures forall i, j :: 0 <= i < j < |q| ==> q[i].uploadedAt >= q[j].uploadedAt
    ensures multiset(q) == multiset(Filter(musics, HasStatus(Rejected)))
  {
    var q := SortBy(Filter(musics, HasStatus(Rejected)), NewestFirst);
    SortByElements(Filter(musics, HasStatus(Rejected)), NewestFirst);
    q
  }

  datatype DashboardView = DashboardView(pending: seq<Music>, rejected: seq<Music>)

  /** `dashboard`: 403 (`None`) for a non-administrator, else both lists. */
  function Dashboard(t: Tables, caller: User): (v: Option<DashboardView>)
    ensures v.Some? <==> caller.isAdmin
  {
    if !caller.isAdmin then None
    else Some(DashboardView(PendingQueue(t.musics), RejectedList(t.musics)))
  }

  /** Approving a track takes it off the moderation queue and keeps the
      rest of the queue. */
  lemma ApprovalLeavesQueue(t: Tables, admin: User, musicId: nat)
    requires DistinctBy(t.musics, MusicRowId) && admin.isAdmin && FindMusic(t.musics, musicId) >= 0
    ensures var approved := ApproveMusic(t, admin, musicId).tables.musics;
      && (forall x :: x in PendingQueue(approved) ==> x.id != musicId)
      && (forall x :: x in PendingQueue(t.musics) && x.id != musicId ==> x in PendingQueue(approved))
  {
    var j := FindMusic(t.musics, musicId);
    var approved := ApproveMusic(t, admin, musicId).tables.musics;
    ApproveMusicRule(t, admin, musicId);
    forall x | x in approved && x.id == musicId ensures x.status == Approved {
      var i :| 0 <= i < |approved| && approved[i] == x;
      MusicRowUnique(t.musics, i, j);
    }
    forall x | x in t.musics && x.id != musicId ensures x in approved {
      var i :| 0 <= i < |t.musics| && t.musics[i] == x;
      assert approved[i] == x;
    }
  }

  /** Rejecting a track takes it off the moderation queue and puts it on
      the rejected list. */
  lemma RejectionMovesToList(t: Tables, admin: User, musicId: nat, reason: Option<string>)
    requires ReferencesValid(t) && DistinctBy(t.users, UserRowId) && DistinctBy(t.musics, MusicRowId)
    requires admin.isAdmin && FindMusic(t.musics, musicId) >= 0
    ensures var rejected := RejectMusic(t, admin, musicId, reason).tables.musics;
      && (forall x :: x in PendingQueue(rejected) ==> x.id != musicId)
      && (exists x :: x in RejectedList(rejected) && x.id == musicId)
  {
    var j := FindMusic(t.musics, musicId);
    var rejected := RejectMusic(t, admin, musicId, reason).tables.musics;
    RejectMusicRule(t, admin, musicId, reason);
    forall x | x in rejected && x.id == musicId ensures x.status == Rejected {
      var i :| 0 <= i < |rejected| && rejected[i] == x;
      MusicRowUnique(t.musics, i, j);
    }
    assert rejected[j] in rejected;
  }
}
