# voice_share room engine in Dafny

voice_share is a Flask application for listening to music together. Users
upload MP3 tracks, and an administrator approves or rejects each one. A user
owns up to three "rooms", each with a six-digit code. The owner of a room
plays approved tracks, pauses and stops them, and keeps a playlist. Other
users join by code, chat, and follow the owner's playback by polling the
room's state. This project models that core as Dafny and proves what it
promises.

What the model covers:

- **The rows of the database** (`Models`, `Store`). Users, tracks, rooms,
  memberships, chat messages, playlist entries, listen records and
  participation records are datatypes with the defaults a new row gets. The
  tables together form one value, `Tables`. The predicate `Valid` gathers
  the schema's integrity rules: unique keys, unique names and codes,
  `uniq_room_member`, resolving foreign keys, and at most three rooms per
  owner. The live tables are the fields of the class `Database`.
- **Each request handler** of `app/routes.py`, `app/admin.py` and
  `app/auth.py`, written twice.
  - It is a pure step function from the tables before the request to the
    tables after it, plus the reply (`Routes`, `Admin`, `Auth`). Rule
    lemmas state when the handler changes what. `…KeepsValid` lemmas show
    that every handler preserves `Valid`.
  - It is also an imperative method on a `Database` (`Handlers`) that does
    the source's steps in the source's order. Each method is proved to
    leave the database exactly as its step function says, and to return the
    same reply.
- **The playback record of a room** (`Playback`). Every poll derives the
  live position as the stored position plus the time elapsed since
  `updated_at`. The model includes the transitions for switching track,
  play, pause, stop, open and close, and SQLAlchemy's `onupdate` stamp.
- **The form validators** (`Forms`), **the upload checks and stored file
  names** (`Uploads`), and **the login limiter**, a class over a map from
  name to failure instants (`Limiter`).
- **The decision rules of the room page's script** (`Client`):
  - HTML escaping;
  - clock formatting;
  - the owner's auto-advance when a track ends;
  - the drift thresholds that decide when the player jumps;
  - the chat log's de-duplication by message id.

Time is an integer count of microseconds. Positions are real seconds. The
clock, the random draws of room codes, password hashing and the sanitised
upload name are parameters.

## Model

| member | source | states |
|---|---|---|
| Common.Filter | app/routes.py:393-403 | The result holds exactly the rows of the input that satisfy the predicate and is never longer than the input (the `filter_by` of every query). |
| Common.LastN | app/routes.py:393-403 | The last `n` elements of a sequence in their original order (`order_by(desc).limit(n)` then `reversed`). |
| Common.SortBy | app/admin.py:19-20 | The result is sorted by the key and is a permutation of the input (`order_by`). |
| Common.StripIsTrim | app/routes.py:99-101 | `strip()` removes whitespace and nothing else. The result is the slice of the input after its leading whitespace, has no whitespace at either end, and everything cut off is whitespace. |
| Common.BlankIffAllSpace | app/forms.py:30 | A value is blank for `DataRequired` exactly when every character is whitespace. |
| Common.PathName | app/models.py:33-37 | The final component of a path (`Path(p).name`) contains no `/` and is never ".". |
| Common.JoinSplit | app/models.py:33-37 | Splitting a path on `/` loses nothing: joining the parts again gives the original path. |
| Models.NewRoom | app/models.py:61-72 | A new room is open, paused at 0.0, has no track, is stamped at creation, and is well formed. |
| Models.NewMusic | app/models.py:45-55 | A new track is pending, has no rejection reason, and keeps the given title and file names. |
| Models.NewUser | app/models.py:16-23 | A new user gets the default nickname, no avatar and no notice. |
| Models.AvatarUrl | app/models.py:33-37 | Without a stored avatar the URL is the placeholder. Otherwise it is the avatar folder followed by the final component of the stored path, which holds no `/`. |
| Models.AvatarUrlOfStoredName | app/models.py:33-37 | An avatar stored under a bare name is served under that name. |
| Models.FileUrl | app/models.py:57-58 | The URL is the music folder followed by the stored name, and the stored name can be read back from it. |
| Models.DisplayName | app/routes.py:393-403 | The author name shown is the nickname when one is set, else the username. |
| Models.FindMusic | app/routes.py:444-445 | `Music.query.get`: the first row with the id, or -1 exactly when no row has it. |
| Store.NextRowId | app/models.py:16-23 | A new primary key is at least 1, above every key in use, and one more than some key when the table is not empty. |
| Store.FindRoom | app/routes.py:197 | The first room with the code, or -1 exactly when no room has it. |
| Store.FindMember | app/routes.py:214 | The first membership of the (room, user) pair, or -1 exactly when there is none. |
| Store.UserIndex | app/admin.py:44 | Loading a user whose id is referenced always succeeds. |
| Store.EmptyTables | app/models.py:102-110 | The empty database satisfies every integrity rule. |
| Store.RoomUpdateKeepsValid | app/models.py:61-72 | Rewriting one room's playback columns in a well-formed way keeps every rule. |
| Store.MusicRowUnique | app/models.py:45-55 | Two distinct rows of the music table have distinct ids. |
| Store.AppendJoinKeepsValid | app/models.py:102-110 | A membership for a new (room, user) pair, the join message and a participation record, each under a fresh key and pointing at an existing user and room, keep every rule. |
| Store.LeaveMemberKeepsValid | app/models.py:92-110 | Deleting one membership together with appending a parting message, under a fresh key, by an existing user in an existing room, keeps every rule. |
| Store.AppendMessageKeepsValid | app/models.py:92-96 | A chat message under a fresh key, by an existing user in an existing room, keeps every rule. |
| Store.AppendListenKeepsValid | app/models.py:115-118 | A listen record under a fresh key for an existing user keeps every rule. |
| Store.AppendParticipationKeepsValid | app/models.py:124-128 | A participation record under a fresh key for an existing user keeps every rule. |
| Store.FindUserUpdate | app/models.py:16-23 | Rewriting a user's row under the same key does not change which row `User.query.get` finds. |
| Store.Database.constructor | app/models.py:9-128 | A new database is empty and valid. |
| Playback.PlayingPositionAdvances | app/routes.py:387-390 | While a room plays, the position a poll reports advances by exactly the elapsed time. |
| Playback.PausedPositionFrozen | app/routes.py:387-390 | A paused room reports its stored position at every instant. |
| Playback.ToggleSwitchesApprovedTrack | app/routes.py:443-453 | Switching to an approved track loads its title and file, plays it from 0.0 stamped now, logs one listen, and ignores the action field. |
| Playback.ToggleRefusesUnplayableTrack | app/routes.py:443-453 | A missing or unapproved track changes nothing, logs no listen and is reported as unplayable. |
| Playback.ToggleMusicIdTakesPrecedence | app/routes.py:443-456 | Whenever a music id is present, the action and position fields make no difference. |
| Playback.ToggleStop | app/routes.py:456-468 | Stop clears the track and pauses at 0.0 stamped now; no other column changes. |
| Playback.TogglePlayPause | app/routes.py:456-468 | Play and pause set the status. Only a parsed, non-negative position is stored; the track is kept and the row is restamped. |
| Playback.ToggleUnknownActionIsNoop | app/routes.py:456-468 | Any other action without a music id changes nothing. |
| Playback.ToggleKeepsRoomWellFormed | app/routes.py:443-468 | Every toggle keeps the room's key, code and owner, keeps the track columns paired and keeps the position non-negative. A listen is logged only together with a switch, and any change is stamped now. |
| Playback.Commit | app/models.py:11-13 | A commit either leaves the row alone or writes the new row stamped now. |
| Playback.CommitOfToggle | app/routes.py:427-471 | Committing a toggle writes exactly the record the toggle computed. |
| Playback.CloseKeepsTrack | app/routes.py:317-336 | Closing shuts and pauses the room but keeps its track and stored position. It restamps the row unless the room was already closed and paused. |
| Playback.CloseDropsLiveProgress | app/routes.py:317-336 | Closing a playing room discards the progress made since the last toggle. |
| Playback.OpenOnlyActivates | app/routes.py:317-336 | Opening changes only `is_active`; reopening an open room writes nothing. |
| Playback.UnknownAvailabilityAction | app/routes.py:317-336 | An action other than open or close gives no new record. |
| Playback.AvailabilityKeepsRoomWellFormed | app/routes.py:317-336 | Opening and closing keep the record well formed. |
| Playback.SessionScenario | app/routes.py:387-468 | The sequence switch, then read 5 s later (5.0), then pause at 5.0 (frozen), then stop (no track, 0.0) behaves as described. |
| Forms.RoomCodePatternAcceptsTrailingNewline | app/forms.py:83-86 | The written pattern `^[0-9]{6}$` accepts "123456\n", which is not six digits. |
| Forms.UsernamePatternAcceptsTrailingNewline | app/forms.py:28-31 | The written pattern `^[a-zA-Z0-9_]+$` accepts "alice\n". |
| Forms.RoomCodeFieldIsSixDigits | app/forms.py:83-86 | The intended join-code rule accepts exactly six-digit codes. |
| Forms.RoomCodePatternDifference | app/forms.py:83-86 | The written pattern accepts every six-digit code. The only extra values it accepts are seven characters long and end in a newline. |
| Forms.UsernameFieldRule | app/forms.py:28-31 | The intended username rule accepts exactly 4 to 32 word characters. |
| Forms.RoleNamesAreDisjoint | app/forms.py:48-57 | No username is acceptable both for an administrator and for an ordinary user. |
| Forms.RegistrationRules | app/forms.py:27-57 | A valid registration has a username of 4-32 characters that fits the prefix rule of its role, and a confirmed password of 6-64 characters. |
| Forms.AdminRegistrationForcesRole | app/forms.py:90-95 | The submitted role makes no difference to the admin form, and every name it accepts starts with `admin_` and has at least 8 characters. |
| Uploads.SuffixDot | app/utils.py:34-35 | The suffix starts at the last dot, provided that dot is neither the first nor the last character; otherwise there is no suffix. |
| Uploads.Stem | app/utils.py:92 | The stem followed by the suffix is the name. |
| Uploads.StripLeading | app/utils.py:35 | `lstrip(c)` removes exactly a leading run of `c`. |
| Uploads.ExtractExtensionShape | app/utils.py:34-35 | The extension is the text after the last proper dot of the final component with A to Z lowered, or "". It never contains a dot or a slash, and lowering it again changes nothing. |
| Uploads.AllowedFile | app/utils.py:38-41 | An empty file name is never allowed. |
| Uploads.AllowedFileBySuffix | app/utils.py:38-41 | A name is allowed exactly when its final component has a suffix whose lower-cased text is in the allowed set. |
| Uploads.NoSuffixNotAllowed | config.py:18-19 | A name without a suffix passes neither the music list nor the avatar list. |
| Uploads.SaveMusic | app/utils.py:62-96 | A file is saved only when it is present, has an allowed extension and is at most 50 MB, and then under a name starting `music_<stamp>_`. |
| Uploads.MusicStoredName | app/utils.py:92-93 | The stored name starts with `music_<stamp>_`. |
| Uploads.SaveMusicCheckOrder | app/utils.py:62-90 | Each error is returned exactly when every earlier check passed and this one failed (no extension, then not mp3, then MIME type, then size). |
| Uploads.StoredNameKeepsExtension | app/utils.py:92-93 | Reading the extension back from a stored name gives the checked extension, and the name holds no `/`. |
| Uploads.SavedMusicIsMp3 | app/utils.py:62-96 | A stored music file is a bare name whose extension is mp3, so it passes the same check again. |
| Uploads.SaveAvatar | app/utils.py:44-59 | An avatar is saved exactly when it is present, is an image and is at most 5 MB, and then under `avatar_<stamp>_<name>`. |
| Uploads.AvatarSizeBound | app/utils.py:50-54 | 5·1024·1024 bytes are accepted; one byte more is refused. |
| Uploads.RoomCodeOf | app/utils.py:99-100 | Six digit draws give a six-digit code whose digits are the draws. |
| Uploads.EveryRoomCodeIsDrawn | app/utils.py:99-100 | Every six-digit code can be drawn. |
| Uploads.RoomCodeDrawsInjective | app/utils.py:99-100 | Different draws give different codes. |
| Routes.AttachRefusesClosedOrOwner | app/routes.py:209-212 | Attaching to a closed room, or attaching the room's owner, changes nothing. |
| Routes.AttachMembershipRule | app/routes.py:209-228 | Afterwards the user is a member. One membership and one join message are added exactly when the user was new. A participation record is added exactly when requested or when the membership is new. Nothing else changes. |
| Routes.AttachIdempotent | app/routes.py:209-228 | A second attach without a record changes nothing. |
| Routes.AttachKeepsValid | app/routes.py:209-228 | Attaching keeps every integrity rule. |
| Routes.JoinRoomRule | app/routes.py:188-206 | A join succeeds exactly for a non-administrator with a six-digit code of an existing open room, and then the caller is a member. A failed join changes nothing. |
| Routes.RoomDetailRule | app/routes.py:231-263 | A visit to an open room by someone other than its owner opens the page and makes the visitor a member. A visitor who was already a member changes nothing, and neither does a second visit. |
| Routes.LeaveRoomRule | app/routes.py:293-314 | The owner cannot leave and a non-member changes nothing. A member leaving loses the membership, keeps every other membership, and adds one parting message. |
| Routes.LeaveRoomKeepsValid | app/routes.py:293-314 | Leaving keeps every integrity rule. |
| Routes.OwnerGates | app/routes.py:317-499 | Every owner-only handler answers 404 for an unknown code and 403 to anyone but the owner, without changing anything. |
| Routes.RoomAvailabilityRule | app/routes.py:317-336 | For the owner, close and open behave as the Playback lemmas state, only that room changes, and any other action is refused. |
| Routes.RoomAvailabilityKeepsValid | app/routes.py:317-336 | Opening and closing keep every integrity rule. |
| Routes.DeleteRoomCascade | app/routes.py:339-351 | Deleting a room removes it and exactly the messages, memberships and playlist entries of that room; every other row stays, and the code no longer finds a room. |
| Routes.DeleteRoomKeepsValid | app/routes.py:339-351 | Deleting a room keeps every integrity rule, including references. |
| Routes.FirstFreeDraw | app/routes.py:151-155 | The chosen draw is free, and every earlier draw was taken. |
| Routes.CreateRoomQuota | app/routes.py:158-185 | A room is created exactly when the caller is not an administrator, the name is valid and the caller owns fewer than three rooms. A creation adds one to the caller's count only. A fourth room is always refused, and a refusal changes nothing. |
| Routes.CreateRoomRule | app/routes.py:158-185 | The new room is open, paused, empty and owned by the caller. Its code is the first free draw and now finds it. One participation record is added, and nothing else changes. |
| Routes.CreateRoomKeepsValid | app/routes.py:158-185 | Creating a room for a signed-in user keeps every integrity rule, the three-room quota and the owner reference included. |
| Routes.CreateRoomShape | app/routes.py:176-183 | Creation appends exactly one room and one participation record. The room is well formed, has a fresh code and a fresh key, and belongs to the caller; the record is the caller's, for that code, under a fresh key. |
| Routes.AddToPlaylistRule | app/routes.py:267-290 | An entry is added exactly when the room exists and the caller owns an approved track with that id. Ownership and openness of the room are not checked. Only the playlist changes. |
| Routes.AddToPlaylistKeepsValid | app/routes.py:267-290 | Adding an entry keeps every integrity rule. |
| Routes.DeleteFromPlaylistRule | app/routes.py:487-499 | For the owner, exactly the entry with that id is removed when it belongs to this room; otherwise nothing changes. The reply is success every time. |
| Routes.DeleteFromPlaylistKeepsValid | app/routes.py:487-499 | Removing an entry keeps every integrity rule. |
| Routes.SendMessageRule | app/routes.py:474-484 | A message is stored exactly when the room exists and the content is not blank, and it is stored stripped. No membership or open-room check is made. |
| Routes.SendMessageKeepsValid | app/routes.py:474-484 | Posting keeps every integrity rule. |
| Routes.TogglePlaybackRule | app/routes.py:427-471 | For the owner, the room becomes the record the toggle computes. One listen is logged under the track's title exactly when an approved track was switched to. |
| Routes.TogglePlaybackKeepsValid | app/routes.py:427-471 | A toggle keeps every integrity rule. |
| Routes.DeleteMusicCascade | app/routes.py:117-128 | A track is deleted exactly when the caller uploaded it. Afterwards no row has its id and no playlist entry in any room lists it; everything else stays. |
| Routes.DeleteMusicKeepsValid | app/routes.py:117-128 | Deleting a track keeps every integrity rule, references included. |
| Routes.UploadTitle | app/routes.py:99-101 | The stored title is never empty, and it is the stripped form title whenever that is not blank. |
| Routes.UploadMusicRule | app/routes.py:84-114 | A track is added exactly when the form and `save_music` accept it. It is pending, belongs to the caller, and is stored under the upload stamp. Nothing else changes. |
| Routes.UploadMusicKeepsValid | app/routes.py:84-114 | An upload keeps every integrity rule. |
| Routes.TakeNoticeOneShot | app/routes.py:51-55 | A pending notice is shown once and cleared in the same visit, touching nothing else. The next visit shows nothing. |
| Routes.TakeNoticeKeepsValid | app/routes.py:51-55 | Clearing a notice keeps every integrity rule. |
| Routes.ViewMessages | app/routes.py:393-403 | One view per message in order, with its id, content, time, and the author's display name and avatar. |
| Routes.ViewEntries | app/routes.py:406-412 | One view per playlist entry in order, with its id, track id and the track's title. |
| Routes.RecentMessages | app/routes.py:393-397 | Every polled message belongs to the room. |
| Routes.RoomStateGates | app/routes.py:379-386 | A poll answers 404 exactly for an unknown code and 403 exactly for a closed room polled by a non-owner. |
| Routes.RoomStateSnapshot | app/routes.py:387-424 | A snapshot copies the playback columns, reports the derived position and the room's whole playlist in order, and counts the members plus the owner. |
| Routes.ChatWindowIsRecent | app/routes.py:393-403 | The chat holds the room's last min(50, n) messages, in order. |
| Routes.ChatWindowIdsDistinct | app/models.py:92-93 | Message keys are unique, so no chat window carries the same message id twice. |
| Routes.RoomStateOverTime | app/routes.py:379-424 | Over time a paused room's snapshot does not change, and a playing room's changes only in a position that advances by the elapsed time. |
| Admin.ApproveMusicRule | app/admin.py:24-33 | Only an administrator approves, and only an existing track. Approval sets that row's status and clears its reason, and nothing else changes. |
| Admin.RejectMusicRule | app/admin.py:36-48 | Rejection marks the track with the submitted or default reason and gives its uploader, and nobody else, the fixed notice. Nothing else changes. |
| Admin.ApproveMusicKeepsValid | app/admin.py:24-33 | Approval keeps every integrity rule. |
| Admin.RejectMusicKeepsValid | app/admin.py:36-48 | Rejection keeps every integrity rule. |
| Admin.RejectionNoticeShownOnce | app/admin.py:45 | After a rejection the uploader's next dashboard visit shows the notice, and the one after shows nothing. |
| Admin.PendingQueue | app/admin.py:19 | The queue holds exactly the pending tracks, is a permutation of them, and runs oldest upload first. |
| Admin.RejectedList | app/admin.py:20 | The list holds exactly the rejected tracks, is a permutation of them, and runs newest upload first. |
| Admin.Dashboard | app/admin.py:15-21 | Only an administrator gets the dashboard. |
| Admin.ApprovalLeavesQueue | app/admin.py:19-33 | Approving takes the track off the queue and keeps the rest of it. |
| Admin.RejectionMovesToList | app/admin.py:19-48 | Rejecting moves the track from the queue to the rejected list. |
| Limiter.Recent | app/utils.py:17-19 | The pruned list holds exactly the failures less than 60 s old. |
| Limiter.RecentIdempotent | app/utils.py:15-23 | Pruning twice is pruning once. |
| Limiter.RecentLater | app/utils.py:15-23 | Pruning early loses nothing a later check would keep. |
| Limiter.TwoRecentFailuresLock | app/utils.py:21-22 | Two failures within the last minute lock the name out. |
| Limiter.LockExpires | app/utils.py:17-23 | Once every failure is a minute old, the name may try again. |
| Limiter.FailedLogins.constructor | app/utils.py:10 | The limiter starts with no entries. |
| Limiter.FailedLogins.CanAttemptLogin | app/utils.py:15-23 | The name's list is replaced by its recent part, and the attempt is allowed exactly when fewer than two recent failures remain. |
| Limiter.FailedLogins.RecordFailedLogin | app/utils.py:26-27 | One failure at now is appended to the name's list. |
| Limiter.FailedLogins.ClearFailedLogins | app/utils.py:30-31 | The name's entry is removed and every other entry stays. |
| Limiter.CheckThenFailure | app/utils.py:15-27 | A check followed by a failure leaves the recent failures plus the new one, and a check never lengthens a list. |
| Limiter.ClearedNameMayAttempt | app/utils.py:15-31 | After a name's failures are cleared, its next check is allowed and leaves it an empty list; other names are untouched. |
| Auth.FindAccount | app/auth.py:45 | The first account with that name and role, or -1 exactly when there is none. |
| Auth.RegisterRule | app/auth.py:12-32 | A user is added exactly when nobody is signed in, the form is valid and the name is free. The account is an administrator exactly when the role is "admin", gets a fresh key, and is signed in. |
| Auth.AdminRegisterRule | app/auth.py:68-83 | The admin form only creates administrators with an `admin_` name of at least 8 characters, and never signs anyone in. |
| Auth.RegisteredUserIsFound | app/auth.py:12-53 | A newly registered ordinary user is the account the login finds under that name, with the stored hash; the admin login finds no account under it. |
| Auth.RegisterShape | app/auth.py:12-83 | A registration either changes nothing or appends the one new user. |
| Auth.RegisterKeepsValid | app/auth.py:12-32 | Registration keeps every integrity rule, unique names included. |
| Auth.AdminRegisterKeepsValid | app/auth.py:68-83 | Admin registration keeps every integrity rule. |
| Auth.AdminLogin | app/auth.py:86-98 | A signed-in administrator is sent to the admin dashboard, and otherwise an invalid form is refused. A valid form signs in exactly when the first administrator account with that name has a password that verifies, and then as that account; any other attempt gets bad credentials. The limiter is never consulted. |
| Auth.Login | app/auth.py:35-53 | A locked-out name is refused whatever the password. Only a matching ordinary account signs in, and that clears the name's failures; any other attempt records one failure. A signed-in ordinary user is sent home untouched. |
| Auth.LockoutAfterTwoFailures | app/auth.py:35-53 | Two wrong passwords within a minute make the third attempt fail as throttled, even with the right password. |
| Client.EscapeHtml | static/js/main.js:414 | The escaped text contains no `<`, `>`, `"` or `'`, and empty text comes back unchanged. |
| Client.EscapeHtmlConcat | static/js/main.js:414 | Escaping distributes over concatenation. |
| Client.EscapeHtmlIsPerCharacter | static/js/main.js:414 | The chain of replacements, with `&` first, equals escaping each character once. |
| Client.EscapeHtmlRoundTrip | static/js/main.js:414 | Unescaping escaped text gives back the text. |
| Client.FormatTime | static/js/main.js:415 | Zero, NaN and Infinity give "00:00". A non-negative time gives digits, a colon and two digits below 60. |
| Client.FormatTimeReadsBack | static/js/main.js:415 | For a non-negative time, 60·minutes + seconds as displayed is its whole number of seconds. |
| Client.ClockSplit | static/js/main.js:415 | JavaScript's `%` agrees with the floored remainder on non-negative input, so minutes and seconds split the whole seconds. |
| Client.PlayingIndex | static/js/main.js:166 | The first entry whose title is the current track, or -1 exactly when there is none. |
| Client.NextTrack | static/js/main.js:162-188 | Listeners send nothing. The owner asks for the entry right after the first playing mark when one follows, and for stop otherwise. |
| Client.EndOfPlaylistStops | static/js/main.js:171-179 | When the track that ended is the last entry and no earlier entry has its title, the owner stops. |
| Client.AdvanceFollowsPlayingMark | static/js/main.js:166-174 | The owner advances to the entry after the first marked one. |
| Client.RepeatedTitleLoops | static/js/main.js:166-174 | Matching by title makes the queue [a, b, a] replay b after its last entry. |
| Client.Tolerance | static/js/main.js:298-308 | The tolerance is 0.5 s exactly while paused, 5 s exactly for an owner whose audio is running, and 2 s otherwise. |
| Client.ShouldResync | static/js/main.js:298-308 | The player jumps exactly when it is more than the tolerance away from the server position, ahead or behind. |
| Client.ResyncSymmetric | static/js/main.js:298-308 | Only the size of the drift matters, not its direction, and no drift of half a second or less ever moves the player. |
| Client.ToleranceOrder | static/js/main.js:298-308 | Any drift that moves a playing owner also moves a listener, any that moves a listener also moves a paused player, and a player at the server position never moves. |
| Client.KeptPaceNoResync | static/js/main.js:298-308 | A running player that kept pace with a playing room is not moved at the next poll. |
| Client.Render | static/js/main.js:394-406 | A bubble carries the message's id, time and avatar. Its name and text read back as the original and contain no markup. |
| Client.UnseenMembers | static/js/main.js:394-410 | Every appended bubble has an id not yet rendered, and every message with such an id gets a bubble. |
| Client.NewBubbles | static/js/main.js:394-410 | The loop appends, in server order, a bubble for each message whose id was not already rendered. |
| Client.ChatLog.constructor | static/js/main.js:384-392 | The log starts with the given bubbles, and the placeholder is shown exactly when there are none. |
| Client.ChatLog.UpdateChatLog | static/js/main.js:384-412 | An empty reply shows the placeholder. Otherwise the placeholder goes, the existing bubbles stay, and the unseen messages are appended. The placeholder is only ever over an empty log. |
| Client.RepeatedReplyAddsNothing | static/js/main.js:384-412 | Polling the same reply again appends nothing. |
| Client.DuplicateInOneReply | static/js/main.js:385-395 | The rendered ids are read once before the loop, so a message repeated within one reply gets two bubbles. |
| Handlers.AttachMember | app/routes.py:209-228 | Leaves the database as `Routes.Attach` describes. |
| Handlers.JoinRoom | app/routes.py:188-206 | Leaves the database and returns the reply as `Routes.JoinRoom` describes. |
| Handlers.RoomDetail | app/routes.py:231-263 | Leaves the database and returns the reply as `Routes.RoomDetail` describes. |
| Handlers.LeaveRoom | app/routes.py:293-314 | Leaves the database and returns the reply as `Routes.LeaveRoom` describes. |
| Handlers.RoomAvailability | app/routes.py:317-336 | Leaves the database and returns the reply as `Routes.RoomAvailability` describes. |
| Handlers.DeleteRoom | app/routes.py:339-351 | Leaves the database and returns the reply as `Routes.DeleteRoom` describes. |
| Handlers.TogglePlayback | app/routes.py:427-471 | Leaves the database as `Routes.TogglePlayback` describes, and reports "unplayable" exactly when an owner's requested track is missing or not approved. |
| Handlers.GenerateUniqueRoomCode | app/routes.py:151-155 | Returns the first drawn code that no room has. |
| Handlers.CreateRoom | app/routes.py:158-185 | Leaves the database and returns the reply as `Routes.CreateRoom` describes. |
| Handlers.AddToPlaylist | app/routes.py:267-290 | Leaves the database and returns the reply as `Routes.AddToPlaylist` describes. |
| Handlers.DeleteFromPlaylist | app/routes.py:487-499 | Leaves the database and returns the reply as `Routes.DeleteFromPlaylist` describes. |
| Handlers.SendMessage | app/routes.py:474-484 | Leaves the database and returns the reply as `Routes.SendMessage` describes. |
| Handlers.DeleteMusic | app/routes.py:117-128 | Leaves the database and returns the reply as `Routes.DeleteMusic` describes. |
| Handlers.UploadMusic | app/routes.py:84-114 | Leaves the database and returns the reply as `Routes.UploadMusic` describes. |
| Handlers.TakeNotice | app/routes.py:42-60 | Leaves the database and returns the reply as `Routes.TakeNotice` describes. |
| Handlers.ApproveMusic | app/admin.py:24-33 | Leaves the database and returns the reply as `Admin.ApproveMusic` describes. |
| Handlers.RejectMusic | app/admin.py:36-48 | Leaves the database and returns the reply as `Admin.RejectMusic` describes. |
| Handlers.Register | app/auth.py:12-32 | Leaves the database and returns the reply as `Auth.Register` describes. |
| Handlers.AdminRegister | app/auth.py:68-83 | Leaves the database and returns the reply as `Auth.AdminRegister` describes. |

## Left out

- Rendering is not modelled: templates, flash texts and redirect targets beyond the page reached, and the DOM, `fetch`, the polling timer, the slider widget, volume and scrolling of the page script.
- Not modelled because they only read data or touch no table of the core: `index`, `profile` (with `save_avatar`'s file write), `my_rooms`, `records`, `delete_listen_record`, `delete_room_record` and `logout`.
- Password hashing (`set_password`, `check_password`) is a parameter: `hash` and `verify`.
- `secure_filename`, the MIME type, the file size and the `strftime` timestamp are inputs of `Uploads.SaveMusic` and `Uploads.SaveAvatar`. Writing files to disk is not modelled.
- The random draws of `generate_room_code` are a finite sequence given to `Routes.CreateRoom`, which assumes one draw is free whenever a room may be created. The source keeps drawing forever if no code is free.
- Primary keys are whole numbers, and a new key is one more than the largest in use (SQLite without `AUTOINCREMENT`).
- Form values that name a row (`music_id`, `item_id`) are parsed ids or absent. A non-numeric value, which finds no row in the source, is not modelled separately.
- The two commits of `create_room` (room, then participation record) form one step. A failure between them is not modelled.
- The chat window takes a room's last 50 messages in table order. The source orders by `created_at`; the two agree because messages are inserted with the current instant. Ties in `ORDER BY uploaded_at` on the admin dashboard are broken by insertion order.
- `room_state` formats a message time as hours and minutes (`strftime`). The model carries the raw instant instead.
- The upload handler's own "no file chosen" branch cannot fire, because the form's `DataRequired` on the file field refuses such a form first. It is left out.
- `_admin_required`'s unauthenticated branch cannot fire behind `login_required`. Only the non-administrator refusal is modelled.
- A reject keeps the track's row, its file and the playlist entries that list it, as the source does. `Routes.AddToPlaylistRule` shows that such a track cannot be added again.
- `Handlers` methods do not repeat `Store.Valid` in their contracts. That the database stays valid follows from the step-function equality together with the `…KeepsValid` lemmas.
- The limiter's map is process-wide and unsynchronised in the source. Concurrency between requests is not modelled: each handler is one atomic step.
- ExtractExtensionShape (`Uploads.ExtractExtensionShape`, and with it `Uploads.ExtractExtension`): only the ASCII letters A to Z are lowered. Python's `str.lower()` lowers every cased letter, so for "a.ÄB" the source's extension is "äb" and the model's is "Äb".
- SaveMusic (`Uploads.SaveMusic`): the extension carried by the `ExtensionNotAllowed` refusal is lowered in ASCII only, as above. Whether a file is allowed is the same in the model and the source, because the allowed set holds only "mp3".
- RegisterRule (`Auth.RegisterRule`): the username is checked with the corrected rule of "## Findings". A name with one trailing newline, such as "alice\n", is refused with `FormRejected`, while the source creates an account under it.
- AdminRegisterRule (`Auth.AdminRegisterRule`): the same holds for the administrator form. "admin_bob\n" is refused, while the source creates an administrator under it.
- Register (`Auth.Register` and `Handlers.Register`): refuses a name with one trailing newline that the source registers, as under RegisterRule.
- AdminRegister (`Auth.AdminRegister` and `Handlers.AdminRegister`): refuses a name with one trailing newline that the source registers, as under AdminRegisterRule.
- The page script's numbers (positions, the player's `currentTime`, the argument of `Client.FormatTime`) are JavaScript doubles. They are modelled as exact `real` values, and floating-point rounding is not modelled.
- `Client.FormatTime` covers the number cases only. A non-number `s` is not modelled.
- `Client.EscapeHtml` covers strings only. Non-string falsy values, which are returned as they are, are not modelled.

## Findings

| source | as written | input that shows it | evidently intended | confidence | as-written member | corrected member |
|---|---|---|---|---|---|---|
| app/forms.py:83-86 | `Regexp(r"^[0-9]{6}$")` uses `re.match`, where `$` also matches before a final newline | "123456\n" passes the room-code field | exactly six digits (`\Z` or `fullmatch`) | not executed | Forms.RoomCodePatternAcceptsTrailingNewline | Forms.RoomCodeFieldIsSixDigits |
| app/forms.py:28-31 | `Regexp(r"^[a-zA-Z0-9_]+$")` has the same anchor | "alice\n" passes the username pattern | only word characters | not executed | Forms.UsernamePatternAcceptsTrailingNewline | Forms.UsernameFieldRule |

The rest of the model uses the corrected rules: `Forms.RoomCodeFieldValid` in `Routes.JoinRoom`, and `Forms.UsernameFieldValid` in both registration forms.
