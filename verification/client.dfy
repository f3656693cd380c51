/** The room page's script (static/js/main.js), restricted to its decision
    rules: the HTML escaping and clock formatting helpers, the owner's
    auto-advance when a track ends, the drift thresholds that decide when
    the local player jumps to the server's position, the "playing" mark of
    a playlist item, and the chat log's de-duplication by message id. */
module Client {
  import opened Common
  import opened Models
  import opened Store
  import opened Playback
  import opened Routes

  // ---------------------------------------------------------------------
  // escapeHtml
  // ---------------------------------------------------------------------

  /** `s.replace(/c/g, rep)` for a one-character pattern. */
  function ReplaceAll(s: string, c: char, rep: string): string
  {
    if s == [] then []
    else (if s[0] == c then rep else [s[0]]) + ReplaceAll(s[1..], c, rep)
  }

  /** A replacement pass leaves no `c` behind unless `rep` holds one, and
      brings in no character other than those of `s` and `rep`. */
  lemma {:induction false} ReplaceAllChars(s: string, c: char, rep: string)
    ensures forall x :: x in ReplaceAll(s, c, rep) ==> (x in s && x != c) || x in rep
  {
    if s != [] {
      ReplaceAllChars(s[1..], c, rep);
      assert forall x :: x in s[1..] ==> x in s;
    }
  }

  lemma {:induction false} ReplaceAllConcat(a: string, b: string, c: char, rep: string)
    ensures ReplaceAll(a + b, c, rep) == ReplaceAll(a, c, rep) + ReplaceAll(b, c, rep)
  {
    if a == [] {
      assert a + b == b;
    } else {
      assert (a + b)[1..] == a[1..] + b;
      ReplaceAllConcat(a[1..], b, c, rep);
    }
  }

  /** `escapeHtml`: five global replacements, `&` first so that the
      entities introduced by the later ones are not escaped again. The empty
      string (the only falsy string) comes back unchanged. */
  function EscapeHtml(t: string): (r: string)
    ensures t == "" ==> r == ""
    ensures '<' !in r && '>' !in r && '"' !in r && '\'' !in r
  {
    var amp := ReplaceAll(t, '&', "&amp;");
    var lt := ReplaceAll(amp, '<', "&lt;");
    var gt := ReplaceAll(lt, '>', "&gt;");
    var quot := ReplaceAll(gt, '"', "&quot;");
    ReplaceAllChars(amp, '<', "&lt;");
    ReplaceAllChars(lt, '>', "&gt;");
    ReplaceAllChars(gt, '"', "&quot;");
    ReplaceAllChars(quot, '\'', "&#039;");
    ReplaceAll(quot, '\'', "&#039;")
  }

  /** The entity each character is written as: the five markup characters
      become named or numeric references, every other character stays. */
  function Entity(c: char): string
  {
    match c
    case '&' => "&amp;"
    case '<' => "&lt;"
    case '>' => "&gt;"
    case '"' => "&quot;"
    case '\'' => "&#039;"
    case _ => [c]
  }

  /** Character-by-character escaping: the reference definition the chain
      of replacements is compared with. */
  function EscapeEach(s: string): string
  {
    if s == [] then [] else Entity(s[0]) + EscapeEach(s[1..])
  }

  lemma EscapeHtmlConcat(a: string, b: string)
    ensures EscapeHtml(a + b) == EscapeHtml(a) + EscapeHtml(b)
  {
    ReplaceAllConcat(a, b, '&', "&amp;");
    var a1, b1 := ReplaceAll(a, '&', "&amp;"), ReplaceAll(b, '&', "&amp;");
    ReplaceAllConcat(a1, b1, '<', "&lt;");
    var a2, b2 := ReplaceAll(a1, '<', "&lt;"), ReplaceAll(b1, '<', "&lt;");
    ReplaceAllConcat(a2, b2, '>', "&gt;");
    var a3, b3 := ReplaceAll(a2, '>', "&gt;"), ReplaceAll(b2, '>', "&gt;");
    ReplaceAllConcat(a3, b3, '"', "&quot;");
    var a4, b4 := ReplaceAll(a3, '"', "&quot;"), ReplaceAll(b3, '"', "&quot;");
    ReplaceAllConcat(a4, b4, '\'', "&#039;");
  }

  lemma ReplaceAllOne(d: char, c: char, rep: string)
    ensures ReplaceAll([d], c, rep) == if d == c then rep else [d]
  {
    assert [d][1..] == [];
  }

  lemma {:induction false} ReplaceAllAbsent(s: string, c: char, rep: string)
    requires c !in s
    ensures ReplaceAll(s, c, rep) == s
  {
    if s != [] {
      assert s == [s[0]] + s[1..];
      ReplaceAllAbsent(s[1..], c, rep);
    }
  }

  lemma EscapeAmp(c: char)
    requires c == '&'
    ensures EscapeHtml([c]) == Entity(c)
  {
    var e := Entity(c);
    ReplaceAllOne(c, '&', e);
    ReplaceAllAbsent(e, '<', "&lt;");
    ReplaceAllAbsent(e, '>', "&gt;");
    ReplaceAllAbsent(e, '"', "&quot;");
    ReplaceAllAbsent(e, '\'', "&#039;");
  }

  lemma EscapeLt(c: char)
    requires c == '<'
    ensures EscapeHtml([c]) == Entity(c)
  {
    var e := Entity(c);
    ReplaceAllAbsent([c], '&', "&amp;");
    ReplaceAllOne(c, '<', e);
    ReplaceAllAbsent(e, '>', "&gt;");
    ReplaceAllAbsent(e, '"', "&quot;");
    ReplaceAllAbsent(e, '\'', "&#039;");
  }

  lemma EscapeGt(c: char)
    requires c == '>'
    ensures EscapeHtml([c]) == Entity(c)
  {
    var e := Entity(c);
    ReplaceAllAbsent([c], '&', "&amp;");
    ReplaceAllAbsent([c], '<', "&lt;");
    ReplaceAllOne(c, '>', e);
    ReplaceAllAbsent(e, '"', "&quot;");
    ReplaceAllAbsent(e, '\'', "&#039;");
  }

  lemma EscapeQuot(c: char)
    requires c == '"'
    ensures EscapeHtml([c]) == Entity(c)
  {
    var e := Entity(c);
    ReplaceAllAbsent([c], '&', "&amp;");
    ReplaceAllAbsent([c], '<', "&lt;");
    ReplaceAllAbsent([c], '>', "&gt;");
    ReplaceAllOne(c, '"', e);
    ReplaceAllAbsent(e, '\'', "&#039;");
  }

  lemma EscapeApos(c: char)
    requires c == '\''
    ensures EscapeHtml([c]) == Entity(c)
  {
    var e := Entity(c);
    ReplaceAllAbsent([c], '&', "&amp;");
    ReplaceAllAbsent([c], '<', "&lt;");
    ReplaceAllAbsent([c], '>', "&gt;");
    ReplaceAllAbsent([c], '"', "&quot;");
    ReplaceAllOne(c, '\'', e);
  }

  lemma EscapePlainChar(c: char)
    requires c !in "&<>\"'"
    ensures EscapeHtml([c]) == Entity(c)
  {
    ReplaceAllAbsent([c], '&', "&amp;");
    ReplaceAllAbsent([c], '<', "&lt;");
    ReplaceAllAbsent([c], '>', "&gt;");
    ReplaceAllAbsent([c], '"', "&quot;");
    ReplaceAllAbsent([c], '\'', "&#039;");
  }

  /** Each of the later passes leaves the entities of the earlier ones
      alone. */
  lemma EscapeHtmlOne(c: char)
    ensures EscapeHtml([c]) == Entity(c)
  {
    match c
    case '&' => EscapeAmp(c);
    case '<' => EscapeLt(c);
    case '>' => EscapeGt(c);
    case '"' => EscapeQuot(c);
    case '\'' => EscapeApos(c);
    case _ => EscapePlainChar(c);
  }

  /** The chain of replacements escapes every character independently:
      since `&` goes first, no entity is escaped twice. */
  lemma {:induction false} EscapeHtmlIsPerCharacter(t: string)
    ensures EscapeHtml(t) == EscapeEach(t)
  {
    if t != [] {
      assert t == [t[0]] + t[1..];
      EscapeHtmlConcat([t[0]], t[1..]);
      EscapeHtmlOne(t[0]);
      EscapeHtmlIsPerCharacter(t[1..]);
    }
  }

  /** The browser's reading of escaped text: each entity back to its
      character. */
  function Unescape(s: string): string
    decreases |s|
  {
    if s == [] then []
    else if StartsWith(s, "&amp;") then "&" + Unescape(s[5..])
    else if StartsWith(s, "&lt;") then "<" + Unescape(s[4..])
    else if StartsWith(s, "&gt;") then ">" + Unescape(s[4..])
    else if StartsWith(s, "&quot;") then "\"" + Unescape(s[6..])
    else if StartsWith(s, "&#039;") then "'" + Unescape(s[6..])
    else [s[0]] + Unescape(s[1..])
  }

  lemma StartsWithAt(s: string, p: string, i: nat)
    requires i < |p| && i < |s|
    ensures StartsWith(s, p) ==> s[i] == p[i]
  {
    if StartsWith(s, p) {
      assert s[..|p|][i] == s[i];
    }
  }

  lemma UnescapeEntity(c: char, rest: string)
    ensures Unescape(Entity(c) + rest) == [c] + Unescape(rest)
  {
    var e := Entity(c);
    var s := e + rest;
    assert s[..|e|] == e;
    assert s[|e|..] == rest;
    assert s[0] == e[0];
    if |e| > 1 {
      assert s[1] == e[1];
    }
    match c
    case '&' =>
    case '<' =>
      StartsWithAt(s, "&amp;", 1);
    case '>' =>
      StartsWithAt(s, "&amp;", 1);
      StartsWithAt(s, "&lt;", 1);
    case '"' =>
      StartsWithAt(s, "&amp;", 1);
      StartsWithAt(s, "&lt;", 1);
      StartsWithAt(s, "&gt;", 1);
    case '\'' =>
      StartsWithAt(s, "&amp;", 1);
      StartsWithAt(s, "&lt;", 1);
      StartsWithAt(s, "&gt;", 1);
      StartsWithAt(s, "&quot;", 1);
    case _ =>
      StartsWithAt(s, "&amp;", 0);
      StartsWithAt(s, "&lt;", 0);
      StartsWithAt(s, "&gt;", 0);
      StartsWithAt(s, "&quot;", 0);
      StartsWithAt(s, "&#039;", 0);
  }

  lemma {:induction false} UnescapeEscapeEach(t: string)
    ensures Unescape(EscapeEach(t)) == t
  {
    if t != [] {
      UnescapeEntity(t[0], EscapeEach(t[1..]));
      UnescapeEscapeEach(t[1..]);
    }
  }

  /** Escaping loses nothing: the text a chat bubble displays is exactly
      the text that was sent. */
  lemma EscapeHtmlRoundTrip(t: string)
    ensures Unescape(EscapeHtml(t)) == t
  {
    EscapeHtmlIsPerCharacter(t);
    UnescapeEscapeEach(t);
  }

  // ---------------------------------------------------------------------
  // formatTime
  // ---------------------------------------------------------------------

  /** A JavaScript number as `formatTime` distinguishes it. */
  datatype JsNumber = Finite(x: real) | NaN | Infinity | NegInfinity

  function DigitChar(d: nat): char
    requires d < 10
  {
    ('0' as int + d) as char
  }

  /** `n.toString()` for a non-negative integer. */
  function DecimalDigits(n: nat): (s: string)
    ensures |s| >= 1 && forall i :: 0 <= i < |s| ==> IsAsciiDigit(s[i])
    ensures n < 10 <==> |s| == 1
  {
    if n < 10 then [DigitChar(n)] else DecimalDigits(n / 10) + [DigitChar(n % 10)]
  }

  /** `Number.prototype.toString()` on an integer value. */
  function IntToString(i: int): string
  {
    if i < 0 then "-" + DecimalDigits(-i) else DecimalDigits(i)
  }

  /** `s.padStart(2, '0')`. */
  function PadStart2(s: string): (r: string)
    ensures |r| == if |s| >= 2 then |s| else 2
  {
    if |s| >= 2 then s else if |s| == 1 then "0" + s else "00"
  }

  /** `Math.trunc`, which JavaScript's `%` uses for its quotient. */
  function Trunc(y: real): int
  {
    if y >= 0.0 then y.Floor else -((-y).Floor)
  }

  /** JavaScript's `x % d`: the remainder takes the sign of `x`. */
  function JsRem(x: real, d: real): real
    requires d != 0.0
  {
    x - d * (Trunc(x / d) as real)
  }

  /** `formatTime`: "00:00" for zero, NaN and Infinity; otherwise whole
      minutes and whole seconds within the minute, each padded to two
      digits. Negative input is formatted by the same arithmetic; minus
      Infinity yields "-Infinity:NaN". For a non-negative time the result is
      minutes (two or more digits), a colon and exactly two digits below
      60. */
  function FormatTime(s: JsNumber): (r: string)
    ensures s == NaN || s == Infinity || s == Finite(0.0) ==> r == "00:00"
    ensures s.Finite? && s.x >= 0.0 ==>
      |r| >= 5 && r[|r| - 3] == ':' &&
      (forall i :: 0 <= i < |r| && i != |r| - 3 ==> IsAsciiDigit(r[i])) &&
      DigitsValue(r[|r| - 2..]) < 60
  {
    match s
    case NaN => "00:00"
    case Infinity => "00:00"
    case NegInfinity => "-Infinity:NaN"
    case Finite(x) =>
      if x == 0.0 then ZeroClock(); "00:00"
      else
        var m := (x / 60.0).Floor;
        var sc := JsRem(x, 60.0).Floor;
        if x >= 0.0 then
          ClockSplit(x);
          ClockShape(m, sc);
          Clock(m, sc)
        else
          Clock(m, sc)
  }

  /** `${pad(minutes)}:${pad(seconds)}`. */
  function Clock(m: int, sc: int): string
  {
    PadStart2(IntToString(m)) + ":" + PadStart2(IntToString(sc))
  }

  /** The number a string of decimal digits spells. */
  function DigitsValue(s: string): nat
  {
    if s == [] then 0
    else
      var d := s[|s| - 1] as int - '0' as int;
      DigitsValue(s[..|s| - 1]) * 10 + (if 0 <= d < 10 then d else 0)
  }

  lemma {:induction false} DigitsValueOfDecimal(n: nat)
    ensures DigitsValue(DecimalDigits(n)) == n
  {
    if n >= 10 {
      var s := DecimalDigits(n / 10) + [DigitChar(n % 10)];
      assert s[..|s| - 1] == DecimalDigits(n / 10);
      DigitsValueOfDecimal(n / 10);
    }
  }

  lemma {:induction false} DigitsValueLeadingZero(s: string)
    ensures DigitsValue("0" + s) == DigitsValue(s)
    decreases |s|
  {
    if s != [] {
      var z := "0" + s;
      assert z[..|z| - 1] == "0" + s[..|s| - 1];
      assert z[|z| - 1] == s[|s| - 1];
      DigitsValueLeadingZero(s[..|s| - 1]);
    }
  }

  lemma ZeroClock()
    ensures DigitsValue("00") == 0 && DigitsValue("0") == 0
  {
    assert "00"[..1] == "0";
    assert "0"[..0] == [];
  }

  lemma PadStart2Value(n: nat)
    ensures DigitsValue(PadStart2(IntToString(n))) == n
  {
    DigitsValueOfDecimal(n);
    if n < 10 {
      DigitsValueLeadingZero(DecimalDigits(n));
    }
  }

  /** For a non-negative time the minutes and the seconds within the minute
      split its whole seconds: `JsRem` agrees with the floored remainder. */
  lemma ClockSplit(x: real)
    requires x >= 0.0
    ensures var m := (x / 60.0).Floor;
      m >= 0 && 0 <= JsRem(x, 60.0).Floor < 60 &&
      60 * m + JsRem(x, 60.0).Floor == x.Floor
  {
    var m := (x / 60.0).Floor;
    assert Trunc(x / 60.0) == m;
    var rem := x - 60.0 * (m as real);
    assert JsRem(x, 60.0) == rem;
    assert (m as real) <= x / 60.0 < (m as real) + 1.0;
    assert 0.0 <= rem < 60.0;
    var sc := rem.Floor;
    assert (sc as real) <= rem < (sc as real) + 1.0;
    assert ((60 * m + sc) as real) <= x < ((60 * m + sc) as real) + 1.0;
  }

  lemma ClockShape(m: int, sc: int)
    requires m >= 0 && 0 <= sc < 60
    ensures var r := Clock(m, sc);
      |r| >= 5 && r[|r| - 3] == ':' &&
      (forall i :: 0 <= i < |r| && i != |r| - 3 ==> IsAsciiDigit(r[i])) &&
      DigitsValue(r[|r| - 2..]) == sc &&
      DigitsValue(r[..|r| - 3]) == m
  {
    var a, b := PadStart2(IntToString(m)), PadStart2(IntToString(sc));
    var r := a + ":" + b;
    assert |b| == 2;
    assert r[..|r| - 3] == a && r[|r| - 2..] == b;
    PadStart2Value(m);
    PadStart2Value(sc);
  }

  /** The minutes and seconds `formatTime` displays for a non-negative time
      read back as its whole number of seconds. */
  lemma FormatTimeReadsBack(x: real)
    requires x >= 0.0
    ensures var r := FormatTime(Finite(x));
      |r| >= 5 && 60 * DigitsValue(r[..|r| - 3]) + DigitsValue(r[|r| - 2..]) == x.Floor
  {
    if x != 0.0 {
      var m, sc := (x / 60.0).Floor, JsRem(x, 60.0).Floor;
      FormatTimeIsClock(x);
      ClockSplit(x);
      ClockShape(m, sc);
    } else {
      assert FormatTime(Finite(x)) == "00:00";
      ZeroClockReadsBack();
    }
  }

  lemma FormatTimeIsClock(x: real)
    requires x > 0.0
    ensures FormatTime(Finite(x)) == Clock((x / 60.0).Floor, JsRem(x, 60.0).Floor)
  {
  }

  lemma ZeroClockReadsBack()
    ensures var r := "00:00"; 60 * DigitsValue(r[..|r| - 3]) + DigitsValue(r[|r| - 2..]) == 0
  {
    ZeroClock();
    assert "00:00"[..2] == "00" && "00:00"[3..] == "00";
  }

  // ---------------------------------------------------------------------
  // The playlist panel and the owner's auto-advance
  // ---------------------------------------------------------------------

  /** `updatePlaylistUI`: an entry is shown as playing when its title is
      the room's current track name (a room without a track marks none). */
  predicate IsPlayingItem(item: EntryView, current: Option<string>)
  {
    current == Some(item.title)
  }

  function PlayingAt(current: Option<string>): EntryView -> bool
  {
    (e: EntryView) => IsPlayingItem(e, current)
  }

  /** `currentPlaylist.findIndex(item => item.title === currentTrackName)`. */
  function PlayingIndex(playlist: seq<EntryView>, current: Option<string>): (k: int)
    ensures -1 <= k < |playlist|
    ensures k >= 0 ==> (IsPlayingItem(playlist[k], current) &&
      forall j :: 0 <= j < k ==> !IsPlayingItem(playlist[j], current))
    ensures k == -1 <==> forall j :: 0 <= j < |playlist| ==> !IsPlayingItem(playlist[j], current)
  {
    var k := FirstIndex(playlist, PlayingAt(current));
    assert forall j :: 0 <= j < |playlist| ==>
      (PlayingAt(current)(playlist[j]) <==> IsPlayingItem(playlist[j], current));
    k
  }

  /** What the page posts to the toggle endpoint when the audio ends. */
  datatype TrackEndRequest = NoRequest | RequestTrack(musicId: nat) | RequestStop

  /** The `ended` handler: listeners do nothing; the owner asks for the
      entry after the first one marked playing, or for `stop` when no entry
      is marked or the marked one is the last. */
  function NextTrack(isOwner: bool, playlist: seq<EntryView>, current: Option<string>): (r: TrackEndRequest)
    ensures r == NoRequest <==> !isOwner
    ensures r.RequestTrack? <==>
      isOwner && exists i :: 0 <= i < |playlist| - 1 && IsPlayingItem(playlist[i], current)
    ensures r.RequestTrack? ==>
      exists i :: 0 <= i < |playlist| - 1 && IsPlayingItem(playlist[i], current) &&
        (forall j :: 0 <= j < i ==> !IsPlayingItem(playlist[j], current)) &&
        r.musicId == playlist[i + 1].musicId
  {
    if !isOwner then NoRequest
    else
      var i := PlayingIndex(playlist, current);
      if i != -1 && i < |playlist| - 1 then RequestTrack(playlist[i + 1].musicId)
      else RequestStop
  }

  /** When the track that ended is the last entry of the playlist and no
      earlier entry has its title, the owner stops the room. */
  lemma EndOfPlaylistStops(playlist: seq<EntryView>, current: Option<string>)
    requires playlist != [] && IsPlayingItem(playlist[|playlist| - 1], current)
    requires forall j :: 0 <= j < |playlist| - 1 ==> !IsPlayingItem(playlist[j], current)
    ensures NextTrack(true, playlist, current) == RequestStop
  {
  }

  /** The auto-advance follows the playing mark: the entry it asks for is
      the one right after the first entry the playlist panel marks. */
  lemma AdvanceFollowsPlayingMark(playlist: seq<EntryView>, current: Option<string>, i: nat)
    requires i < |playlist| - 1 && IsPlayingItem(playlist[i], current)
    requires forall j :: 0 <= j < i ==> !IsPlayingItem(playlist[j], current)
    ensures NextTrack(true, playlist, current) == RequestTrack(playlist[i + 1].musicId)
  {
    assert PlayingIndex(playlist, current) == i;
  }

  /** Entries are matched by title, so when one title is queued twice the
      later copy advances to the entry after the earlier copy: the queue
      [a, b, a] replays b after its last entry instead of stopping. */
  lemma RepeatedTitleLoops(a: EntryView, b: EntryView, a2: EntryView)
    requires a2.title == a.title && b.title != a.title
    ensures NextTrack(true, [a, b, a2], Some(a2.title)) == RequestTrack(b.musicId)
  {
    AdvanceFollowsPlayingMark([a, b, a2], Some(a2.title), 0);
  }

  // ---------------------------------------------------------------------
  // Drift correction in refreshState
  // ---------------------------------------------------------------------

  const PausedTolerance: real := 0.5
  const OwnerPlayingTolerance: real := 5.0
  const ListenerPlayingTolerance: real := 2.0

  function Abs(d: real): real
  {
    if d < 0.0 then -d else d
  }

  /** How far the local player may drift from the server's position before
      it is moved: half a second while paused; while playing, five seconds
      for the owner whose audio is running and two for everyone else. */
  function Tolerance(status: PlaybackStatus, isOwner: bool, audioPaused: bool): (tol: real)
    ensures tol == PausedTolerance || tol == OwnerPlayingTolerance || tol == ListenerPlayingTolerance
    ensures status == Paused <==> tol == PausedTolerance
    ensures tol == OwnerPlayingTolerance <==> status == Playing && isOwner && !audioPaused
  {
    match status
    case Paused => PausedTolerance
    case Playing => if isOwner && !audioPaused then OwnerPlayingTolerance else ListenerPlayingTolerance
  }

  /** Whether `refreshState` sets the audio element's time to the server's
      position. */
  function ShouldResync(status: PlaybackStatus, isOwner: bool, audioPaused: bool, local: real, server: real): (r: bool)
    ensures r <==> local - server > Tolerance(status, isOwner, audioPaused) ||
                   server - local > Tolerance(status, isOwner, audioPaused)
  {
    Abs(local - server) > Tolerance(status, isOwner, audioPaused)
  }

  /** The thresholds are ordered: whatever drift moves a playing owner's
      audio also moves a listener's, and whatever moves a listener's also
      moves a paused player's; a player already at the server's position
      is never moved. */
  lemma ToleranceOrder(isOwner: bool, audioPaused: bool, local: real, server: real)
    ensures ShouldResync(Playing, true, false, local, server) ==> ShouldResync(Playing, false, audioPaused, local, server)
    ensures ShouldResync(Playing, isOwner, audioPaused, local, server) ==> ShouldResync(Paused, isOwner, audioPaused, local, server)
    ensures !ShouldResync(Paused, isOwner, audioPaused, server, server)
  {
  }

  /** Only the size of the drift matters, not its direction, and no drift
      of half a second or less ever moves the player. */
  lemma ResyncSymmetric(status: PlaybackStatus, isOwner: bool, audioPaused: bool, local: real, server: real)
    ensures ShouldResync(status, isOwner, audioPaused, local, server)
            == ShouldResync(status, isOwner, audioPaused, server, local)
    ensures -PausedTolerance <= local - server <= PausedTolerance ==>
            !ShouldResync(status, isOwner, audioPaused, local, server)
  {
  }

  /** Between two polls of a playing room the server's position advances
      by the elapsed time; a running player that kept pace is not moved,
      however long the interval. */
  lemma KeptPaceNoResync(t: Tables, caller: User, code: string, now1: int, now2: int,
                         status: PlaybackStatus, isOwner: bool, audioPaused: bool, local: real)
    requires ReferencesValid(t)
    requires RoomState(t, caller, code, now1).Snapshot?
    requires RoomState(t, caller, code, now1).view.status == Playing
    requires RoomState(t, caller, code, now1).view.updatedAt.Some?
    requires local == RoomState(t, caller, code, now1).view.position + (now2 - now1) as real / MicrosPerSecond
    ensures RoomState(t, caller, code, now2).Snapshot?
    ensures !ShouldResync(status, isOwner, audioPaused, local, RoomState(t, caller, code, now2).view.position)
  {
    RoomStateOverTime(t, caller, code, now1, now2);
  }

  // ---------------------------------------------------------------------
  // The chat log
  // ---------------------------------------------------------------------

  /** One rendered chat bubble: the message id it carries in `data-id`, the
      avatar URL, the escaped author name and text, and the time. */
  datatype Bubble = Bubble(id: nat, avatar: string, authorHtml: string, createdAt: int, contentHtml: string)

  /** A message as `updateChatLog` renders it: name and text escaped, so no
      bubble carries markup of the sender's. */
  function Render(m: MessageView): (b: Bubble)
    ensures b.id == m.id && b.createdAt == m.createdAt && b.avatar == m.authorAvatar
    ensures Unescape(b.authorHtml) == m.authorName && Unescape(b.contentHtml) == m.content
    ensures '<' !in b.contentHtml && '<' !in b.authorHtml
  {
    EscapeHtmlRoundTrip(m.authorName);
    EscapeHtmlRoundTrip(m.content);
    Bubble(m.id, m.authorAvatar, EscapeHtml(m.authorName), m.createdAt, EscapeHtml(m.content))
  }

  function RenderedIds(bubbles: seq<Bubble>): set<nat>
  {
    set b | b in bubbles :: b.id
  }

  /** The bubbles one update appends: the messages, in server order, whose
      id was not among the ids rendered when the update began. */
  function Unseen(seen: set<nat>, messages: seq<MessageView>): (r: seq<Bubble>)
    ensures |r| <= |messages|
    decreases |messages|
  {
    if messages == [] then []
    else
      var init, last := messages[..|messages| - 1], messages[|messages| - 1];
      Unseen(seen, init) + (if last.id in seen then [] else [Render(last)])
  }

  /** Every bubble an update appends is for an id not yet rendered, and
      every message with such an id gets one. */
  lemma {:induction false} UnseenMembers(seen: set<nat>, messages: seq<MessageView>)
    ensures forall b :: b in Unseen(seen, messages) ==> b.id !in seen
    ensures forall m :: m in messages && m.id !in seen ==> Render(m) in Unseen(seen, messages)
    decreases |messages|
  {
    if messages != [] {
      var init, last := messages[..|messages| - 1], messages[|messages| - 1];
      assert messages == init + [last];
      assert forall m :: m in messages ==> m in init || m == last;
      UnseenAppend(seen, init, last);
      UnseenMembers(seen, init);
    }
  }

  lemma UnseenAppend(seen: set<nat>, messages: seq<MessageView>, m: MessageView)
    ensures Unseen(seen, messages + [m]) == Unseen(seen, messages) + (if m.id in seen then [] else [Render(m)])
  {
    assert (messages + [m])[..|messages + [m]| - 1] == messages;
  }

  lemma UnseenStep(seen: set<nat>, messages: seq<MessageView>, i: nat)
    requires i < |messages|
    ensures Unseen(seen, messages[..i + 1])
      == Unseen(seen, messages[..i]) + (if messages[i].id in seen then [] else [Render(messages[i])])
  {
    assert messages[..i + 1][..i] == messages[..i];
  }

  /** The page's chat container: the rendered bubbles, in order, and
      whether the "no messages yet" placeholder is shown. */
  class ChatLog {
    var bubbles: seq<Bubble>
    var placeholder: bool

    /** The placeholder is only ever shown over an empty log. */
    ghost predicate Valid()
      reads this
    {
      placeholder ==> bubbles == []
    }

    constructor (initial: seq<Bubble>)
      ensures bubbles == initial && placeholder == (initial == [])
      ensures Valid()
    {
      bubbles := initial;
      placeholder := initial == [];
    }

    /** `updateChatLog`: an empty reply shows the placeholder (replacing the
        container's content when it was not shown); otherwise the
        placeholder goes and every message whose id was not rendered when
        the call began is appended, in server order, after the existing
        bubbles, which are kept as they were. */
    method UpdateChatLog(messages: seq<MessageView>)
      requires Valid()
      modifies this
      ensures Valid()
      ensures messages != [] ==>
        !placeholder && bubbles == old(bubbles) + Unseen(RenderedIds(old(bubbles)), messages)
      ensures messages == [] && old(placeholder) ==> bubbles == old(bubbles) && placeholder
      ensures messages == [] && !old(placeholder) ==> bubbles == [] && placeholder
    {
      var seen := RenderedIds(bubbles);
      if |messages| > 0 && placeholder {
        placeholder := false;
      }
      if |messages| == 0 && !placeholder {
        bubbles := [];
        placeholder := true;
      }
      var added := NewBubbles(seen, messages);
      bubbles := bubbles + added;
    }
  }

  /** The `messages.forEach` loop: a bubble for each message whose id is
      not in `seen`, in the order the messages came. */
  method NewBubbles(seen: set<nat>, messages: seq<MessageView>) returns (added: seq<Bubble>)
    ensures added == Unseen(seen, messages)
  {
    added := [];
    var i := 0;
    while i < |messages|
      invariant 0 <= i <= |messages|
      invariant added == Unseen(seen, messages[..i])
    {
      var m := messages[i];
      UnseenStep(seen, messages, i);
      if m.id !in seen {
        added := added + [Render(m)];
      }
      i := i + 1;
    }
    assert messages[..|messages|] == messages;
  }

  /** After one update every message of the reply has a bubble, so the
      same reply polled again appends nothing. */
  lemma RepeatedReplyAddsNothing(old_: seq<Bubble>, messages: seq<MessageView>)
    ensures var after := old_ + Unseen(RenderedIds(old_), messages);
      Unseen(RenderedIds(after), messages) == []
  {
    var seen := RenderedIds(old_);
    var after := old_ + Unseen(seen, messages);
    UnseenMembers(seen, messages);
    forall m | m in messages
      ensures m.id in RenderedIds(after)
    {
      if m.id !in seen {
        assert Render(m) in after;
      } else {
        var b :| b in old_ && b.id == m.id;
        assert b in after;
      }
    }
    UnseenNone(RenderedIds(after), messages);
  }

  lemma {:induction false} UnseenNone(seen: set<nat>, messages: seq<MessageView>)
    requires forall m :: m in messages ==> m.id in seen
    ensures Unseen(seen, messages) == []
    decreases |messages|
  {
    if messages != [] {
      var init := messages[..|messages| - 1];
      assert forall m :: m in init ==> m in messages;
      UnseenNone(seen, init);
    }
  }

  /** The rendered set is taken once, before the loop, so a reply that
      carries the same message twice gets two bubbles for it. */
  lemma DuplicateInOneReply(m: MessageView)
    ensures Unseen({}, [m, m]) == [Render(m), Render(m)]
  {
    UnseenAppend({}, [m], m);
    UnseenAppend({}, [], m);
    assert [m] == [] + [m];
  }
}
