/** The file checks of app/utils.py: the extension a file name carries, the
    ordered checks `save_music` and `save_avatar` run before writing a file,
    the names under which they store it, and the shape of a room code. The
    sanitised name (`secure_filename`), the file size, the MIME type and the
    timestamp string are inputs; writing the file is not modelled. */
module Uploads {
  import opened Common
  import opened Models

  const MusicExtensions: set<string> := {"mp3"}
  const AvatarExtensions: set<string> := {"png", "jpg", "jpeg", "gif"}
  const BytesPerMegabyte: nat := 1024 * 1024
  const MaxMusicMegabytes: nat := 50
  const MaxAvatarMegabytes: nat := 5

  /** The index of the dot that starts `PurePath.suffix` of a final path
      component: the last dot, provided it is neither the first nor the last
      character; -1 when the name has no suffix. */
  function SuffixDot(name: string): (i: int)
    ensures i == -1 || (0 < i < |name| - 1 && name[i] == '.')
    ensures i > 0 ==> forall k :: i < k < |name| ==> name[k] != '.'
    ensures i == -1 <==> var d := LastIndexOf(name, '.'); !(0 < d < |name| - 1)
  {
    var d := LastIndexOf(name, '.');
    if 0 < d < |name| - 1 then d else -1
  }

  /** `PurePath.suffix`. */
  function Suffix(name: string): string
  {
    var i := SuffixDot(name);
    if i > 0 then name[i..] else ""
  }

  /** `PurePath.stem`: the name without its suffix. */
  function Stem(name: string): (stem: string)
    ensures stem + Suffix(name) == name
  {
    var i := SuffixDot(name);
    if i > 0 then (assert name[..i] + name[i..] == name; name[..i]) else name
  }

  /** `str.lstrip(chars)` for one character. */
  function StripLeading(s: string, c: char): (r: string)
    ensures |r| <= |s| && r == s[|s| - |r|..]
    ensures r == [] || r[0] != c
    ensures forall k :: 0 <= k < |s| - |r| ==> s[k] == c
  {
    if s != [] && s[0] == c then StripLeading(s[1..], c) else s
  }

  /** `_extract_extension`: `Path(filename).suffix.lower().lstrip(".")`. */
  function ExtractExtension(filename: string): (ext: string)
  {
    ExtensionOf(PathName(filename))
  }

  /** The extension read from a final path component. */
  function ExtensionOf(name: string): (ext: string)
  {
    StripLeading(Lower(Suffix(name)), '.')
  }

  /** The extension is the lower-cased text after the last dot of the final
      path component, or "" when that component has no suffix; it never
      holds a dot or a slash and is already lower case. */
  lemma ExtractExtensionShape(filename: string)
    ensures var name, ext := PathName(filename), ExtractExtension(filename);
      && (SuffixDot(name) == -1 ==> ext == "")
      && (SuffixDot(name) > 0 ==> ext == Lower(name[SuffixDot(name) + 1..]) && ext != "")
      && '.' !in ext && '/' !in ext && Lower(ext) == ext
  {
    ExtensionOfShape(PathName(filename));
  }

  lemma ExtensionOfShape(name: string)
    requires '/' !in name
    ensures var ext := ExtensionOf(name);
      && (SuffixDot(name) == -1 ==> ext == "")
      && (SuffixDot(name) > 0 ==> ext == Lower(name[SuffixDot(name) + 1..]) && ext != "")
      && '.' !in ext && '/' !in ext && Lower(ext) == ext
  {
    var i := SuffixDot(name);
    if i > 0 {
      var rest := name[i + 1..];
      ExtensionOfDotted(name, i);
      assert '/' !in rest by {
        assert forall k :: 0 <= k < |rest| ==> rest[k] == name[i + 1 + k];
      }
      LowerKeepsNonLetters(rest);
      LowerIdempotent(rest);
    }
  }

  lemma ExtensionOfDotted(name: string, i: int)
    requires i == SuffixDot(name) && i > 0
    ensures ExtensionOf(name) == Lower(name[i + 1..]) && '.' !in name[i + 1..]
  {
    var suffix := name[i..];
    assert Suffix(name) == suffix;
    var low := Lower(suffix);
    assert low[0] == '.';
    assert low[1..] == Lower(name[i + 1..]);
    assert '.' !in low[1..] by {
      forall k | 0 <= k < |low[1..]| ensures low[1..][k] != '.' {
        assert name[i + 1 + k] != '.';
      }
    }
    StripOneLeading(low, '.');
  }

  lemma StripOneLeading(s: string, c: char)
    requires |s| >= 1 && s[0] == c && c !in s[1..]
    ensures StripLeading(s, c) == s[1..]
  {
    if |s| > 1 {
      assert s[1] in s[1..];
    }
  }

  /** Lowering leaves the dot and the slash where they were. */
  lemma LowerKeepsNonLetters(s: string)
    ensures ('.' in Lower(s)) == ('.' in s)
    ensures ('/' in Lower(s)) == ('/' in s)
  {
    if '.' in Lower(s) {
      var k :| 0 <= k < |s| && Lower(s)[k] == '.';
      assert s[k] == '.';
    }
    if '.' in s {
      var k :| 0 <= k < |s| && s[k] == '.';
      assert Lower(s)[k] == '.';
    }
    if '/' in Lower(s) {
      var k :| 0 <= k < |s| && Lower(s)[k] == '/';
      assert s[k] == '/';
    }
    if '/' in s {
      var k :| 0 <= k < |s| && s[k] == '/';
      assert Lower(s)[k] == '/';
    }
  }

  lemma LowerIdempotent(s: string)
    ensures Lower(Lower(s)) == Lower(s)
  {
  }

  /** `allowed_file`: an empty name is refused; otherwise the extension must
      be one of the allowed ones. */
  function AllowedFile(filename: string, allowed: set<string>): (ok: bool)
    ensures filename == "" ==> !ok
  {
    if filename == "" then false else ExtractExtension(filename) in allowed
  }

  /** With an extension list that does not hold "", a file is allowed exactly
      when the final component of its name has a suffix whose lower-cased
      text after the dot is listed. */
  lemma AllowedFileBySuffix(filename: string, allowed: set<string>)
    requires "" !in allowed
    ensures var name := PathName(filename); var i := SuffixDot(name);
      AllowedFile(filename, allowed) <==> i > 0 && Lower(name[i + 1..]) in allowed
  {
    var name := PathName(filename);
    var i := SuffixDot(name);
    ExtractExtensionShape(filename);
    if filename == "" {
      PathNameEmpty();
      assert i == -1;
    } else {
      assert AllowedFile(filename, allowed) == (ExtractExtension(filename) in allowed);
    }
  }

  /** A file that no configured extension list accepts because it has no
      suffix: a name whose last component has no proper dot. */
  lemma NoSuffixNotAllowed(filename: string)
    requires SuffixDot(PathName(filename)) == -1
    ensures !AllowedFile(filename, MusicExtensions) && !AllowedFile(filename, AvatarExtensions)
  {
    assert |""| == 0 && forall e :: e in MusicExtensions + AvatarExtensions ==> |e| >= 3;
    AllowedFileBySuffix(filename, MusicExtensions);
    AllowedFileBySuffix(filename, AvatarExtensions);
  }

  /** One uploaded file as the handler sees it: the client's file name (""
      when the part had none), its MIME type, its size in bytes, and what
      `secure_filename` makes of the name. */
  datatype Upload = Upload(filename: string, mimetype: Option<string>, size: nat, sanitized: string)

  /** A `FileStorage` is false when its file name is empty. */
  predicate Present(f: Option<Upload>)
  {
    f.Some? && f.value.filename != ""
  }

  datatype MusicError =
    | NoFile
    | NoExtension
    | ExtensionNotAllowed(ext: string)
    | NotMp3
    | TooLarge(size: nat)

  datatype SaveResult<E> = Saved(name: string) | Failed(error: E)

  /** `size / (1024 * 1024) > limit` on the byte count: the division by a
      power of two is exact in floating point. */
  predicate OverMegabytes(size: nat, limit: nat)
  {
    size > limit * BytesPerMegabyte
  }

  function MimeLower(m: Option<string>): string
  {
    match m
    case Some(t) => Lower(t)
    case None => ""
  }

  /** `save_music` up to the file write, with `stamp` the formatted
      `utcnow()`. The checks run in the order the source runs them. */
  function SaveMusic(f: Option<Upload>, stamp: string): (r: SaveResult<MusicError>)
    ensures !Present(f) ==> r == Failed(NoFile)
    ensures r.Saved? ==> Present(f) && ExtractExtension(f.value.filename) in MusicExtensions
    ensures r.Saved? ==> !OverMegabytes(f.value.size, MaxMusicMegabytes)
    ensures r.Saved? ==> StartsWith(r.name, "music_" + stamp + "_")
  {
    if !Present(f) then Failed(NoFile)
    else
      var u := f.value;
      var ext := ExtractExtension(u.filename);
      if ext == "" then Failed(NoExtension)
      else if ext !in MusicExtensions then Failed(ExtensionNotAllowed(ext))
      else
        var mime := MimeLower(u.mimetype);
        if !Contains(mime, "mpeg") && !Contains(mime, "mp3") then Failed(NotMp3)
        else
          var filename := if u.sanitized == "" then "music." + ext else u.sanitized;
          if OverMegabytes(u.size, MaxMusicMegabytes) then Failed(TooLarge(u.size))
          else
            Saved(MusicStoredName(stamp, Stem(PathName(filename)), ext))
  }

  /** `f"music_{timestamp}_{safe_stem}.{ext}"`, where the stem of the
      sanitised name falls back to "music" when it is empty. */
  function MusicStoredName(stamp: string, stem: string, ext: string): (name: string)
    ensures StartsWith(name, "music_" + stamp + "_")
  {
    var safeStem := if stem == "" then "music" else stem;
    var prefix := "music_" + stamp + "_";
    StartsWithConcat(prefix, safeStem + "." + ext);
    prefix + (safeStem + "." + ext)
  }

  /** Each failure is returned exactly when every earlier check passed and
      this one failed, so the first failing check decides the error. */
  lemma SaveMusicCheckOrder(u: Upload, stamp: string)
    requires u.filename != ""
    ensures var ext, mime, r := ExtractExtension(u.filename), MimeLower(u.mimetype), SaveMusic(Some(u), stamp);
      && (r == Failed(NoExtension) <==> ext == "")
      && (r == Failed(ExtensionNotAllowed(ext)) <==> ext != "" && ext != "mp3")
      && (r == Failed(NotMp3) <==> ext == "mp3" && !Contains(mime, "mpeg") && !Contains(mime, "mp3"))
      && (r == Failed(TooLarge(u.size)) <==>
            ext == "mp3" && (Contains(mime, "mpeg") || Contains(mime, "mp3")) && u.size > 50 * 1048576)
      && (r.Saved? <==> ext == "mp3" && (Contains(mime, "mpeg") || Contains(mime, "mp3")) && u.size <= 50 * 1048576)
  {
  }

  /** A bare name ending in a dot and a lower-case, dot-free extension has
      that extension. */
  lemma DottedNameExtension(head: string, ext: string)
    requires |head| >= 2 && head[|head| - 1] == '.'
    requires ext != "" && '.' !in ext && Lower(ext) == ext
    requires '/' !in head + ext && head + ext != "."
    ensures ExtractExtension(head + ext) == ext
  {
    var name := head + ext;
    var dot := |head| - 1;
    PathNameOfBareName(name);
    assert name[dot] == '.' && name[dot + 1..] == ext;
    forall k | dot < k < |name| ensures name[k] != '.' {
      assert name[k] == ext[k - dot - 1];
    }
    LastIndexOfIs(name, '.', dot);
    ExtractExtensionShape(name);
  }

  lemma StemHasNoSlash(name: string)
    requires '/' !in name
    ensures '/' !in Stem(name)
  {
    var stem := Stem(name);
    assert stem == name[..|stem|] by {
      assert stem + Suffix(name) == name;
    }
  }

  /** The stored music name keeps the checked extension: reading the
      extension back from it gives `ext`, and it is a bare file name. */
  lemma StoredNameKeepsExtension(stamp: string, stem: string, ext: string)
    requires '/' !in stamp && '/' !in stem
    requires ext != "" && '.' !in ext && '/' !in ext && Lower(ext) == ext
    ensures var name := MusicStoredName(stamp, stem, ext);
      ExtractExtension(name) == ext && '/' !in name
  {
    var safeStem := if stem == "" then "music" else stem;
    var prefix := "music_" + stamp + "_";
    var head := prefix + safeStem + ".";
    var name := prefix + (safeStem + "." + ext);
    assert name == head + ext;
    NotInConcat('/', "music_", stamp);
    NotInConcat('/', "music_" + stamp, "_");
    NotInConcat('/', prefix, safeStem);
    NotInConcat('/', prefix + safeStem, ".");
    NotInConcat('/', head, ext);
    DottedNameExtension(head, ext);
  }

  /** A saved music file is stored under a bare name whose extension is
      "mp3", so the stored file passes the same extension check. */
  lemma SavedMusicIsMp3(u: Upload, stamp: string)
    requires '/' !in stamp
    requires SaveMusic(Some(u), stamp).Saved?
    ensures var name := SaveMusic(Some(u), stamp).name;
      ExtractExtension(name) == "mp3" && AllowedFile(name, MusicExtensions) && '/' !in name
  {
    var ext := ExtractExtension(u.filename);
    ExtractExtensionShape(u.filename);
    var filename := if u.sanitized == "" then "music." + ext else u.sanitized;
    var stem := Stem(PathName(filename));
    StemHasNoSlash(PathName(filename));
    assert SaveMusic(Some(u), stamp) == Saved(MusicStoredName(stamp, stem, ext));
    StoredNameKeepsExtension(stamp, stem, ext);
  }

  /** Pins down `LastIndexOf` from a witness. */
  lemma {:induction false} LastIndexOfIs(s: string, c: char, i: nat)
    requires i < |s| && s[i] == c && forall k :: i < k < |s| ==> s[k] != c
    ensures LastIndexOf(s, c) == i
  {
    if i < |s| - 1 {
      LastIndexOfIs(s[..|s| - 1], c, i);
    }
  }

  /** `save_avatar` up to the file write: `None` for a missing file, a name
      whose extension is not an image one, or more than 5 MB. */
  function SaveAvatar(f: Option<Upload>, stamp: string): (r: Option<string>)
    ensures r.Some? <==>
      Present(f) && AllowedFile(f.value.sanitized, AvatarExtensions)
      && !OverMegabytes(f.value.size, MaxAvatarMegabytes)
    ensures r.Some? ==> Present(f) && r.value == "avatar_" + stamp + "_" + f.value.sanitized
  {
    if !Present(f) then None
    else
      var filename := f.value.sanitized;
      if !AllowedFile(filename, AvatarExtensions) then None
      else if OverMegabytes(f.value.size, MaxAvatarMegabytes) then None
      else Some("avatar_" + stamp + "_" + filename)
  }

  /** The 5 MB bound is 5 * 1024 * 1024 bytes: one byte more is refused. */
  lemma AvatarSizeBound(u: Upload, stamp: string)
    requires u.filename != "" && AllowedFile(u.sanitized, AvatarExtensions)
    ensures SaveAvatar(Some(u.(size := 5242880)), stamp).Some?
    ensures SaveAvatar(Some(u.(size := 5242881)), stamp).None?
  {
  }

  /** The number of an ASCII digit. */
  function DigitValue(c: char): (d: nat)
    requires IsAsciiDigit(c)
    ensures d < 10
  {
    c as int - '0' as int
  }

  /** `generate_room_code` from its six draws out of `string.digits`, each
      given here as the index of the drawn digit. */
  function RoomCodeOf(draws: seq<nat>): (code: string)
    requires |draws| == RoomCodeWidth && forall i :: 0 <= i < |draws| ==> draws[i] < 10
    ensures IsRoomCode(code)
    ensures forall i :: 0 <= i < |code| ==> DigitValue(code[i]) == draws[i]
  {
    seq(|draws|, i requires 0 <= i < |draws| && draws[i] < 10 => ('0' as int + draws[i]) as char)
  }

  /** Every room code can be drawn, and from exactly one sequence of draws. */
  lemma EveryRoomCodeIsDrawn(code: string)
    requires IsRoomCode(code)
    ensures var draws := seq(RoomCodeWidth, i requires 0 <= i < RoomCodeWidth => DigitValue(code[i]));
      (forall i :: 0 <= i < |draws| ==> draws[i] < 10) && RoomCodeOf(draws) == code
  {
  }

  lemma RoomCodeDrawsInjective(a: seq<nat>, b: seq<nat>)
    requires |a| == RoomCodeWidth && forall i :: 0 <= i < |a| ==> a[i] < 10
    requires |b| == RoomCodeWidth && forall i :: 0 <= i < |b| ==> b[i] < 10
    requires RoomCodeOf(a) == RoomCodeOf(b)
    ensures a == b
  {
    assert forall i :: 0 <= i < RoomCodeWidth ==> a[i] == DigitValue(RoomCodeOf(a)[i]) == b[i];
  }
}
