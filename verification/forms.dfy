/** The form validators of app/forms.py as predicates over the submitted
    field values. A WTForms form validates when every validator of every
    field passes; `DataRequired` refuses an empty or whitespace-only value,
    `Length` counts characters, `Regexp` calls Python's `re.match`. */
module Forms {
  import opened Common
  import opened Models

  /** Python `re.match(r"^<body>$", s)`: `$` also matches just before a final
      newline, so a value with one trailing "\n" matches whenever the value
      without it does. This is the behaviour of the patterns as written. */
  predicate AnchoredMatchAsWritten(s: string, body: string -> bool)
  {
    body(s) || (|s| >= 1 && s[|s| - 1] == '\n' && body(s[..|s| - 1]))
  }

  predicate IsWordChar(c: char)
  {
    ('a' <= c <= 'z') || ('A' <= c <= 'Z') || ('0' <= c <= '9') || c == '_'
  }

  /** The body of `^[a-zA-Z0-9_]+$`. */
  predicate IsWord(s: string)
  {
    |s| >= 1 && forall i :: 0 <= i < |s| ==> IsWordChar(s[i])
  }

  /** `Regexp(r"^[a-zA-Z0-9_]+$")` on the username, as written. */
  predicate UsernamePatternAsWritten(s: string)
  {
    AnchoredMatchAsWritten(s, IsWord)
  }

  /** `Regexp(r"^[0-9]{6}$")` on the room-join code, as written. */
  predicate RoomCodePatternAsWritten(s: string)
  {
    AnchoredMatchAsWritten(s, IsRoomCode)
  }

  /** The `$` anchor lets a code with a trailing newline through the join
      form although it is not six digits. */
  lemma RoomCodePatternAcceptsTrailingNewline()
    ensures RoomCodePatternAsWritten("123456\n") && !IsRoomCode("123456\n")
  {
    assert "123456\n"[..6] == "123456";
  }

  /** The same anchor lets a username with a trailing newline through. */
  lemma UsernamePatternAcceptsTrailingNewline()
    ensures UsernamePatternAsWritten("alice\n") && !IsWord("alice\n")
  {
    assert "alice\n"[..5] == "alice";
    assert !IsWordChar("alice\n"[5]);
  }

  /** The room-join code rule as evidently intended (a full match of six
      digits): it accepts exactly the codes rooms are given. */
  predicate RoomCodeFieldValid(code: string)
  {
    !IsBlank(code) && IsRoomCode(code)
  }

  lemma RoomCodeFieldIsSixDigits(code: string)
    ensures RoomCodeFieldValid(code) <==> IsRoomCode(code)
  {
    if IsRoomCode(code) {
      BlankIffAllSpace(code);
      assert !IsSpace(code[0]);
    }
  }

  /** The intended pattern accepts a subset of what the written one does,
      missing only values that end in a newline. */
  lemma RoomCodePatternDifference(s: string)
    ensures IsRoomCode(s) ==> RoomCodePatternAsWritten(s)
    ensures RoomCodePatternAsWritten(s) && !IsRoomCode(s) ==> |s| == 7 && s[6] == '\n'
  {
  }

  /** `Length(min=4, max=32)` and the (intended) full-match pattern on the
      username; `DataRequired` adds nothing, a word is never blank. */
  predicate UsernameFieldValid(username: string)
  {
    !IsBlank(username) && 4 <= |username| <= 32 && IsWord(username)
  }

  lemma UsernameFieldRule(username: string)
    ensures UsernameFieldValid(username) <==>
      4 <= |username| <= 32 && forall i :: 0 <= i < |username| ==> IsWordChar(username[i])
  {
    if 4 <= |username| && IsWord(username) {
      BlankIffAllSpace(username);
      assert !IsSpace(username[0]);
    }
  }

  const AdminPrefix: string := "admin_"

  /** `RegistrationForm.validate_username`: an empty role counts as "user";
      an admin name starts with `admin_` and has at least 8 characters, any
      other name must not start with `admin_`. */
  predicate UsernameFitsRole(role: string, username: string)
  {
    var r := if role == "" then "user" else role;
    if r == "admin" then StartsWith(username, AdminPrefix) && |username| >= 8
    else !StartsWith(username, AdminPrefix)
  }

  /** The prefix separates the two kinds of account: no name is acceptable
      both for an administrator and for an ordinary user. */
  lemma RoleNamesAreDisjoint(username: string, role: string)
    requires role != "admin"
    ensures !(UsernameFitsRole("admin", username) && UsernameFitsRole(role, username))
  {
  }

  predicate PasswordValid(password: string)
  {
    !IsBlank(password) && 6 <= |password| <= 64
  }

  /** `DataRequired` and `EqualTo("password")` on the confirmation. */
  predicate ConfirmationValid(confirm: string, password: string)
  {
    !IsBlank(confirm) && confirm == password
  }

  /** `SliderRequired`: the hidden slider field must hold "verified". */
  predicate SliderPassed(token: string)
  {
    token == "verified"
  }

  datatype RegistrationForm = RegistrationForm(
    username: string,
    role: string,
    secretKey: string,
    password: string,
    confirmPassword: string,
    sliderToken: string)

  /** Every field of `RegistrationForm` validates. The role is a select field
      with the choices "user" and "admin". The secret key has no validator. */
  predicate RegistrationValid(f: RegistrationForm)
  {
    && UsernameFieldValid(f.username)
    && UsernameFitsRole(f.role, f.username)
    && (f.role == "user" || f.role == "admin")
    && PasswordValid(f.password)
    && ConfirmationValid(f.confirmPassword, f.password)
    && SliderPassed(f.sliderToken)
  }

  /** `AdminRegistrationForm`: the role is forced to "admin" whatever was
      submitted, and the secret key is required (it is checked for presence
      only, against nothing). */
  predicate AdminRegistrationValid(f: RegistrationForm)
  {
    var forced := f.(role := "admin");
    && UsernameFieldValid(forced.username)
    && UsernameFitsRole(forced.role, forced.username)
    && !IsBlank(f.secretKey)
    && PasswordValid(f.password)
    && ConfirmationValid(f.confirmPassword, f.password)
    && SliderPassed(f.sliderToken)
  }

  /** A valid registration's username obeys the prefix rule of its role, is
      4 to 32 word characters, and its password is confirmed. */
  lemma RegistrationRules(f: RegistrationForm)
    requires RegistrationValid(f)
    ensures f.role == "admin" ==> StartsWith(f.username, AdminPrefix) && 8 <= |f.username| <= 32
    ensures f.role != "admin" ==> !StartsWith(f.username, AdminPrefix)
    ensures 4 <= |f.username| <= 32 && 6 <= |f.password| <= 64 && f.confirmPassword == f.password
    ensures f.sliderToken == "verified"
  {
  }

  /** The submitted role makes no difference to the admin form, and every
      name it accepts is an administrator's name. */
  lemma AdminRegistrationForcesRole(f: RegistrationForm, role: string)
    ensures AdminRegistrationValid(f) == AdminRegistrationValid(f.(role := role))
    ensures AdminRegistrationValid(f) ==> StartsWith(f.username, AdminPrefix) && |f.username| >= 8
  {
  }

  /** `LoginForm` and `AdminLoginForm`: both fields required. */
  predicate LoginFormValid(username: string, password: string)
  {
    !IsBlank(username) && !IsBlank(password)
  }

  /** `RoomCreateForm.name`: required, at most 32 characters. */
  predicate RoomNameValid(name: string)
  {
    !IsBlank(name) && |name| <= 32
  }

  /** `MusicUploadForm.title`: required, at most 64 characters. */
  predicate MusicTitleValid(title: string)
  {
    !IsBlank(title) && |title| <= 64
  }
}
