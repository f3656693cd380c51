/** The sign-in and registration pages of app/auth.py. `session` is the
    signed-in user, if any. Password hashing is a parameter: `hash` is the
    salted hash `set_password` stores and `verify(hash, password)` is
    `check_password`. */
module Auth {
  import opened Common
  import opened Models
  import opened Store
  import opened Forms
  import opened Limiter

  datatype Page = UserDashboard | AdminDashboard | AdminLoginPage

  datatype AuthOutcome =
    | AlreadySignedIn(to: Page)
    | FormRejected
    | Throttled
    | BadCredentials
    | NameTaken
    | SignedIn(userId: nat)
    | Registered(userId: nat, signedIn: bool, to: Page)

  datatype AuthStep = AuthStep(tables: Tables, outcome: AuthOutcome)

  function AccountIs(username: string, isAdmin: bool): User -> bool
  {
    (u: User) => u.username == username && u.isAdmin == isAdmin
  }

  /** `User.query.filter_by(username=…, is_admin=…).first()`. */
  function FindAccount(users: seq<User>, username: string, isAdmin: bool): (k: int)
    ensures -1 <= k < |users|
    ensures k >= 0 ==> users[k].username == username && users[k].isAdmin == isAdmin
    ensures k == -1 <==> forall j :: 0 <= j < |users| ==> !(users[j].username == username && users[j].isAdmin == isAdmin)
  {
    var k := FirstIndex(users, AccountIs(username, isAdmin));
    assert forall j :: 0 <= j < |users| ==>
      (AccountIs(username, isAdmin)(users[j]) <==> users[j].username == username && users[j].isAdmin == isAdmin);
    k
  }

  function HomeOf(u: User): Page
  {
    if u.isAdmin then AdminDashboard else UserDashboard
  }

  /** `register`: a signed-in visitor is sent home; a valid form with a
      free name adds a user, an administrator exactly when the role is
      "admin", and signs them in. */
  function Register(t: Tables, session: Option<User>, f: RegistrationForm, hash: string): AuthStep
  {
    if session.Some? then AuthStep(t, AlreadySignedIn(HomeOf(session.value)))
    else if !RegistrationValid(f) then AuthStep(t, FormRejected)
    else if FindUserByName(t.users, f.username) >= 0 then AuthStep(t, NameTaken)
    else
      var u := NewUser(NextRowId(t.users, UserRowId), f.username, hash, f.role == "admin");
      AuthStep(t.(users := t.users + [u]), Registered(u.id, true, HomeOf(u)))
  }

  /** `admin_register`: only a signed-in administrator is sent away; a valid
      form with a free name adds an administrator, whatever role was
      submitted, without signing them in. */
  function AdminRegister(t: Tables, session: Option<User>, f: RegistrationForm, hash: string): AuthStep
  {
    if session.Some? && session.value.isAdmin then AuthStep(t, AlreadySignedIn(AdminDashboard))
    else if !AdminRegistrationValid(f) then AuthStep(t, FormRejected)
    else if FindUserByName(t.users, f.username) >= 0 then AuthStep(t, NameTaken)
    else
      var u := NewUser(NextRowId(t.users, UserRowId), f.username, hash, true);
      AuthStep(t.(users := t.users + [u]), Registered(u.id, false, AdminLoginPage))
  }

  /** A registration adds exactly one user, with a fresh key and a name no
      user had, when and only when nobody is signed in, the form is valid
      and the name is free; the new account is an administrator exactly
      when the role is "admin", and then its name starts with `admin_`. */
  lemma RegisterRule(t: Tables, session: Option<User>, f: RegistrationForm, hash: string)
    ensures var s := Register(t, session, f, hash);
      && (s.outcome.Registered? <==>
            session.None? && RegistrationValid(f) && forall u :: u in t.users ==> u.username != f.username)
      && (!s.outcome.Registered? ==> s.tables == t)
      && (s.outcome.Registered? ==>
            var u := s.tables.users[|t.users|];
            && s.tables == t.(users := t.users + [u])
            && u.username == f.username && u.passwordHash == hash && u.id == s.outcome.userId
            && (u.isAdmin <==> f.role == "admin")
            && (u.isAdmin ==> StartsWith(u.username, AdminPrefix))
            && (!u.isAdmin ==> !StartsWith(u.username, AdminPrefix))
            && s.outcome.to == (if u.isAdmin then AdminDashboard else UserDashboard)
            && s.outcome.signedIn
            && (forall i :: 0 <= i < |t.users| ==> t.users[i].id < u.id))
  {
    var s := Register(t, session, f, hash);
    if RegistrationValid(f) {
      RegistrationRules(f);
    }
    if session.None? && RegistrationValid(f) && FindUserByName(t.users, f.username) >= 0 {
      assert t.users[FindUserByName(t.users, f.username)] in t.users;
    }
  }

  /** The administrator form only ever creates administrators, with an
      `admin_` name of at least 8 characters, and never signs anyone in. */
  lemma AdminRegisterRule(t: Tables, session: Option<User>, f: RegistrationForm, hash: string)
    ensures var s := AdminRegister(t, session, f, hash);
      && (s.outcome.Registered? <==>
            !(session.Some? && session.value.isAdmin) && AdminRegistrationValid(f)
            && forall u :: u in t.users ==> u.username != f.username)
      && (!s.outcome.Registered? ==> s.tables == t)
      && (s.outcome.Registered? ==>
            var u := s.tables.users[|t.users|];
            && s.tables == t.(users := t.users + [u])
            && u.isAdmin && u.username == f.username && u.passwordHash == hash
            && StartsWith(u.username, AdminPrefix) && |u.username| >= 8
            && !s.outcome.signedIn && s.outcome.to == AdminLoginPage)
  {
    AdminRegistrationForcesRole(f, "admin");
    var s := AdminRegister(t, session, f, hash);
    if !(session.Some? && session.value.isAdmin) && AdminRegistrationValid(f) && FindUserByName(t.users, f.username) >= 0 {
      assert t.users[FindUserByName(t.users, f.username)] in t.users;
    }
  }

  /** Adding a user with a fresh key and a name nobody has keeps every rule. */
  lemma AppendUserKeepsValid(t: Tables, u: User)
    requires Valid(t)
    requires forall i :: 0 <= i < |t.users| ==> t.users[i].id < u.id
    requires FindUserByName(t.users, u.username) == -1
    ensures Valid(t.(users := t.users + [u]))
  {
    DistinctByAppend(t.users, u, UserRowId);
    DistinctByAppend(t.users, u, UserNameKey);
    assert forall id :: id in UserIds(t.users) ==> id in UserIds(t.users + [u]);
  }

  /** A newly registered ordinary user is the account the user login form
      finds under that name, holding the stored hash, and the administrator
      form finds no account under it. */
  lemma RegisteredUserIsFound(t: Tables, f: RegistrationForm, hash: string)
    requires Register(t, None, f, hash).outcome.Registered? && f.role != "admin"
    ensures var users := Register(t, None, f, hash).tables.users;
      && FindAccount(users, f.username, false) == |t.users|
      && users[|t.users|].passwordHash == hash
      && FindAccount(users, f.username, true) == -1
  {
    RegisterRule(t, None, f, hash);
    var users := Register(t, None, f, hash).tables.users;
    forall j | 0 <= j < |t.users| ensures users[j].username != f.username {
      assert users[j] == t.users[j] && t.users[j] in t.users;
    }
  }

  /** A registration either changes nothing or appends the one new user. */
  lemma RegisterShape(t: Tables, session: Option<User>, f: RegistrationForm, hash: string, isAdmin: bool)
    ensures var s := (if isAdmin then AdminRegister(t, session, f, hash) else Register(t, session, f, hash)).tables;
      var u := NewUser(NextRowId(t.users, UserRowId), f.username, hash, isAdmin || f.role == "admin");
      s == t || (FindUserByName(t.users, f.username) == -1 && s == t.(users := t.users + [u]))
  {
  }

  lemma RegisterKeepsValid(t: Tables, session: Option<User>, f: RegistrationForm, hash: string)
    requires Valid(t)
    ensures Valid(Register(t, session, f, hash).tables)
  {
    RegisterShape(t, session, f, hash, false);
    if Register(t, session, f, hash).tables != t {
      AppendUserKeepsValid(t, NewUser(NextRowId(t.users, UserRowId), f.username, hash, f.role == "admin"));
    }
  }

  lemma AdminRegisterKeepsValid(t: Tables, session: Option<User>, f: RegistrationForm, hash: string)
    requires Valid(t)
    ensures Valid(AdminRegister(t, session, f, hash).tables)
  {
    RegisterShape(t, session, f, hash, true);
    if AdminRegister(t, session, f, hash).tables != t {
      AppendUserKeepsValid(t, NewUser(NextRowId(t.users, UserRowId), f.username, hash, true));
    }
  }

  /** `admin_login`: a signed-in administrator is sent to the admin
      dashboard; otherwise only an administrator account with a matching
      password is signed in. The limiter is never consulted. */
  function AdminLogin(t: Tables, session: Option<User>, username: string, password: string,
                      verify: (string, string) -> bool): (r: AuthOutcome)
    ensures r != Throttled
    ensures session.Some? && session.value.isAdmin ==> r == AlreadySignedIn(AdminDashboard)
    ensures !(session.Some? && session.value.isAdmin) && !LoginFormValid(username, password) ==> r == FormRejected
    ensures !(session.Some? && session.value.isAdmin) && LoginFormValid(username, password) ==>
      var k := FindAccount(t.users, username, true);
      && (r.SignedIn? <==> k >= 0 && verify(t.users[k].passwordHash, password))
      && (r.SignedIn? ==> r.userId == t.users[k].id)
      && (!r.SignedIn? ==> r == BadCredentials)
    ensures r.SignedIn? ==> exists u :: u in t.users && u.id == r.userId && u.isAdmin && verify(u.passwordHash, password)
  {
    if session.Some? && session.value.isAdmin then AlreadySignedIn(AdminDashboard)
    else if !LoginFormValid(username, password) then FormRejected
    else
      var k := FindAccount(t.users, username, true);
      if k >= 0 && verify(t.users[k].passwordHash, password) then
        assert t.users[k] in t.users;
        SignedIn(t.users[k].id)
      else BadCredentials
  }

  /** `login`: a signed-in ordinary user is sent to their dashboard (a
      signed-in administrator may go on). With a valid form the limiter is
      consulted first, so a locked-out name is refused whatever the
      password; then only a non-administrator account with a matching
      password is signed in, which clears the name's failures, and any
      other attempt records one more failure. */
  method Login(limiter: FailedLogins, t: Tables, session: Option<User>, username: string, password: string,
               verify: (string, string) -> bool, now: int) returns (r: AuthOutcome)
    modifies limiter
    ensures session.Some? && !session.value.isAdmin ==>
      r == AlreadySignedIn(UserDashboard) && limiter.attempts == old(limiter.attempts)
    ensures !(session.Some? && !session.value.isAdmin) && !LoginFormValid(username, password) ==>
      r == FormRejected && limiter.attempts == old(limiter.attempts)
    ensures !(session.Some? && !session.value.isAdmin) && LoginFormValid(username, password) ==>
      var stamps := old(limiter.Failures(username));
      var pruned := old(limiter.attempts)[username := Recent(stamps, now)];
      var k := FindAccount(t.users, username, false);
      var matches := k >= 0 && verify(t.users[k].passwordHash, password);
      && (!MayAttempt(stamps, now) ==> r == Throttled && limiter.attempts == pruned)
      && (MayAttempt(stamps, now) && matches ==>
            r == SignedIn(t.users[k].id) && limiter.attempts == pruned - {username})
      && (MayAttempt(stamps, now) && !matches ==>
            r == BadCredentials && limiter.attempts == pruned[username := Recent(stamps, now) + [now]])
  {
    if session.Some? && !session.value.isAdmin {
      return AlreadySignedIn(UserDashboard);
    }
    if !LoginFormValid(username, password) {
      return FormRejected;
    }
    var allowed := limiter.CanAttemptLogin(username, now);
    if !allowed {
      return Throttled;
    }
    var k := FindAccount(t.users, username, false);
    if k >= 0 && verify(t.users[k].passwordHash, password) {
      limiter.ClearFailedLogins(username);
      return SignedIn(t.users[k].id);
    }
    limiter.RecordFailedLogin(username, now);
    return BadCredentials;
  }

  /** Two wrong passwords within a minute lock a name out: the third
      attempt is refused even before the password is looked at. */
  method LockoutAfterTwoFailures(limiter: FailedLogins, t: Tables, username: string, wrong: string, right: string,
                                 verify: (string, string) -> bool, t0: int, t1: int, t2: int)
    returns (r0: AuthOutcome, r1: AuthOutcome, r2: AuthOutcome)
    requires LoginFormValid(username, wrong) && LoginFormValid(username, right)
    requires limiter.Failures(username) == []
    requires FindAccount(t.users, username, false) == -1
             || !verify(t.users[FindAccount(t.users, username, false)].passwordHash, wrong)
    requires t0 <= t1 <= t2 && t2 - t0 < LockoutMicros
    modifies limiter
    ensures r0 == BadCredentials && r1 == BadCredentials && r2 == Throttled
  {
    assert Recent([], t0) == [];
    r0 := Login(limiter, t, None, username, wrong, verify, t0);
    assert limiter.Failures(username) == [t0];
    RecentAppend([], t0, t1);
    r1 := Login(limiter, t, None, username, wrong, verify, t1);
    assert limiter.Failures(username) == [t0] + [t1];
    TwoRecentFailuresLock([], t0, t1, t2);
    assert [] + [t0] + [t1] == [t0] + [t1];
    r2 := Login(limiter, t, None, username, right, verify, t2);
  }
}
