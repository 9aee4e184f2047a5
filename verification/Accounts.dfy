/** Sign-in over whole runs: what a session cookie is worth, as a function of the answered requests. */
module Accounts {
  import opened Base
  import opened Store
  import opened Routes
  import opened Runs
  import Audit
  import Cookies

  /** The account the create-admin command made for `username`. */
  ghost function Account(cfg: Config, h: History, username: string): Option<UserRow> {
    if h == [] then None
    else
      match Last(h).req
      case CreateUser(userId, name, role) =>
        if name == username && LastAnswer(cfg, h).Done? then Some(UserRow(userId, name, role)) else Account(cfg, Front(h), username)
      case _ => Account(cfg, Front(h), username)
  }

  datatype SignIn = SignIn(user: UserRow, at: Instant)

  /** The login that returned `token`, unless a logout with it was answered since. */
  ghost function LiveSignIn(cfg: Config, h: History, token: string): Option<SignIn> {
    if h == [] then None
    else
      match Last(h).req
      case Login(username, _, _) =>
        var user, answer := Account(cfg, Front(h), username), LastAnswer(cfg, h);
        if answer.LoggedIn? && answer.token == token && user.Some? then Some(SignIn(user.value, Last(h).now))
        else LiveSignIn(cfg, Front(h), token)
      case Logout(cookie) =>
        if cookie == Some(token) && LastAnswer(cfg, h).Done? then None else LiveSignIn(cfg, Front(h), token)
      case _ => LiveSignIn(cfg, Front(h), token)
  }

  function Ttl(cfg: Config): int { cfg.sessionTtlHours * 3_600_000 }

  ghost predicate AccountKept(cfg: Config, h: History, username: string) {
    var db, account := After(cfg, h), Account(cfg, h, username);
    && (username in db.usernames <==> account.Some?)
    && (account.Some? ==> db.usernames[username] in db.users && db.users[db.usernames[username]] == account.value)
  }

  lemma UsersStay(cfg: Config, db: Db, step: Step)
    ensures var db' := Apply(cfg, db, step).0;
            && (forall u :: u in db.users ==> u in db'.users && db'.users[u] == db.users[u])
            && (!step.req.CreateUser? ==> db'.users == db.users && db'.usernames == db.usernames)
  {
    if !step.req.Login? && !step.req.Logout? && !step.req.SweepSessionsTimer? && !step.req.CreateUser? {
      OnlyAccountsWriteSessions(cfg, db, step);
    }
  }

  lemma {:induction false} AccountsAreHistory(cfg: Config, h: History, username: string)
    requires IsRun(h)
    ensures AccountKept(cfg, h, username)
  {
    if h == [] {
    } else {
      AccountsAreHistory(cfg, Front(h), username);
      RunKeepsInv(cfg, Front(h));
      UsersStay(cfg, After(cfg, Front(h)), Last(h));
    }
  }

  /** The stored session, against the sign-in it stands for. A row may be gone once it has expired. */
  ghost predicate SessionKept(cfg: Config, db: Db, signIn: Option<SignIn>, token: string, now: Instant) {
    var hash := HashSecret(token);
    && (hash in db.sessions ==>
          signIn.Some? && db.sessions[hash].expiresAt == signIn.value.at + Ttl(cfg)
          && db.sessions[hash].userId == signIn.value.user.id
          && signIn.value.user.id in db.users && db.users[signIn.value.user.id] == signIn.value.user)
    && (hash !in db.sessions && signIn.Some? ==> signIn.value.at + Ttl(cfg) <= now)
  }

  lemma LoginKept(cfg: Config, h: History, token: string)
    requires h != [] && IsRun(h) && Last(h).req.Login?
    requires SessionKept(cfg, After(cfg, Front(h)), LiveSignIn(cfg, Front(h), token), token, Last(h).now)
    ensures SessionKept(cfg, After(cfg, h), LiveSignIn(cfg, h, token), token, Last(h).now)
  {
    RunKeepsInv(cfg, Front(h));
    AccountsAreHistory(cfg, Front(h), Last(h).req.username);
  }

  lemma StepKept(cfg: Config, h: History, token: string)
    requires h != [] && IsRun(h) && !Last(h).req.Login?
    requires SessionKept(cfg, After(cfg, Front(h)), LiveSignIn(cfg, Front(h), token), token, Last(h).now)
    ensures SessionKept(cfg, After(cfg, h), LiveSignIn(cfg, h, token), token, Last(h).now)
  {
    var db, step := After(cfg, Front(h)), Last(h);
    UsersStay(cfg, db, step);
    if !step.req.Logout? && !step.req.SweepSessionsTimer? && !step.req.CreateUser? {
      OnlyAccountsWriteSessions(cfg, db, step);
    }
  }

  lemma {:induction false} SessionsAreKept(cfg: Config, h: History, token: string, now: Instant)
    requires IsRun(h) && NotBefore(h, now)
    ensures SessionKept(cfg, After(cfg, h), LiveSignIn(cfg, h, token), token, now)
  {
    if h == [] {
    } else {
      SessionsAreKept(cfg, Front(h), token, Last(h).now);
      if Last(h).req.Login? { LoginKept(cfg, h, token); } else { StepKept(cfg, h, token); }
    }
  }

  /** A session cookie signs its bearer in exactly when a login returned it, as the account that login
      named, for the configured hours after that login, and until a logout with it is answered. */
  lemma SessionIsHistory(cfg: Config, h: History, token: string, now: Instant)
    requires IsRun(h) && NotBefore(h, now) && token != ""
    ensures SignedIn(After(cfg, h), Some(token), now) ==
            match LiveSignIn(cfg, h, token)
            case None => None
            case Some(s) => if now < s.at + Ttl(cfg) then Some(s.user) else None
  {
    SessionsAreKept(cfg, h, token, now);
  }

  // ----- from the Cookie header -----

  const SESSION_COOKIE_NAME: string := "ops_session"

  /** The session cookie of a request, read from its Cookie header. */
  function SessionCookieOf(header: Option<string>): Option<string> {
    var cookies := if header.None? then map[] else Cookies.ParseParts(Cookies.Split(header.value, ';'));
    if SESSION_COOKIE_NAME in cookies then Some(cookies[SESSION_COOKIE_NAME]) else None
  }

  lemma HeaderCarriesSession(cookies: seq<Cookies.Cookie>, i: nat)
    requires Cookies.AllPlain(cookies) && i < |cookies| && cookies[i].name == SESSION_COOKIE_NAME
    requires forall j :: i < j < |cookies| ==> cookies[j].name != SESSION_COOKIE_NAME
    ensures SessionCookieOf(Some(Cookies.Print(Cookies.EncodeValues(cookies)))) == Some(cookies[i].value)
  {
    Cookies.CookieRoundTrip(cookies);
    Cookies.LastOfName(cookies, i);
  }

  /** From header to account: a Cookie header, whatever other cookies it joins, signs its bearer in exactly
      when a login returned the token of its last session cookie, within its hours and before a logout. */
  lemma HeaderIsHistory(cfg: Config, h: History, cookies: seq<Cookies.Cookie>, i: nat, now: Instant)
    requires IsRun(h) && NotBefore(h, now)
    requires Cookies.AllPlain(cookies) && i < |cookies| && cookies[i].name == SESSION_COOKIE_NAME && cookies[i].value != ""
    requires forall j :: i < j < |cookies| ==> cookies[j].name != SESSION_COOKIE_NAME
    ensures SignedIn(After(cfg, h), SessionCookieOf(Some(Cookies.Print(Cookies.EncodeValues(cookies)))), now) ==
            match LiveSignIn(cfg, h, cookies[i].value)
            case None => None
            case Some(s) => if now < s.at + Ttl(cfg) then Some(s.user) else None
  {
    HeaderCarriesSession(cookies, i);
    SessionIsHistory(cfg, h, cookies[i].value, now);
  }

  // ----- the awaited password check -----

  lemma {:induction false} AccountStays(cfg: Config, h: History, g: History, username: string)
    requires IsRun(h + g) && Account(cfg, h, username).Some?
    ensures Account(cfg, h + g, username) == Account(cfg, h, username)
  {
    if g == [] {
      assert h + g == h;
    } else {
      var hg := h + g;
      assert Front(hg) == h + Front(g);
      AccountStays(cfg, h, Front(g), username);
      AccountsAreHistory(cfg, Front(hg), username);
    }
  }

  /** A login looks the account up before it awaits the password check, and answers after it. Whatever
      requests run in between, the answer and the effect are those of one login step at the later
      instant: a password counts as right only if the account was there to check it against. */
  lemma EarlierLookupSuffices(cfg: Config, h: History, g: History, username: string, passwordValid: bool, token: string, now: Instant)
    requires IsRun(h) && IsRun(h + g)
    ensures var user := LookupUser(After(cfg, h), username);
            FinishLogin(After(cfg, h + g), now, cfg, user, passwordValid, token) ==
            LoginRoute(After(cfg, h + g), now, cfg, username, user.Some? && passwordValid, token)
  {
    AccountsAreHistory(cfg, h, username);
    AccountsAreHistory(cfg, h + g, username);
    if Account(cfg, h, username).Some? { AccountStays(cfg, h, g, username); }
  }

  /** The admin gate: every audit row was written by an account whose role is admin. */
  lemma {:induction false} AuditNamesAdmins(cfg: Config, h: History, i: nat)
    requires IsRun(h) && i < |After(cfg, h).actions|
    ensures var db := After(cfg, h);
            db.actions[i].adminUserId in db.users && db.users[db.actions[i].adminUserId].role == Admin
  {
    if h == [] {
    } else {
      var db, step := After(cfg, Front(h)), Last(h);
      RunKeepsInv(cfg, Front(h));
      UsersStay(cfg, db, step);
      if NeedsAdmin(step.req) { Audit.AdminStepActions(db, step.now, step.req); } else { OnlyAdminsWriteActions(cfg, db, step); }
      if i < |db.actions| { AuditNamesAdmins(cfg, Front(h), i); }
    }
  }
}
