/** The handlers and timers as they run: guard, repository calls in order, answer. Each is proved to
    make exactly the step that module Routes gives it, which is what the run theorems are about. */
module Api {
  import opened Base
  import opened Events
  import opened Store
  import opened Routes
  import opened Repository
  import Accounts
  import Cookies
  import Limiter
  import Monitor

  // ----- guards -----

  /** requireSession, with the session cookie already read. */
  method RequireSession(repo: OperationsRepository, cookie: Option<string>, now: Instant) returns (user: Option<UserRow>)
    ensures user == SignedIn(repo.Snapshot(), cookie, now)
  {
    if cookie.None? || cookie.value == "" {
      return None;
    }
    user := repo.GetSessionByTokenHash(HashSecret(cookie.value), now);
  }

  /** The same from the Cookie header on. */
  method Authenticate(repo: OperationsRepository, header: Option<string>, now: Instant) returns (user: Option<UserRow>)
    ensures user == SignedIn(repo.Snapshot(), Accounts.SessionCookieOf(header), now)
  {
    var cookies := Cookies.ParseCookies(header);
    var token := if Accounts.SESSION_COOKIE_NAME in cookies then Some(cookies[Accounts.SESSION_COOKIE_NAME]) else None;
    user := RequireSession(repo, token, now);
  }

  method RequireApiKey(repo: OperationsRepository, apiKey: Option<string>) returns (server: Option<ServerRow>)
    requires repo.Valid()
    ensures server == AuthenticatedServer(repo.Snapshot(), apiKey)
  {
    if apiKey.None? || apiKey.value == "" {
      return None;
    }
    server := repo.FindApprovedServerByApiKeyHash(HashSecret(apiKey.value));
  }

  // ----- enrollment -----

  method PostEnroll(repo: OperationsRepository, now: Instant, id: Id, institution: string, product: Product, hostname: string, claim: string)
    returns (a: Answer)
    modifies repo`servers
    ensures (repo.Snapshot(), a) == EnrollRoute(old(repo.Snapshot()), now, id, institution, product, hostname, claim)
  {
    var locked := repo.UpsertPendingServer(id, institution, product, hostname, claim, now);
    if locked {
      return Conflict(repo.servers[id].status);
    }
    a := ClaimReply(claim);
  }

  method GetEnroll(repo: OperationsRepository, now: Instant, id: Id, presented: Option<string>) returns (a: Answer)
    ensures a == PollRoute(repo.Snapshot(), now, id, presented)
  {
    var server := repo.GetServer(id);
    if server.None? || server.value.status == Revoked || !ClaimMatches(server.value, presented) {
      return NotFound;
    }
    if server.value.status != Approved {
      return PollReply(server.value.status, None);
    }
    var key := repo.ReadPendingApiKey(id, now);
    a := PollReply(server.value.status, key);
  }

  // ----- admin -----

  method PostApprove(repo: OperationsRepository, now: Instant, admin: Id, id: Id, key: string) returns (a: Answer)
    modifies repo`servers, repo`actions
    ensures (repo.Snapshot(), a) == ApproveRoute(old(repo.Snapshot()), now, admin, id, key)
  {
    var server := repo.GetServer(id);
    if server.None? {
      return NotFound;
    }
    if server.value.status != Pending {
      return Conflict(server.value.status);
    }
    var approved := repo.ApproveServer(id, key, HashSecret(key), now);
    repo.RecordAdminAction(ApproveAction, id, admin, None, now);
    a := StatusReply(approved.value.status);
  }

  method PostRevoke(repo: OperationsRepository, now: Instant, admin: Id, id: Id, reason: Option<string>) returns (a: Answer)
    modifies repo`servers, repo`actions
    ensures (repo.Snapshot(), a) == RevokeRoute(old(repo.Snapshot()), now, admin, id, reason)
  {
    var server := repo.GetServer(id);
    if server.None? {
      return NotFound;
    }
    if server.value.status == Revoked {
      return Conflict(server.value.status);
    }
    var status := server.value.status;
    var changed, row := repo.RevokeServer(id);
    if !changed {
      return Conflict(status);
    }
    repo.RecordAdminAction(RevokeAction, id, admin, reason, now);
    a := StatusReply(row.value.status);
  }

  method PostReissue(repo: OperationsRepository, now: Instant, admin: Id, id: Id, reason: Option<string>, key: string) returns (a: Answer)
    modifies repo`servers, repo`actions
    ensures (repo.Snapshot(), a) == ReissueRoute(old(repo.Snapshot()), now, admin, id, reason, key)
  {
    var server := repo.GetServer(id);
    if server.None? {
      return NotFound;
    }
    if server.value.status == Pending {
      return Conflict(server.value.status);
    }
    var status := server.value.status;
    var changed, row := repo.ReissueApiKey(id, HashSecret(key), now);
    if !changed {
      return Conflict(status);
    }
    repo.RecordAdminAction(ReissueAction, id, admin, reason, now);
    a := KeyReply(row.value.status, key);
  }

  /** requireRole('admin') in front of a lifecycle handler. */
  method AdminOnly(repo: OperationsRepository, now: Instant, req: Request) returns (a: Answer)
    requires NeedsAdmin(req)
    modifies repo`servers, repo`actions
    ensures (repo.Snapshot(), a) == GuardedAdminRoute(old(repo.Snapshot()), now, req)
  {
    var user := RequireSession(repo, req.cookie, now);
    if user.None? {
      return Unauthorized;
    }
    if user.value.role != Admin {
      return Forbidden;
    }
    match req {
      case PostApprove(_, id, key) => a := PostApprove(repo, now, user.value.id, id, key);
      case PostRevoke(_, id, reason) => a := PostRevoke(repo, now, user.value.id, id, reason);
      case PostReissue(_, id, reason, key) => a := PostReissue(repo, now, user.value.id, id, reason, key);
    }
  }

  /** groupLatestEventsByServer. */
  method GroupLatestEventsByServer(rows: seq<EventRow>) returns (grouped: map<Id, ByCategory>)
    ensures grouped == Group(rows)
  {
    grouped := map[];
    var i := 0;
    while i < |rows|
      invariant 0 <= i <= |rows|
      invariant grouped == Group(rows[..i])
    {
      var row := rows[i];
      assert rows[..i + 1][..i] == rows[..i];
      if row.serverId !in grouped {
        grouped := grouped[row.serverId := map[]];
      }
      grouped := grouped[row.serverId := grouped[row.serverId][row.category := CategoryStatus(row.severity, row.createdAt, row.payload)]];
      i := i + 1;
    }
    assert rows[..|rows|] == rows;
  }

  /** The overview's array: every server once with its own view, newest enrollment first. */
  ghost predicate IsPage(page: seq<ServerView>, view: map<Id, ServerView>) {
    && (forall i :: 0 <= i < |page| ==> page[i].server.id in view && view[page[i].server.id] == page[i])
    && (forall id :: id in view ==> exists i :: 0 <= i < |page| && page[i].server.id == id)
    && (forall i, j :: 0 <= i < j < |page| ==> page[i].server.id != page[j].server.id
                                               && page[i].server.createdAt >= page[j].server.createdAt)
  }

  lemma PageOfListing(rows: seq<ServerRow>, page: seq<ServerView>, servers: Servers, now: Instant, cfg: Config, latest: map<Id, ByCategory>)
    requires IsListing(rows, servers) && |page| == |rows|
    requires forall i :: 0 <= i < |rows| ==> page[i] == ViewOf(rows[i], now, cfg, latest)
    ensures IsPage(page, map id | id in servers :: ViewOf(servers[id], now, cfg, latest))
  {
    forall i | 0 <= i < |page| ensures page[i].server.id in servers && page[i] == ViewOf(servers[page[i].server.id], now, cfg, latest) {
      assert rows[i] in rows;
    }
    forall id | id in servers ensures exists i :: 0 <= i < |page| && page[i].server.id == id {
      var r :| r in rows && r.id == id;
      var i :| 0 <= i < |rows| && rows[i] == r;
      assert page[i].server.id == id;
    }
  }

  method GetFleet(repo: OperationsRepository, now: Instant, cfg: Config) returns (page: seq<ServerView>)
    requires repo.Valid()
    ensures IsPage(page, FleetView(repo.Snapshot(), now, cfg))
  {
    var servers := repo.ListServers();
    var latest := repo.ListLatestEventPerCategoryForAllServers();
    var latestByServer := GroupLatestEventsByServer(latest);
    page := [];
    var i := 0;
    while i < |servers|
      invariant 0 <= i <= |servers| && |page| == i
      invariant forall j :: 0 <= j < i ==> page[j] == ViewOf(servers[j], now, cfg, latestByServer)
    {
      page := page + [ViewOf(servers[i], now, cfg, latestByServer)];
      i := i + 1;
    }
    PageOfListing(servers, page, repo.servers, now, cfg, latestByServer);
  }

  /** The page as the map that answers are compared by. */
  function ByServer(page: seq<ServerView>): map<Id, ServerView> {
    if page == [] then map[] else ByServer(page[..|page| - 1])[page[|page| - 1].server.id := page[|page| - 1]]
  }

  lemma {:induction false} ByServerEntries(page: seq<ServerView>, id: Id)
    requires forall i, j :: 0 <= i < j < |page| ==> page[i].server.id != page[j].server.id
    ensures id in ByServer(page) <==> exists i :: 0 <= i < |page| && page[i].server.id == id
    ensures forall i :: 0 <= i < |page| && page[i].server.id == id ==> id in ByServer(page) && ByServer(page)[id] == page[i]
  {
    if page == [] {
    } else {
      var n := |page| - 1;
      ByServerEntries(page[..n], id);
      assert forall i :: 0 <= i < n ==> page[..n][i] == page[i];
      if id in ByServer(page) && page[n].server.id != id {
        var i :| 0 <= i < n && page[..n][i].server.id == id;
        assert page[i].server.id == id;
      }
    }
  }

  lemma PageIsView(page: seq<ServerView>, view: map<Id, ServerView>)
    requires IsPage(page, view)
    ensures ByServer(page) == view
  {
    forall id ensures id in ByServer(page) <==> id in view
              ensures id in view ==> id in ByServer(page) && ByServer(page)[id] == view[id]
    {
      ByServerEntries(page, id);
    }
  }

  /** The answer, and the page's list of recent events beside it. */
  method GetServerDetail(repo: OperationsRepository, now: Instant, id: Id, cfg: Config) returns (a: Answer, recent: seq<EventRow>)
    requires repo.Valid()
    ensures a == DetailView(repo.Snapshot(), now, id, cfg)
    ensures a.Details? ==> AreRecent(recent, repo.events, id, 1000)
  {
    recent := [];
    var server := repo.GetServer(id);
    if server.None? {
      return NotFound, recent;
    }
    recent := repo.ListRecentEvents(id, 1000);
    var rows := repo.ListLatestEventPerCategory(id);
    var latestByCategory: ByCategory := map[];
    var i := 0;
    while i < |rows|
      invariant 0 <= i <= |rows|
      invariant latestByCategory == Collect(rows[..i])
    {
      assert rows[..i + 1][..i] == rows[..i];
      latestByCategory := latestByCategory[rows[i].category := CategoryStatus(rows[i].severity, rows[i].createdAt, rows[i].payload)];
      i := i + 1;
    }
    assert rows[..|rows|] == rows;
    var actions := repo.ListAdminActions(id, 20);
    a := Details(ServerView(ToPublic(server.value), IsOnline(server.value, now, cfg), latestByCategory), ViewActions(actions));
  }

  method SignedInView(repo: OperationsRepository, now: Instant, cfg: Config, req: Request) returns (a: Answer)
    requires NeedsSession(req) && repo.Valid()
    ensures a == ViewRoute(repo.Snapshot(), now, cfg, req)
  {
    var user := RequireSession(repo, req.cookie, now);
    if user.None? {
      return Unauthorized;
    }
    match req {
      case GetFleet(_) =>
        var page := GetFleet(repo, now, cfg);
        PageIsView(page, FleetView(repo.Snapshot(), now, cfg));
        a := Fleet(ByServer(page));
      case GetServer(_, id) =>
        var recent;
        a, recent := GetServerDetail(repo, now, id, cfg);
      case GetMe(_) =>
        a := Identity(user.value.username, user.value.role);
    }
  }

  // ----- agents -----

  method AgentRequest(repo: OperationsRepository, now: Instant, req: Request) returns (a: Answer)
    requires (req.PostEvent? || req.PostHeartbeat?) && repo.Valid()
    modifies repo`servers, repo`events, repo`lastEventId
    ensures (repo.Snapshot(), a) == AgentRoute(old(repo.Snapshot()), now, req)
  {
    var server := RequireApiKey(repo, req.apiKey);
    if server.None? {
      return Unauthorized;
    }
    if req.PostEvent? {
      repo.InsertEvent(ToPost(req, server.value.id, now));
      repo.TouchLastSeen(server.value.id, now);
    } else {
      repo.TouchHeartbeat(server.value.id, now, req.version);
    }
    a := Accepted;
  }

  // ----- accounts -----

  /** The create-admin command. */
  method CreateUser(repo: OperationsRepository, userId: Id, username: string, role: Role) returns (a: Answer)
    modifies repo`users, repo`usernames
    ensures (repo.Snapshot(), a) == CreateUserCommand(old(repo.Snapshot()), userId, username, role)
  {
    if username in repo.usernames {
      return Rejected;
    }
    if userId in repo.users {
      return Crashed;
    }
    repo.users := repo.users[userId := UserRow(userId, username, role)];
    repo.usernames := repo.usernames[username := userId];
    a := Done;
  }

  /** The store part of POST /auth/login, as one step. */
  method Login(repo: OperationsRepository, now: Instant, cfg: Config, username: string, passwordValid: bool, token: string) returns (a: Answer)
    requires repo.Valid()
    modifies repo`sessions
    ensures (repo.Snapshot(), a) == LoginRoute(old(repo.Snapshot()), now, cfg, username, passwordValid, token)
  {
    var user := repo.GetUserByUsername(username);
    a := AnswerLogin(repo, now, cfg, user, passwordValid, token);
  }

  /** The rest of the handler, once the password has been checked. */
  method AnswerLogin(repo: OperationsRepository, now: Instant, cfg: Config, user: Option<UserRow>, passwordValid: bool, token: string) returns (a: Answer)
    modifies repo`sessions
    ensures (repo.Snapshot(), a) == FinishLogin(old(repo.Snapshot()), now, cfg, user, passwordValid, token)
  {
    if user.None? || !passwordValid {
      return Unauthorized;
    }
    var expiresAt := now + cfg.sessionTtlHours * 60 * 60 * 1000;
    var inserted := repo.CreateSession(HashSecret(token), user.value.id, now, expiresAt);
    if !inserted {
      return Crashed;
    }
    a := LoggedIn(token, user.value.role);
  }

  /** The auth router: its own limiter, and POST /auth/login in the two parts that the awaited password
      check leaves, so that any other request may run between them. */
  class AuthRouter {
    const repository: OperationsRepository
    const loginLimiter: Limiter.LoginAttemptLimiter
    /** The gate answers and outcomes of all login attempts. */
    ghost var trace: seq<Limiter.LoginEvent>

    ghost predicate Valid()
      reads this, loginLimiter
    {
      && loginLimiter.Valid() && Limiter.Calls(trace) == loginLimiter.log
      && loginLimiter.maxAttempts == 5 && loginLimiter.baseWindowMs == 30_000
      && forall i :: 0 <= i < |loginLimiter.log| ==> ' ' !in loginLimiter.log[i].ip
    }

    constructor (repository: OperationsRepository)
      ensures Valid() && trace == [] && this.repository == repository && fresh(loginLimiter)
    {
      this.repository := repository;
      loginLimiter := new Limiter.LoginAttemptLimiter();
      trace := [];
    }

    /** Up to the password check: the gate, and the account as it is now. */
    method BeginLogin(username: string, ip: string, now: Instant) returns (retryInMs: int, user: Option<UserRow>)
      requires Valid() && repository.Valid() && ' ' !in ip
      modifies this`trace
      ensures Valid() && trace == old(trace) + [Limiter.Gate(username, ip, now)]
      ensures retryInMs == Limiter.HistoryWait(5, 30_000, Limiter.Times(old(trace), username, ip), now)
      ensures retryInMs == 0 ==> Limiter.Admitted(5, 30_000, trace, username, ip)
      ensures retryInMs == 0 ==> user == LookupUser(repository.Snapshot(), username)
    {
      Limiter.EntryIsPairHistory(loginLimiter.log, username, ip);
      retryInMs := loginLimiter.MsUntilAllowed(username, ip, now);
      user := None;
      if retryInMs <= 0 {
        user := repository.GetUserByUsername(username);
      }
      trace := trace + [Limiter.Gate(username, ip, now)];
      assert trace[..|old(trace)|] == old(trace);
    }

    /** From the password check on, with the account found before it: the step that the run theorems are
        about, and one recorded outcome. */
    method EndLogin(cfg: Config, username: string, ip: string, user: Option<UserRow>, passwordValid: bool, token: string, now: Instant)
      returns (a: Answer)
      requires Valid() && repository.Valid() && ' ' !in ip
      requires user.Some? ==> LookupUser(repository.Snapshot(), username) == user
      requires Fresh(Request.Login(username, user.Some? && passwordValid, token), repository.issued)
      modifies this`trace, loginLimiter, repository`sessions, repository`issued
      ensures Valid() && repository.Valid()
      ensures (repository.Snapshot(), a) ==
              Apply(cfg, old(repository.Snapshot()), Step(now, Request.Login(username, user.Some? && passwordValid, token)))
      ensures trace == old(trace) +
                [Limiter.Outcome(if a == Unauthorized then Limiter.Failure(username, ip, now) else Limiter.Call.Success(username, ip))]
    {
      RecordOutcome(username, ip, user.Some? && passwordValid, now);
      a := StoreLogin(repository, cfg, username, user, passwordValid, token, now);
    }

    method RecordOutcome(username: string, ip: string, granted: bool, now: Instant)
      requires Valid() && ' ' !in ip
      modifies this`trace, loginLimiter
      ensures Valid()
      ensures trace == old(trace) +
                [Limiter.Outcome(if granted then Limiter.Call.Success(username, ip) else Limiter.Failure(username, ip, now))]
    {
      if granted {
        loginLimiter.RecordSuccess(username, ip);
      } else {
        loginLimiter.RecordFailure(username, ip, now);
      }
      trace := trace + [Limiter.Outcome(if granted then Limiter.Call.Success(username, ip) else Limiter.Failure(username, ip, now))];
      assert trace[..|old(trace)|] == old(trace);
    }
  }

  method StoreLogin(repo: OperationsRepository, cfg: Config, username: string, user: Option<UserRow>, passwordValid: bool, token: string, now: Instant)
    returns (a: Answer)
    requires repo.Valid() && (user.Some? ==> LookupUser(repo.Snapshot(), username) == user)
    requires Fresh(Request.Login(username, user.Some? && passwordValid, token), repo.issued)
    modifies repo`sessions, repo`issued
    ensures repo.Valid() && (a == Unauthorized <==> !(user.Some? && passwordValid))
    ensures (repo.Snapshot(), a) ==
            Apply(cfg, old(repo.Snapshot()), Step(now, Request.Login(username, user.Some? && passwordValid, token)))
  {
    StepKeepsInv(cfg, repo.Snapshot(), repo.issued, Step(now, Request.Login(username, user.Some? && passwordValid, token)));
    a := AnswerLogin(repo, now, cfg, user, passwordValid, token);
    repo.issued := repo.issued + {token};
  }

  /** An attempt that begins at an open gate and ends keeps its pair's attempts going one at a time, if no
      other attempt of the pair was let through in between. */
  lemma AttemptIsOneAtATime(before: seq<Limiter.LoginEvent>, outcome: Limiter.Call)
    requires Limiter.OneAtATime(5, 30_000, before, outcome.username, outcome.ip)
    requires Limiter.Admitted(5, 30_000, before, outcome.username, outcome.ip)
    requires outcome.Failure? ==> forall e :: e in before ==> Limiter.TimedBy(e, outcome.at)
    ensures Limiter.OneAtATime(5, 30_000, before + [Limiter.Outcome(outcome)], outcome.username, outcome.ip)
  {
    Limiter.OneMoreOutcome(5, 30_000, before, outcome);
  }

  /** The bound on the router as it stands: what its limiter has counted against a pair whose attempts
      went one at a time was spread out in real time, however other requests and pairs interleaved. */
  lemma CountedFailuresAreSpread(router: AuthRouter, username: string, ip: string, k: nat)
    requires router.Valid() && ' ' !in ip && Limiter.OneAtATime(5, 30_000, router.trace, username, ip)
    requires Limiter.Key(username, ip) in router.loginLimiter.attempts
    requires router.loginLimiter.attempts[Limiter.Key(username, ip)].failures == 5 + k + 1
    ensures var times := Limiter.Times(router.trace, username, ip);
            |times| == 5 + k + 1 &&
            times[5 + k] - times[5] >= 30_000 * if k <= 5 then Limiter.Pow2(k) - 1 else 31 + 16 * (k - 5)
  {
    Limiter.EntryIsPairHistory(router.loginLimiter.log, username, ip);
    assert Limiter.KeyTimes(router.loginLimiter.log, Limiter.Key(username, ip)) == Limiter.Times(router.trace, username, ip);
    Limiter.BackoffBound(5, 30_000, router.trace, username, ip, k);
  }

  method Logout(repo: OperationsRepository, now: Instant, cookie: Option<string>) returns (a: Answer)
    modifies repo`sessions
    ensures (repo.Snapshot(), a) == LogoutRoute(old(repo.Snapshot()), now, cookie)
  {
    var user := RequireSession(repo, cookie, now);
    if user.None? {
      return Unauthorized;
    }
    repo.DeleteSessionByTokenHash(HashSecret(cookie.value));
    a := Done;
  }

  // ----- timers -----

  method Timer(repo: OperationsRepository, cfg: Config, now: Instant, req: Request)
    requires req.SweepKeysTimer? || req.SweepSessionsTimer? || req.RetentionTimer? || req.MarkOffline? || req.ClearOffline?
    modifies repo`servers, repo`sessions, repo`events
    ensures (repo.Snapshot(), Done) == Apply(cfg, old(repo.Snapshot()), Step(now, req))
  {
    match req {
      case SweepKeysTimer => var _ := repo.ExpirePendingApiKeys(now);
      case SweepSessionsTimer => var _ := repo.DeleteExpiredSessions(now);
      case RetentionTimer =>
        var cutoff := now - cfg.retentionDays * ONE_DAY_MS;
        var _ := repo.DeleteEventsOlderThan(cutoff);
      case MarkOffline(id, at) => repo.MarkOfflineAlerted(id, at);
      case ClearOffline(id) => repo.ClearOfflineAlert(id);
    }
  }

  // ----- any request -----

  method Dispatch(repo: OperationsRepository, cfg: Config, step: Step) returns (a: Answer)
    requires repo.Valid()
    modifies repo
    ensures (repo.Snapshot(), a) == Apply(cfg, old(repo.Snapshot()), step) && repo.issued == old(repo.issued)
  {
    var now := step.now;
    match step.req {
      case PostEnroll(id, institution, product, hostname, claim) =>
        a := PostEnroll(repo, now, id, institution, product, hostname, claim);
      case GetEnroll(id, presented) =>
        a := GetEnroll(repo, now, id, presented);
      case CreateUser(userId, username, role) =>
        a := CreateUser(repo, userId, username, role);
      case Login(username, valid, token) =>
        a := Login(repo, now, cfg, username, valid, token);
      case Logout(cookie) =>
        a := Logout(repo, now, cookie);
      case PostApprove(_, _, _) =>
        a := AdminOnly(repo, now, step.req);
      case PostRevoke(_, _, _) =>
        a := AdminOnly(repo, now, step.req);
      case PostReissue(_, _, _, _) =>
        a := AdminOnly(repo, now, step.req);
      case GetFleet(_) =>
        a := SignedInView(repo, now, cfg, step.req);
      case GetServer(_, _) =>
        a := SignedInView(repo, now, cfg, step.req);
      case GetMe(_) =>
        a := SignedInView(repo, now, cfg, step.req);
      case PostEvent(_, _, _, _, _, _) =>
        a := AgentRequest(repo, now, step.req);
      case PostHeartbeat(_, _) =>
        a := AgentRequest(repo, now, step.req);
      case _ =>
        Timer(repo, cfg, now, step.req);
        a := Done;
    }
  }

  /** Every request makes exactly its step and keeps the repository valid. */
  method Handle(repo: OperationsRepository, cfg: Config, step: Step) returns (a: Answer)
    requires repo.Valid() && Fresh(step.req, repo.issued)
    modifies repo
    ensures (repo.Snapshot(), a) == Apply(cfg, old(repo.Snapshot()), step)
    ensures repo.Valid() && repo.issued == old(repo.issued) + Generated(step.req)
  {
    StepKeepsInv(cfg, repo.Snapshot(), repo.issued, step);
    a := Dispatch(repo, cfg, step);
    repo.issued := repo.issued + Generated(step.req);
  }

  // ----- the monitor -----

  /** computeOfflineTransitions. */
  method ComputeOfflineTransitions(rows: seq<ServerRow>, now: Instant, cfg: Config) returns (transitions: seq<Monitor.Transition>)
    ensures transitions == Monitor.Transitions(rows, now, cfg)
  {
    transitions := [];
    var i := 0;
    while i < |rows|
      invariant 0 <= i <= |rows|
      invariant transitions == Monitor.Transitions(rows[..i], now, cfg)
    {
      var server := rows[i];
      assert rows[..i + 1][..i] == rows[..i];
      i := i + 1;
      if server.status != Approved {
        continue;
      }
      var online := IsOnline(server, now, cfg);
      if !online && server.offlineAlertedAt.None? {
        transitions := transitions + [Monitor.Transition(server.id, Monitor.WentOffline)];
      } else if online && server.offlineAlertedAt.Some? {
        transitions := transitions + [Monitor.Transition(server.id, Monitor.Recovered)];
      }
    }
    assert rows[..|rows|] == rows;
  }

  /** The monitor with its suspended ticks: each runOfflineCheck runs up to an await, and from there to
      the next. Between two of these calls any request may run on the same repository. */
  class OfflineMonitor {
    const repository: OperationsRepository
    const config: Config
    var ticks: seq<Monitor.Tick>

    ghost function State(): Monitor.State
      reads this, repository
    {
      Monitor.State(repository.Snapshot(), ticks)
    }

    constructor (repository: OperationsRepository, config: Config)
      ensures this.repository == repository && this.config == config && ticks == []
    {
      this.repository, this.config, ticks := repository, config, [];
    }

    /** A timer firing: the snapshot, up to the first send. Without a webhook it does nothing. */
    method StartTick(webhook: bool, now: Instant) returns (servers: seq<ServerRow>)
      requires repository.Valid()
      modifies this`ticks
      ensures !webhook ==> State() == old(State())
      ensures webhook ==> Monitor.Possible(old(State()), Monitor.Start(now, servers))
      ensures webhook ==> State() == Monitor.Next(config, old(State()), Monitor.Start(now, servers))
    {
      servers := [];
      if !webhook {
        return;
      }
      servers := repository.ListServers();
      var transitions := ComputeOfflineTransitions(servers, now, config);
      ticks := ticks + [Monitor.Tick(now, transitions)];
    }

    /** The reply to the send that tick `i` awaits: the marker if it succeeded, then on to the next send. */
    method SendSettled(i: nat, ok: bool)
      requires i < |ticks| && ticks[i].pending != []
      modifies this`ticks, repository`servers
      ensures State() == Monitor.Next(config, old(State()), Monitor.Reply(i, ok))
    {
      var now, transition := ticks[i].now, ticks[i].pending[0];
      if ok {
        if transition.kind == Monitor.WentOffline {
          repository.MarkOfflineAlerted(transition.id, now);
        } else {
          repository.ClearOfflineAlert(transition.id);
        }
      }
      ticks := ticks[i := Monitor.Tick(now, ticks[i].pending[1..])];
    }
  }

  /** runOfflineCheck with nothing interleaved; sends to servers in `ok` succeed. Without a webhook it
      does nothing. */
  method RunOfflineCheck(repo: OperationsRepository, cfg: Config, webhook: bool, now: Instant, ok: set<Id>) returns (rows: seq<ServerRow>)
    requires repo.Valid()
    modifies repo`servers
    ensures !webhook ==> repo.servers == old(repo.servers)
    ensures webhook ==> IsListing(rows, old(repo.servers))
    ensures webhook ==> repo.Snapshot() == Monitor.Process(cfg, old(repo.Snapshot()), Monitor.Transitions(rows, now, cfg), now, ok)
  {
    rows := [];
    if !webhook {
      return;
    }
    rows := repo.ListServers();
    var transitions := ComputeOfflineTransitions(rows, now, cfg);
    var i := 0;
    while i < |transitions|
      invariant 0 <= i <= |transitions|
      invariant repo.Snapshot() == Monitor.Process(cfg, old(repo.Snapshot()), transitions[..i], now, ok)
    {
      var t := transitions[i];
      Monitor.ProcessNext(cfg, old(repo.Snapshot()), transitions, i, now, ok);
      if t.id in ok {
        if t.kind == Monitor.WentOffline {
          repo.MarkOfflineAlerted(t.id, now);
        } else {
          repo.ClearOfflineAlert(t.id);
        }
      }
      i := i + 1;
    }
    assert transitions[..|transitions|] == transitions;
  }
}
