/** The request handlers and timers as one transition function over the store. Handlers are
    synchronous over a synchronous driver, so each request is one atomic step. */
module Routes {
  import opened Base
  import opened Events
  import opened Store

  datatype Config = Config(
    sessionTtlHours: nat, retentionDays: nat, expectedIntervalMinutes: nat, missedThreshold: nat)

  const ONE_DAY_MS: int := 24 * 60 * 60 * 1000

  /** Requests that passed body validation and, for the enroll routes, the bootstrap secret.
      A `cookie` is the parsed session cookie. Generated tokens are carried by the request that
      generates them. */
  datatype Request =
    | PostEnroll(id: Id, institution: string, product: Product, hostname: string, claim: string)
    | GetEnroll(id: Id, presented: Option<string>)
    | PostApprove(cookie: Option<string>, id: Id, key: string)
    | PostRevoke(cookie: Option<string>, id: Id, reason: Option<string>)
    | PostReissue(cookie: Option<string>, id: Id, reason: Option<string>, key: string)
    | GetFleet(cookie: Option<string>)
    | GetServer(cookie: Option<string>, id: Id)
    | GetMe(cookie: Option<string>)
    | PostEvent(apiKey: Option<string>, category: Category, severity: Severity, payload: string,
                eventId: Option<string>, occurredAt: Option<string>)
    | PostHeartbeat(apiKey: Option<string>, version: Option<string>)
    | CreateUser(userId: Id, username: string, role: Role)
    | Login(username: string, passwordValid: bool, token: string)
    | Logout(cookie: Option<string>)
    | SweepKeysTimer
    | SweepSessionsTimer
    | RetentionTimer
    | MarkOffline(id: Id, at: Instant)
    | ClearOffline(id: Id)

  datatype Step = Step(now: Instant, req: Request)

  datatype PublicServer = PublicServer(
    id: Id, institutionCode: string, product: Product, hostname: string, status: Status, bravoVersion: Option<string>,
    createdAt: Instant, approvedAt: Option<Instant>, lastSeenAt: Option<Instant>, lastHeartbeatAt: Option<Instant>)

  datatype ServerView = ServerView(server: PublicServer, isOnline: bool, latestByCategory: ByCategory)

  datatype ActionView = ActionView(kind: ActionKind, adminUserId: Id, reason: Option<string>, createdAt: Instant)

  datatype Answer =
    | NotFound
    | Unauthorized
    | Forbidden
    | Conflict(status: Status)
    | ClaimReply(claim: string)
    | PollReply(status: Status, revealed: Option<string>)
    | StatusReply(status: Status)
    | KeyReply(status: Status, issuedKey: string)
    | Accepted
    | Fleet(view: map<Id, ServerView>)
    | Details(server: ServerView, recentActions: seq<ActionView>)
    | Identity(username: string, role: Role)
    | LoggedIn(token: string, role: Role)
    | Done
    | Rejected
    | Crashed

  // ----- guards -----

  predicate Present(header: Option<string>) { header.Some? && header.value != "" }

  function SignedIn(db: Db, cookie: Option<string>, now: Instant): Option<UserRow> {
    if Present(cookie) then SessionUser(db, HashSecret(cookie.value), now) else None
  }

  ghost function AuthenticatedServer(db: Db, apiKey: Option<string>): Option<ServerRow> {
    if Present(apiKey) then FindByHash(db.servers, HashSecret(apiKey.value)) else None
  }

  predicate ClaimMatches(row: ServerRow, presented: Option<string>) {
    Present(presented) && row.claimHash == Some(HashSecret(presented.value))
  }

  predicate IsOnline(row: ServerRow, now: Instant, cfg: Config) {
    row.lastHeartbeatAt.Some? && now - row.lastHeartbeatAt.value <= Window(cfg)
  }

  /** Silence longer than this is "offline". */
  function Window(cfg: Config): int { cfg.expectedIntervalMinutes * cfg.missedThreshold * 60_000 }

  // ----- handlers -----

  function EnrollRoute(db: Db, now: Instant, id: Id, institution: string, product: Product, hostname: string, claim: string): (Db, Answer) {
    if id in db.servers && db.servers[id].status != Pending then (db, Conflict(db.servers[id].status))
    else (db.(servers := Upsert(db.servers, id, institution, product, hostname, HashSecret(claim), now)), ClaimReply(claim))
  }

  function PollRoute(db: Db, now: Instant, id: Id, presented: Option<string>): Answer {
    if id !in db.servers || db.servers[id].status == Revoked || !ClaimMatches(db.servers[id], presented) then NotFound
    else if db.servers[id].status != Approved then PollReply(db.servers[id].status, None)
    else PollReply(Approved, ReadPendingKey(db.servers[id], now))
  }

  function ApproveRoute(db: Db, now: Instant, admin: Id, id: Id, key: string): (Db, Answer) {
    if id !in db.servers then (db, NotFound)
    else if db.servers[id].status != Pending then (db, Conflict(db.servers[id].status))
    else
      var servers := ApproveServer(db.servers, id, key, HashSecret(key), now);
      (db.(servers := servers, actions := RecordAction(db.actions, ApproveAction, id, admin, None, now)),
       StatusReply(servers[id].status))
  }

  function RevokeRoute(db: Db, now: Instant, admin: Id, id: Id, reason: Option<string>): (Db, Answer) {
    if id !in db.servers then (db, NotFound)
    else if db.servers[id].status == Revoked then (db, Conflict(Revoked))
    else
      var servers := RevokeServer(db.servers, id);
      (db.(servers := servers, actions := RecordAction(db.actions, RevokeAction, id, admin, reason, now)),
       StatusReply(servers[id].status))
  }

  function ReissueRoute(db: Db, now: Instant, admin: Id, id: Id, reason: Option<string>, key: string): (Db, Answer) {
    if id !in db.servers then (db, NotFound)
    else if db.servers[id].status == Pending then (db, Conflict(Pending))
    else
      var servers := ReissueKey(db.servers, id, HashSecret(key), now);
      (db.(servers := servers, actions := RecordAction(db.actions, ReissueAction, id, admin, reason, now)),
       KeyReply(servers[id].status, key))
  }

  function ToPublic(row: ServerRow): PublicServer {
    PublicServer(row.id, row.institutionCode, row.product, row.hostname, row.status, row.bravoVersion,
                 row.createdAt, row.approvedAt, row.lastSeenAt, row.lastHeartbeatAt)
  }

  function ViewOf(row: ServerRow, now: Instant, cfg: Config, latest: map<Id, ByCategory>): ServerView {
    ServerView(ToPublic(row), IsOnline(row, now, cfg), Lookup(latest, row.id))
  }

  function FleetView(db: Db, now: Instant, cfg: Config): map<Id, ServerView> {
    var latest := Group(LatestForAll(db.events, |db.events|));
    map id | id in db.servers :: ViewOf(db.servers[id], now, cfg, latest)
  }

  function ViewActions(rows: seq<ActionRow>): seq<ActionView> {
    seq(|rows|, i requires 0 <= i < |rows| => ActionView(rows[i].kind, rows[i].adminUserId, rows[i].reason, rows[i].createdAt))
  }

  function DetailView(db: Db, now: Instant, id: Id, cfg: Config): Answer {
    if id !in db.servers then NotFound
    else
      Details(ServerView(ToPublic(db.servers[id]), IsOnline(db.servers[id], now, cfg),
                         Collect(LatestFor(db.events, id, |db.events|))),
              ViewActions(ListActions(db.actions, id, 20)))
  }

  function EventRoute(db: Db, now: Instant, p: Post): Db {
    var (events, lastId) := Insert(db.events, db.lastEventId, p);
    db.(events := events, lastEventId := lastId, servers := TouchLastSeen(db.servers, p.serverId, now))
  }

  function CreateUserCommand(db: Db, userId: Id, username: string, role: Role): (Db, Answer) {
    if username in db.usernames then (db, Rejected)
    else if userId in db.users then (db, Crashed)
    else (db.(users := db.users[userId := UserRow(userId, username, role)],
              usernames := db.usernames[username := userId]), Done)
  }

  /** The part of the login handler after the awaited password check, with the account looked up before it. */
  function FinishLogin(db: Db, now: Instant, cfg: Config, user: Option<UserRow>, passwordValid: bool, token: string): (Db, Answer) {
    if user.None? || !passwordValid then (db, Unauthorized)
    else if HashSecret(token) in db.sessions then (db, Crashed)
    else
      (db.(sessions := CreateSession(db.sessions, HashSecret(token), user.value.id, now, now + cfg.sessionTtlHours * 3_600_000)),
       LoggedIn(token, user.value.role))
  }

  function LoginRoute(db: Db, now: Instant, cfg: Config, username: string, passwordValid: bool, token: string): (Db, Answer) {
    FinishLogin(db, now, cfg, LookupUser(db, username), passwordValid, token)
  }

  function LogoutRoute(db: Db, now: Instant, cookie: Option<string>): (Db, Answer) {
    if SignedIn(db, cookie, now).None? then (db, Unauthorized)
    else (db.(sessions := db.sessions - {HashSecret(cookie.value)}), Done)
  }

  function Cutoff(now: Instant, cfg: Config): Instant { now - cfg.retentionDays * ONE_DAY_MS }

  predicate NeedsAdmin(req: Request) { req.PostApprove? || req.PostRevoke? || req.PostReissue? }

  function AdminRoute(db: Db, now: Instant, admin: Id, req: Request): (Db, Answer)
    requires NeedsAdmin(req)
  {
    match req
    case PostApprove(_, id, key) => ApproveRoute(db, now, admin, id, key)
    case PostRevoke(_, id, reason) => RevokeRoute(db, now, admin, id, reason)
    case PostReissue(_, id, reason, key) => ReissueRoute(db, now, admin, id, reason, key)
  }

  /** requireRole('admin') around the three lifecycle actions. */
  function GuardedAdminRoute(db: Db, now: Instant, req: Request): (Db, Answer)
    requires NeedsAdmin(req)
  {
    match SignedIn(db, req.cookie, now)
    case None => (db, Unauthorized)
    case Some(user) => if user.role != Admin then (db, Forbidden) else AdminRoute(db, now, user.id, req)
  }

  predicate NeedsSession(req: Request) { req.GetFleet? || req.GetServer? || req.GetMe? }

  function ViewRoute(db: Db, now: Instant, cfg: Config, req: Request): Answer
    requires NeedsSession(req)
  {
    match SignedIn(db, req.cookie, now)
    case None => Unauthorized
    case Some(user) =>
      match req
      case GetFleet(_) => Fleet(FleetView(db, now, cfg))
      case GetServer(_, id) => DetailView(db, now, id, cfg)
      case GetMe(_) => Identity(user.username, user.role)
  }

  /** The post an events request amounts to, once its key has been resolved to a server. */
  function ToPost(req: Request, serverId: Id, now: Instant): Post
    requires req.PostEvent?
  {
    Post(serverId, req.category, req.severity, req.payload, now, req.eventId, req.occurredAt)
  }

  ghost function AgentRoute(db: Db, now: Instant, req: Request): (Db, Answer)
    requires req.PostEvent? || req.PostHeartbeat?
  {
    match AuthenticatedServer(db, req.apiKey)
    case None => (db, Unauthorized)
    case Some(row) =>
      if req.PostEvent? then (EventRoute(db, now, ToPost(req, row.id, now)), Accepted)
      else (db.(servers := TouchHeartbeat(db.servers, row.id, now, req.version)), Accepted)
  }

  /** One request, or one timer or monitor write. */
  ghost function Apply(cfg: Config, db: Db, step: Step): (Db, Answer) {
    var now := step.now;
    match step.req
    case PostEnroll(id, institution, product, hostname, claim) => EnrollRoute(db, now, id, institution, product, hostname, claim)
    case GetEnroll(id, presented) => (db, PollRoute(db, now, id, presented))
    case PostApprove(_, _, _) => GuardedAdminRoute(db, now, step.req)
    case PostRevoke(_, _, _) => GuardedAdminRoute(db, now, step.req)
    case PostReissue(_, _, _, _) => GuardedAdminRoute(db, now, step.req)
    case GetFleet(_) => (db, ViewRoute(db, now, cfg, step.req))
    case GetServer(_, _) => (db, ViewRoute(db, now, cfg, step.req))
    case GetMe(_) => (db, ViewRoute(db, now, cfg, step.req))
    case PostEvent(_, _, _, _, _, _) => AgentRoute(db, now, step.req)
    case PostHeartbeat(_, _) => AgentRoute(db, now, step.req)
    case CreateUser(userId, username, role) => CreateUserCommand(db, userId, username, role)
    case Login(username, valid, token) => LoginRoute(db, now, cfg, username, valid, token)
    case Logout(cookie) => LogoutRoute(db, now, cookie)
    case SweepKeysTimer => (db.(servers := SweepKeys(db.servers, now)), Done)
    case SweepSessionsTimer => (db.(sessions := DropExpired(db.sessions, now)), Done)
    case RetentionTimer => (db.(events := DeleteOlder(db.events, Cutoff(now, cfg))), Done)
    case MarkOffline(id, at) => (db.(servers := SetMarker(db.servers, id, Some(at))), Done)
    case ClearOffline(id) => (db.(servers := SetMarker(db.servers, id, None)), Done)
  }

  // ----- generated tokens and the invariant -----

  /** Tokens the step generates: an enrollment claim, an API key or a session token. */
  function Generated(req: Request): set<string> {
    match req
    case PostEnroll(_, _, _, _, claim) => {claim}
    case PostApprove(_, _, key) => {key}
    case PostReissue(_, _, _, key) => {key}
    case Login(_, _, token) => {token}
    case _ => {}
  }

  /** Generated tokens are never empty and never repeat. */
  predicate Fresh(req: Request, issued: set<string>) {
    Generated(req) !! issued && "" !in Generated(req)
  }

  lemma EmptyInv()
    ensures Inv(EMPTY, {})
  {
  }

  lemma PutRow(servers: Servers, issued: set<string>, more: set<string>, id: Id, row: ServerRow)
    requires ServersInv(servers, issued) && row.id == id && RowInv(row, issued + more)
    requires row.apiKeyHash.Some? ==>
               (id in servers && servers[id].apiKeyHash == row.apiKeyHash) || row.apiKeyHash.value.secret !in issued
    ensures ServersInv(servers[id := row], issued + more)
  {
    var servers' := servers[id := row];
    forall a | a in servers' ensures servers'[a].id == a && RowInv(servers'[a], issued + more) {
      if a != id { assert RowInv(servers[a], issued); }
    }
    forall a, b | a in servers' && b in servers' && a != b && servers'[a].apiKeyHash.Some?
      ensures servers'[a].apiKeyHash != servers'[b].apiKeyHash
    {
      if a == id {
        assert RowInv(servers[b], issued);
      } else {
        assert RowInv(servers[a], issued);
      }
    }
  }

  lemma KeepRows(servers: Servers, issued: set<string>, more: set<string>)
    requires ServersInv(servers, issued)
    ensures ServersInv(servers, issued + more)
  {
    forall id | id in servers ensures RowInv(servers[id], issued + more) {
      assert RowInv(servers[id], issued);
    }
  }

  lemma SweepKeepsServersInv(servers: Servers, issued: set<string>, now: Instant)
    requires ServersInv(servers, issued)
    ensures ServersInv(SweepKeys(servers, now), issued)
  {
    var swept := SweepKeys(servers, now);
    forall id | id in swept ensures swept[id].id == id && RowInv(swept[id], issued) {
      assert RowInv(servers[id], issued);
    }
    assert forall id :: id in servers ==> swept[id].apiKeyHash == servers[id].apiKeyHash;
  }

  lemma AdminKeepsServersInv(db: Db, issued: set<string>, now: Instant, admin: Id, req: Request)
    requires NeedsAdmin(req) && ServersInv(db.servers, issued) && Fresh(req, issued)
    ensures ServersInv(AdminRoute(db, now, admin, req).0.servers, issued + Generated(req))
  {
    var servers' := AdminRoute(db, now, admin, req).0.servers;
    KeepRows(db.servers, issued, Generated(req));
    if servers' != db.servers {
      var row := servers'[req.id];
      assert RowInv(db.servers[req.id], issued);
      PutRow(db.servers, issued, Generated(req), req.id, row);
      assert servers' == db.servers[req.id := row];
    }
  }

  /** A write that leaves the credential columns alone. */
  predicate SameCredentials(a: ServerRow, b: ServerRow) {
    a.id == b.id && a.status == b.status && a.apiKeyHash == b.apiKeyHash && a.pendingApiKey == b.pendingApiKey
    && a.pendingExpiresAt == b.pendingExpiresAt && a.claimHash == b.claimHash && a.approvedAt == b.approvedAt
  }

  lemma TouchKeepsServersInv(servers: Servers, issued: set<string>, servers': Servers)
    requires ServersInv(servers, issued)
    requires servers'.Keys == servers.Keys
    requires forall id :: id in servers ==> SameCredentials(servers[id], servers'[id])
    ensures ServersInv(servers', issued)
  {
    forall id | id in servers' ensures servers'[id].id == id && RowInv(servers'[id], issued) {
      assert SameCredentials(servers[id], servers'[id]);
      assert RowInv(servers[id], issued);
    }
  }

  lemma EnrollKeepsServersInv(db: Db, issued: set<string>, step: Step)
    requires step.req.PostEnroll? && ServersInv(db.servers, issued)
    ensures var r := step.req;
            ServersInv(EnrollRoute(db, step.now, r.id, r.institution, r.product, r.hostname, r.claim).0.servers, issued + {r.claim})
  {
    var r := step.req;
    var servers' := EnrollRoute(db, step.now, r.id, r.institution, r.product, r.hostname, r.claim).0.servers;
    KeepRows(db.servers, issued, {r.claim});
    if r.id !in db.servers || db.servers[r.id].status == Pending {
      PutRow(db.servers, issued, {r.claim}, r.id, servers'[r.id]);
    }
  }

  // ----- what a step leaves alone -----

  predicate IsAgent(req: Request) { req.PostEvent? || req.PostHeartbeat? }

  predicate IsMarker(req: Request) { req.MarkOffline? || req.ClearOffline? }

  lemma EventFrame(db: Db, now: Instant, p: Post)
    ensures var db' := EventRoute(db, now, p);
            && db' == db.(events := db'.events, lastEventId := db'.lastEventId, servers := db'.servers)
            && db'.servers.Keys == db.servers.Keys
            && forall id :: id in db.servers ==> SameCredentials(db.servers[id], db'.servers[id])
  {
  }

  lemma HeartbeatFrame(servers: Servers, id: Id, now: Instant, version: Option<string>)
    ensures var servers' := TouchHeartbeat(servers, id, now, version);
            servers'.Keys == servers.Keys && forall i :: i in servers ==> SameCredentials(servers[i], servers'[i])
  {
  }

  lemma AgentFrame(db: Db, now: Instant, req: Request)
    requires IsAgent(req)
    ensures var db' := AgentRoute(db, now, req).0;
            && db'.actions == db.actions && db'.sessions == db.sessions && db'.users == db.users && db'.usernames == db.usernames
            && (req.PostHeartbeat? ==> db'.events == db.events && db'.lastEventId == db.lastEventId)
            && db'.servers.Keys == db.servers.Keys
            && forall id :: id in db.servers ==> SameCredentials(db.servers[id], db'.servers[id])
  {
    var row := AuthenticatedServer(db, req.apiKey);
    if row.Some? {
      if req.PostEvent? { EventFrame(db, now, ToPost(req, row.value.id, now)); }
      else { HeartbeatFrame(db.servers, row.value.id, now, req.version); }
    }
  }

  lemma AdminFrame(db: Db, now: Instant, req: Request)
    requires NeedsAdmin(req)
    ensures var db' := GuardedAdminRoute(db, now, req).0;
            && db'.events == db.events && db'.lastEventId == db.lastEventId
            && db'.sessions == db.sessions && db'.users == db.users && db'.usernames == db.usernames
            && db'.servers.Keys == db.servers.Keys
  {
  }

  lemma OnlyAdminsWriteActions(cfg: Config, db: Db, step: Step)
    requires !NeedsAdmin(step.req)
    ensures Apply(cfg, db, step).0.actions == db.actions
  {
    if IsAgent(step.req) { AgentFrame(db, step.now, step.req); }
  }

  lemma OnlyPostsWriteEvents(cfg: Config, db: Db, step: Step)
    requires !step.req.PostEvent? && !step.req.RetentionTimer?
    ensures var db' := Apply(cfg, db, step).0; db'.events == db.events && db'.lastEventId == db.lastEventId
  {
    if IsAgent(step.req) { AgentFrame(db, step.now, step.req); }
    else if NeedsAdmin(step.req) { AdminFrame(db, step.now, step.req); }
  }

  lemma OnlyAccountsWriteSessions(cfg: Config, db: Db, step: Step)
    requires !step.req.Login? && !step.req.Logout? && !step.req.SweepSessionsTimer? && !step.req.CreateUser?
    ensures var db' := Apply(cfg, db, step).0;
            db'.sessions == db.sessions && db'.users == db.users && db'.usernames == db.usernames
  {
    if IsAgent(step.req) { AgentFrame(db, step.now, step.req); }
    else if NeedsAdmin(step.req) { AdminFrame(db, step.now, step.req); }
  }

  /** Requests that may write a server row, but none of its credential columns. */
  predicate LeavesCredentials(req: Request) {
    !req.PostEnroll? && !NeedsAdmin(req) && !req.SweepKeysTimer?
  }

  lemma ServersUntouched(cfg: Config, db: Db, step: Step)
    requires LeavesCredentials(step.req) && !IsAgent(step.req) && !IsMarker(step.req)
    ensures Apply(cfg, db, step).0.servers == db.servers
  {
  }

  lemma QuietStep(cfg: Config, db: Db, step: Step)
    requires LeavesCredentials(step.req)
    ensures var servers' := Apply(cfg, db, step).0.servers;
            servers'.Keys == db.servers.Keys && forall id :: id in db.servers ==> SameCredentials(db.servers[id], servers'[id])
  {
    if IsAgent(step.req) {
      AgentFrame(db, step.now, step.req);
    } else if !IsMarker(step.req) {
      ServersUntouched(cfg, db, step);
    }
  }

  lemma StepKeepsServersInv(cfg: Config, db: Db, issued: set<string>, step: Step)
    requires ServersInv(db.servers, issued) && Fresh(step.req, issued)
    ensures ServersInv(Apply(cfg, db, step).0.servers, issued + Generated(step.req))
  {
    if NeedsAdmin(step.req) {
      KeepRows(db.servers, issued, Generated(step.req));
      var user := SignedIn(db, step.req.cookie, step.now);
      if user.Some? { AdminKeepsServersInv(db, issued, step.now, user.value.id, step.req); }
    } else if step.req.SweepKeysTimer? {
      SweepKeepsServersInv(db.servers, issued, step.now);
      assert issued + {} == issued;
    } else if step.req.PostEnroll? {
      EnrollKeepsServersInv(db, issued, step);
    } else {
      QuietStep(cfg, db, step);
      KeepRows(db.servers, issued, Generated(step.req));
      TouchKeepsServersInv(db.servers, issued + Generated(step.req), Apply(cfg, db, step).0.servers);
    }
  }

  lemma RowsStay(cfg: Config, db: Db, step: Step)
    ensures db.servers.Keys <= Apply(cfg, db, step).0.servers.Keys
  {
    if LeavesCredentials(step.req) { QuietStep(cfg, db, step); }
    else if NeedsAdmin(step.req) { AdminFrame(db, step.now, step.req); }
  }

  lemma StepKeepsEventsInv(cfg: Config, db: Db, step: Step)
    requires EventsInv(db.events, db.lastEventId)
    ensures var db' := Apply(cfg, db, step).0; EventsInv(db'.events, db'.lastEventId)
  {
    if step.req.PostEvent? {
      var row := AuthenticatedServer(db, step.req.apiKey);
      if row.Some? { InsertKeepsInv(db.events, db.lastEventId, ToPost(step.req, row.value.id, step.now)); }
    } else if step.req.RetentionTimer? {
      DeleteOlderKeepsInv(db.events, db.lastEventId, Cutoff(step.now, cfg));
    } else {
      OnlyPostsWriteEvents(cfg, db, step);
    }
  }

  lemma AdminKeepsActionsInv(db: Db, now: Instant, req: Request)
    requires NeedsAdmin(req) && ActionsInv(db)
    ensures ActionsInv(GuardedAdminRoute(db, now, req).0)
  {
    AdminFrame(db, now, req);
    var db' := GuardedAdminRoute(db, now, req).0;
    if db'.actions != db.actions {
      assert db'.actions == db.actions + [db'.actions[|db.actions|]];
    }
  }

  lemma EventKeepsActionsInv(db: Db, issued: set<string>, now: Instant, req: Request)
    requires req.PostEvent? && ServersInv(db.servers, issued) && ActionsInv(db)
    ensures ActionsInv(AgentRoute(db, now, req).0)
  {
    AgentFrame(db, now, req);
    var row := AuthenticatedServer(db, req.apiKey);
    if row.Some? { assert row.value.id in db.servers; }
  }

  lemma StepKeepsActionsInv(cfg: Config, db: Db, issued: set<string>, step: Step)
    requires ServersInv(db.servers, issued) && ActionsInv(db)
    ensures ActionsInv(Apply(cfg, db, step).0)
  {
    if NeedsAdmin(step.req) {
      AdminKeepsActionsInv(db, step.now, step.req);
    } else if step.req.PostEvent? {
      EventKeepsActionsInv(db, issued, step.now, step.req);
    } else if step.req.RetentionTimer? {
      DeleteOlderContents(db.events, Cutoff(step.now, cfg));
    } else {
      RowsStay(cfg, db, step);
      OnlyAdminsWriteActions(cfg, db, step);
      OnlyPostsWriteEvents(cfg, db, step);
    }
  }

  lemma LoginKeepsSessionsInv(db: Db, issued: set<string>, now: Instant, cfg: Config, req: Request)
    requires req.Login? && SessionsInv(db, issued)
    ensures SessionsInv(LoginRoute(db, now, cfg, req.username, req.passwordValid, req.token).0, issued + {req.token})
  {
  }

  lemma FewerSessions(db: Db, issued: set<string>, sessions: Sessions)
    requires SessionsInv(db, issued) && sessions.Keys <= db.sessions.Keys
    requires forall h :: h in sessions ==> sessions[h] == db.sessions[h]
    ensures SessionsInv(db.(sessions := sessions), issued)
  {
  }

  lemma CreateUserKeepsSessionsInv(db: Db, issued: set<string>, userId: Id, username: string, role: Role)
    requires SessionsInv(db, issued)
    ensures SessionsInv(CreateUserCommand(db, userId, username, role).0, issued)
  {
  }

  lemma StepKeepsSessionsInv(cfg: Config, db: Db, issued: set<string>, step: Step)
    requires SessionsInv(db, issued)
    ensures SessionsInv(Apply(cfg, db, step).0, issued + Generated(step.req))
  {
    var db' := Apply(cfg, db, step).0;
    if step.req.Login? {
      LoginKeepsSessionsInv(db, issued, step.now, cfg, step.req);
    } else if step.req.Logout? || step.req.SweepSessionsTimer? {
      FewerSessions(db, issued, db'.sessions);
      assert issued + {} == issued;
    } else if step.req.CreateUser? {
      CreateUserKeepsSessionsInv(db, issued, step.req.userId, step.req.username, step.req.role);
      assert issued + {} == issued;
    } else {
      OnlyAccountsWriteSessions(cfg, db, step);
    }
  }

  /** Every step keeps the invariant, whatever the request and whoever sends it. */
  lemma StepKeepsInv(cfg: Config, db: Db, issued: set<string>, step: Step)
    requires Inv(db, issued) && Fresh(step.req, issued)
    ensures Inv(Apply(cfg, db, step).0, issued + Generated(step.req))
  {
    StepKeepsServersInv(cfg, db, issued, step);
    StepKeepsSessionsInv(cfg, db, issued, step);
    StepKeepsEventsInv(cfg, db, step);
    StepKeepsActionsInv(cfg, db, issued, step);
  }
}
