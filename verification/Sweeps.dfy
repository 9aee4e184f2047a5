/** The pending-key sweep and the expired-session sweep are unobservable. */
module Sweeps {
  import opened Base
  import opened Events
  import opened Store
  import opened Routes
  import opened Runs
  import Accounts

  predicate IsSweep(req: Request) { req.SweepKeysTimer? || req.SweepSessionsTimer? }

  /** The store as if both sweeps ran at `now`. */
  function Swept(db: Db, now: Instant): Db {
    db.(servers := SweepKeys(db.servers, now), sessions := DropExpired(db.sessions, now))
  }

  lemma SweptAgain(db: Db, now: Instant, later: Instant)
    requires now <= later
    ensures Swept(Swept(db, now), later) == Swept(db, later)
    ensures Swept(db.(servers := SweepKeys(db.servers, now)), later) == Swept(db, later)
    ensures Swept(db.(sessions := DropExpired(db.sessions, now)), later) == Swept(db, later)
  {
    assert SweepKeys(SweepKeys(db.servers, now), later) == SweepKeys(db.servers, later);
    assert DropExpired(DropExpired(db.sessions, now), later) == DropExpired(db.sessions, later);
  }

  lemma SweptPut(servers: Servers, id: Id, row: ServerRow, now: Instant)
    ensures SweepKeys(servers[id := row], now) == SweepKeys(servers, now)[id := ExpireRow(row, now)]
  {
  }

  lemma SweptSession(db: Db, cookie: Option<string>, now: Instant)
    ensures SignedIn(Swept(db, now), cookie, now) == SignedIn(db, cookie, now)
  {
  }

  lemma SweptAgent(db: Db, issued: set<string>, apiKey: Option<string>, now: Instant)
    requires ServersInv(db.servers, issued)
    ensures AuthenticatedServer(Swept(db, now), apiKey) ==
            match AuthenticatedServer(db, apiKey)
            case None => None
            case Some(row) => Some(ExpireRow(row, now))
  {
    SweepKeepsServersInv(db.servers, issued, now);
    if Present(apiKey) {
      var hash := HashSecret(apiKey.value);
      var swept := SweepKeys(db.servers, now);
      if id :| id in db.servers && Authenticates(db.servers[id], hash) {
        assert Authenticates(swept[id], hash);
        OneServerPerKey(db.servers, issued, hash, id);
        OneServerPerKey(swept, issued, hash, id);
      } else {
        assert forall id :: id in swept ==> !Authenticates(swept[id], hash);
      }
    }
  }

  /** Two stores that differ only by sweeps. */
  predicate Alike(a: Db, b: Db, now: Instant) { Swept(a, now) == Swept(b, now) }

  lemma AlikePut(a: Db, b: Db, now: Instant, id: Id, ra: ServerRow, rb: ServerRow)
    requires Alike(a, b, now) && ExpireRow(ra, now) == ExpireRow(rb, now)
    ensures Alike(a.(servers := a.servers[id := ra]), b.(servers := b.servers[id := rb]), now)
  {
    SweptPut(a.servers, id, ra, now);
    SweptPut(b.servers, id, rb, now);
  }

  /** A sweep just before the step changes neither its answer nor, up to another sweep, its effect. */
  ghost predicate Unobserved(cfg: Config, db: Db, step: Step) {
    var (x, y) := (Apply(cfg, db, step), Apply(cfg, Swept(db, step.now), step));
    x.1 == y.1 && Alike(x.0, y.0, step.now)
  }

  lemma ApproveStep(db: Db, now: Instant, admin: Id, id: Id, key: string)
    ensures var (x, y) := (ApproveRoute(db, now, admin, id, key), ApproveRoute(Swept(db, now), now, admin, id, key));
            x.1 == y.1 && Alike(x.0, y.0, now)
  {
    var s := Swept(db, now);
    SweptAgain(db, now, now);
    if id in db.servers && db.servers[id].status == Pending {
      AlikePut(db, s, now, id, ApproveServer(db.servers, id, key, HashSecret(key), now)[id],
               ApproveServer(s.servers, id, key, HashSecret(key), now)[id]);
    }
  }

  lemma RevokeStep(db: Db, now: Instant, admin: Id, id: Id, reason: Option<string>)
    ensures var (x, y) := (RevokeRoute(db, now, admin, id, reason), RevokeRoute(Swept(db, now), now, admin, id, reason));
            x.1 == y.1 && Alike(x.0, y.0, now)
  {
    var s := Swept(db, now);
    SweptAgain(db, now, now);
    if id in db.servers && db.servers[id].status != Revoked {
      AlikePut(db, s, now, id, RevokeServer(db.servers, id)[id], RevokeServer(s.servers, id)[id]);
    }
  }

  lemma ReissueStep(db: Db, now: Instant, admin: Id, id: Id, reason: Option<string>, key: string)
    ensures var (x, y) := (ReissueRoute(db, now, admin, id, reason, key), ReissueRoute(Swept(db, now), now, admin, id, reason, key));
            x.1 == y.1 && Alike(x.0, y.0, now)
  {
    var s := Swept(db, now);
    SweptAgain(db, now, now);
    if id in db.servers && db.servers[id].status != Pending {
      AlikePut(db, s, now, id, ReissueKey(db.servers, id, HashSecret(key), now)[id], ReissueKey(s.servers, id, HashSecret(key), now)[id]);
    }
  }

  lemma AdminStep(db: Db, now: Instant, req: Request)
    requires NeedsAdmin(req)
    ensures var (x, y) := (GuardedAdminRoute(db, now, req), GuardedAdminRoute(Swept(db, now), now, req));
            x.1 == y.1 && Alike(x.0, y.0, now)
  {
    SweptSession(db, req.cookie, now);
    SweptAgain(db, now, now);
    var user := SignedIn(db, req.cookie, now);
    if user.Some? && user.value.role == Admin {
      match req
      case PostApprove(_, id, key) => ApproveStep(db, now, user.value.id, id, key);
      case PostRevoke(_, id, reason) => RevokeStep(db, now, user.value.id, id, reason);
      case PostReissue(_, id, reason, key) => ReissueStep(db, now, user.value.id, id, reason, key);
    }
  }

  lemma AgentStep(db: Db, issued: set<string>, now: Instant, req: Request)
    requires (req.PostEvent? || req.PostHeartbeat?) && ServersInv(db.servers, issued)
    ensures var (x, y) := (AgentRoute(db, now, req), AgentRoute(Swept(db, now), now, req));
            x.1 == y.1 && Alike(x.0, y.0, now)
  {
    SweptAgent(db, issued, req.apiKey, now);
    SweptAgain(db, now, now);
    var r := AuthenticatedServer(db, req.apiKey);
    if r.Some? {
      assert r.value.id in db.servers;
      if req.PostEvent? {
        TouchStep(db, now, r.value.id, ToPost(req, r.value.id, now));
      } else {
        HeartbeatStep(db, now, r.value.id, req.version);
      }
    }
  }

  lemma TouchStep(db: Db, now: Instant, id: Id, p: Post)
    requires id in db.servers && p.serverId == id
    ensures Alike(EventRoute(db, now, p), EventRoute(Swept(db, now), now, p), now)
  {
    var s := Swept(db, now);
    SweptPut(db.servers, id, TouchLastSeen(db.servers, id, now)[id], now);
    SweptPut(s.servers, id, TouchLastSeen(s.servers, id, now)[id], now);
    SweptAgain(db, now, now);
  }

  lemma HeartbeatStep(db: Db, now: Instant, id: Id, version: Option<string>)
    requires id in db.servers
    ensures Alike(db.(servers := TouchHeartbeat(db.servers, id, now, version)),
                  Swept(db, now).(servers := TouchHeartbeat(Swept(db, now).servers, id, now, version)), now)
  {
    var s := Swept(db, now);
    SweptAgain(db, now, now);
    AlikePut(db, s, now, id, TouchHeartbeat(db.servers, id, now, version)[id], TouchHeartbeat(s.servers, id, now, version)[id]);
  }

  lemma EnrollStep(db: Db, now: Instant, req: Request)
    requires req.PostEnroll?
    ensures var (x, y) := (EnrollRoute(db, now, req.id, req.institution, req.product, req.hostname, req.claim),
                           EnrollRoute(Swept(db, now), now, req.id, req.institution, req.product, req.hostname, req.claim));
            x.1 == y.1 && Alike(x.0, y.0, now)
  {
    var s := Swept(db, now);
    SweptAgain(db, now, now);
    var x := EnrollRoute(db, now, req.id, req.institution, req.product, req.hostname, req.claim).0;
    var y := EnrollRoute(s, now, req.id, req.institution, req.product, req.hostname, req.claim).0;
    if req.id !in db.servers || db.servers[req.id].status == Pending {
      AlikePut(db, s, now, req.id, x.servers[req.id], y.servers[req.id]);
    }
  }

  lemma MarkerStep(db: Db, now: Instant, id: Id, marker: Option<Instant>)
    ensures Alike(db.(servers := SetMarker(db.servers, id, marker)),
                  Swept(db, now).(servers := SetMarker(Swept(db, now).servers, id, marker)), now)
  {
    SweptAgain(db, now, now);
    if id in db.servers {
      var s := Swept(db, now);
      AlikePut(db, s, now, id, SetMarker(db.servers, id, marker)[id], SetMarker(s.servers, id, marker)[id]);
    }
  }

  lemma SweptFleet(db: Db, now: Instant, cfg: Config)
    ensures FleetView(Swept(db, now), now, cfg) == FleetView(db, now, cfg)
  {
  }

  /** What a poll and the admin pages read is the same before and after a sweep. */
  lemma ViewStep(db: Db, now: Instant, cfg: Config, req: Request)
    requires NeedsSession(req)
    ensures ViewRoute(Swept(db, now), now, cfg, req) == ViewRoute(db, now, cfg, req)
    ensures Alike(db, Swept(db, now), now)
  {
    SweptAgain(db, now, now);
    SweptSession(db, req.cookie, now);
    if req.GetFleet? {
      SweptFleet(db, now, cfg);
    }
  }

  lemma OtherStep(cfg: Config, db: Db, step: Step)
    requires step.req.GetEnroll? || step.req.CreateUser? || step.req.RetentionTimer?
    ensures Unobserved(cfg, db, step)
  {
    SweptAgain(db, step.now, step.now);
  }

  lemma AdminApply(cfg: Config, db: Db, step: Step)
    requires NeedsAdmin(step.req)
    ensures Unobserved(cfg, db, step)
  {
    AdminStep(db, step.now, step.req);
  }

  lemma AgentIsRouted(cfg: Config, db: Db, step: Step)
    requires IsAgent(step.req)
    ensures Apply(cfg, db, step) == AgentRoute(db, step.now, step.req)
  {
  }

  lemma AgentApply(cfg: Config, db: Db, issued: set<string>, step: Step)
    requires IsAgent(step.req) && ServersInv(db.servers, issued)
    ensures Unobserved(cfg, db, step)
  {
    AgentStep(db, issued, step.now, step.req);
    AgentIsRouted(cfg, db, step);
    AgentIsRouted(cfg, Swept(db, step.now), step);
  }

  lemma ViewApply(cfg: Config, db: Db, step: Step)
    requires NeedsSession(step.req)
    ensures Unobserved(cfg, db, step)
  {
    ViewStep(db, step.now, cfg, step.req);
  }

  lemma OpenStep(cfg: Config, db: Db, issued: set<string>, step: Step)
    requires SessionsInv(db, issued) && Fresh(step.req, issued) && !IsSweep(step.req)
    requires !NeedsAdmin(step.req) && !IsAgent(step.req) && !NeedsSession(step.req)
    ensures Unobserved(cfg, db, step)
  {
    match step.req
    case PostEnroll(_, _, _, _, _) => EnrollStep(db, step.now, step.req);
    case Login(_, _, _) => LoginStep(db, issued, step.now, cfg, step.req);
    case Logout(cookie) => LogoutStep(db, step.now, cookie);
    case MarkOffline(id, at) => MarkerStep(db, step.now, id, Some(at));
    case ClearOffline(id) => MarkerStep(db, step.now, id, None);
    case _ => OtherStep(cfg, db, step);
  }

  /** Sweeping before a request changes neither its answer nor, up to another sweep, its effect. */
  lemma SweepThenStep(cfg: Config, db: Db, issued: set<string>, step: Step)
    requires Inv(db, issued) && Fresh(step.req, issued) && !IsSweep(step.req)
    ensures Unobserved(cfg, db, step)
  {
    if NeedsAdmin(step.req) {
      AdminApply(cfg, db, step);
    } else if IsAgent(step.req) {
      AgentApply(cfg, db, issued, step);
    } else if NeedsSession(step.req) {
      ViewApply(cfg, db, step);
    } else {
      OpenStep(cfg, db, issued, step);
    }
  }

  lemma LoginStep(db: Db, issued: set<string>, now: Instant, cfg: Config, req: Request)
    requires req.Login? && SessionsInv(db, issued) && Fresh(req, issued)
    ensures var (x, y) := (LoginRoute(db, now, cfg, req.username, req.passwordValid, req.token),
                           LoginRoute(Swept(db, now), now, cfg, req.username, req.passwordValid, req.token));
            x.1 == y.1 && Alike(x.0, y.0, now)
  {
    SweptAgain(db, now, now);
    assert HashSecret(req.token) !in db.sessions;
    var x := LoginRoute(db, now, cfg, req.username, req.passwordValid, req.token).0;
    var y := LoginRoute(Swept(db, now), now, cfg, req.username, req.passwordValid, req.token).0;
    assert DropExpired(x.sessions, now) == DropExpired(y.sessions, now);
  }

  lemma LogoutStep(db: Db, now: Instant, cookie: Option<string>)
    ensures var (x, y) := (LogoutRoute(db, now, cookie), LogoutRoute(Swept(db, now), now, cookie));
            x.1 == y.1 && Alike(x.0, y.0, now)
  {
    SweptAgain(db, now, now);
    SweptSession(db, cookie, now);
    var (x, y) := (LogoutRoute(db, now, cookie).0, LogoutRoute(Swept(db, now), now, cookie).0);
    assert DropExpired(x.sessions, now) == DropExpired(y.sessions, now);
  }

  // ----- whole runs -----

  function Erase(h: History): History {
    if h == [] then [] else Erase(Front(h)) + if IsSweep(Last(h).req) then [] else [Last(h)]
  }

  /** The answers of everything but the sweeps. */
  ghost function Answers(cfg: Config, h: History): seq<Answer> {
    if h == [] then [] else Answers(cfg, Front(h)) + if IsSweep(Last(h).req) then [] else [LastAnswer(cfg, h)]
  }

  lemma {:induction false} EraseIsRun(h: History)
    requires IsRun(h)
    ensures IsRun(Erase(h)) && Issued(Erase(h)) == Issued(h)
    ensures h != [] ==> NotBefore(Erase(h), Last(h).now)
  {
    if h == [] {
    } else {
      EraseIsRun(Front(h));
      var e := Erase(Front(h));
      if !IsSweep(Last(h).req) {
        assert Erase(h) == e + [Last(h)] && Front(e + [Last(h)]) == e;
      } else {
        assert Erase(h) == e;
      }
    }
  }

  /** Dropping every sweep from a run changes no answer, and leaves a store that differs from the
      swept one only by sweeps. */
  lemma {:induction false} ErasingSweeps(cfg: Config, h: History, now: Instant)
    requires IsRun(h) && NotBefore(h, now)
    ensures Answers(cfg, h) == Answers(cfg, Erase(h))
    ensures Alike(After(cfg, h), After(cfg, Erase(h)), now)
  {
    if h == [] {
    } else {
      var rest, step := Front(h), Last(h);
      ErasingSweeps(cfg, rest, step.now);
      EraseIsRun(rest);
      var a, b := After(cfg, rest), After(cfg, Erase(rest));
      SweptAgain(After(cfg, h), step.now, now);
      if IsSweep(step.req) {
        assert Erase(h) == Erase(rest);
        SweptAgain(a, step.now, now);
        SweptAgain(b, step.now, now);
      } else {
        RunKeepsInv(cfg, rest);
        RunKeepsInv(cfg, Erase(rest));
        SweepThenStep(cfg, a, Issued(rest), step);
        SweepThenStep(cfg, b, Issued(rest), step);
        OneStepLater(cfg, h);
        SweptAgain(After(cfg, Erase(h)), step.now, now);
      }
    }
  }

  lemma OneStepLater(cfg: Config, h: History)
    requires h != [] && !IsSweep(Last(h).req)
    ensures var b := Apply(cfg, After(cfg, Erase(Front(h))), Last(h));
            After(cfg, Erase(h)) == b.0 && Answers(cfg, Erase(h)) == Answers(cfg, Erase(Front(h))) + [b.1]
  {
    var e := Erase(Front(h));
    assert Erase(h) == e + [Last(h)] && Front(e + [Last(h)]) == e;
  }

  /** The sweeps are unobservable: two runs that make the same requests at the same times, with sweeps
      inserted or left out anywhere, get the same answers to every poll, lookup, login and page. */
  lemma SweepsUnobservable(cfg: Config, g: History, h: History)
    requires IsRun(g) && IsRun(h) && Erase(g) == Erase(h)
    ensures Answers(cfg, g) == Answers(cfg, h)
  {
    ErasingSweeps(cfg, g, if g == [] then 0 else Last(g).now);
    ErasingSweeps(cfg, h, if h == [] then 0 else Last(h).now);
  }

  // ----- what the sweeps do remove -----

  lemma SweptRow(cfg: Config, db: Db, now: Instant, id: Id)
    requires id in db.servers
    ensures var row, row' := db.servers[id], Apply(cfg, db, Step(now, SweepKeysTimer)).0.servers[id];
            row' == if row.pendingApiKey.Some? && row.pendingExpiresAt.Some? && row.pendingExpiresAt.value <= now
                    then row.(pendingApiKey := None, pendingExpiresAt := None) else row
  {
  }

  /** Right after a key sweep the store holds in plaintext exactly the approved keys still within their five
      minutes, polled or not. */
  lemma SweepLeavesLiveKeys(cfg: Config, h: History, id: Id)
    requires h != [] && IsRun(h) && Last(h).req.SweepKeysTimer? && id in After(cfg, h).servers
    ensures var grant := LiveGrant(cfg, h, id);
            After(cfg, h).servers[id].pendingApiKey ==
            if grant.Some? && grant.value.viaApproval && Last(h).now < grant.value.at + 300_000 then Some(grant.value.key) else None
  {
    RowIsHistory(cfg, Front(h), id, Last(h).now);
    SweptRow(cfg, After(cfg, Front(h)), Last(h).now, id);
  }

  /** Right after a session sweep the store holds exactly the sessions that still sign their bearer in. */
  lemma SweepLeavesLiveSessions(cfg: Config, h: History, token: string)
    requires h != [] && IsRun(h) && Last(h).req.SweepSessionsTimer?
    ensures var signIn := Accounts.LiveSignIn(cfg, h, token);
            HashSecret(token) in After(cfg, h).sessions <==>
            signIn.Some? && Last(h).now < signIn.value.at + cfg.sessionTtlHours * 3_600_000
  {
    Accounts.SessionsAreKept(cfg, Front(h), token, Last(h).now);
  }
}
