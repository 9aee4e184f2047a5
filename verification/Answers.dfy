/** Every answer of the API, as a function of what earlier requests were answered. */
module Answers {
  import opened Base
  import opened Events
  import opened Store
  import opened Routes
  import opened Runs
  import Accounts
  import Audit
  import Ingestion
  import Profiles

  // ----- who is asking -----

  /** The account whose session cookie this is: returned by a login, within its hours, not logged out. */
  ghost function Bearer(cfg: Config, h: History, cookie: Option<string>, now: Instant): Option<UserRow> {
    if cookie == None || cookie == Some("") then None
    else
      match Accounts.LiveSignIn(cfg, h, cookie.value)
      case None => None
      case Some(s) => if now < s.at + cfg.sessionTtlHours * 3_600_000 then Some(s.user) else None
  }

  lemma BearerIsSignedIn(cfg: Config, h: History, cookie: Option<string>, now: Instant)
    requires IsRun(h) && NotBefore(h, now)
    ensures SignedIn(After(cfg, h), cookie, now) == Bearer(cfg, h, cookie, now)
  {
    if cookie != None && cookie != Some("") { Accounts.SessionIsHistory(cfg, h, cookie.value, now); }
  }

  // ----- what the pages show -----

  ghost function Enrolled(cfg: Config, h: History): set<Id> {
    if h == [] then {}
    else
      Enrolled(cfg, Front(h)) +
      if Last(h).req.PostEnroll? && LastAnswer(cfg, h).ClaimReply? then {Last(h).req.id} else {}
  }

  lemma {:induction false} EnrolledIsClaimed(cfg: Config, h: History, id: Id)
    ensures id in Enrolled(cfg, h) <==> LatestClaim(cfg, h, id).Some?
  {
    if h == [] {
    } else {
      EnrolledIsClaimed(cfg, Front(h), id);
    }
  }

  /** The last of the server's posts in the category. */
  function LastPost(posts: seq<Post>, s: Id, c: Category): Option<Post> {
    if posts == [] then None
    else
      var p := posts[|posts| - 1];
      if p.serverId == s && p.category == c then Some(p) else LastPost(posts[..|posts| - 1], s, c)
  }

  /** The status shown for a category: what its last visible post said, and when it came. */
  ghost function Shown(cfg: Config, h: History, s: Id): ByCategory {
    var posts := Ingestion.VisiblePosts(Ingestion.StoredPosts(cfg, h), Ingestion.LastCutoff(cfg, h));
    map c: Category | c in {Backup, Maintenance, Health} && LastPost(posts, s, c).Some? ::
      var p := LastPost(posts, s, c).value; CategoryStatus(p.severity, p.createdAt, p.payload)
  }

  /** A server as the pages show it. */
  ghost function HistoryView(cfg: Config, h: History, id: Id, now: Instant): ServerView
    requires LatestClaim(cfg, h, id).Some?
  {
    var beat := Profiles.LastBeat(cfg, h, id);
    ServerView(Profiles.HistoryPublic(cfg, h, id),
               beat.Some? && now - beat.value <= cfg.expectedIntervalMinutes * cfg.missedThreshold * 60_000,
               Shown(cfg, h, id))
  }

  /** What a step adds to a server's trail, by its effect on the server: what was done, by whose session,
      why and when. */
  ghost function Added(e: Effect, req: Request, admin: Option<UserRow>, now: Instant): seq<ActionView> {
    var id := if admin.Some? then admin.value.id else "";
    match e
    case KeyApproved(_) => [ActionView(ApproveAction, id, None, now)]
    case KeyRevoked => [ActionView(RevokeAction, id, if req.PostRevoke? then req.reason else None, now)]
    case KeyReissued(_) => [ActionView(ReissueAction, id, if req.PostReissue? then req.reason else None, now)]
    case _ => []
  }

  /** The lifecycle actions on a server, oldest first. */
  ghost function HistoryActions(cfg: Config, h: History, id: Id): seq<ActionView> {
    if h == [] then []
    else
      var req, now := Last(h).req, Last(h).now;
      HistoryActions(cfg, Front(h), id) +
      Added(LastEffect(cfg, h, id), req, if NeedsAdmin(req) then Bearer(cfg, Front(h), req.cookie, now) else None, now)
  }

  /** At most `limit` of the last elements, the last one first. */
  function Newest<T>(s: seq<T>, limit: nat): seq<T> {
    seq(if limit < |s| then limit else |s|, i requires 0 <= i < |s| => s[|s| - 1 - i])
  }

  // ----- the table behind the pages -----

  /** Rows in the order of their arrival. */
  predicate InOrder(events: seq<EventRow>) {
    forall i, j :: 0 <= i < j < |events| ==> events[i].createdAt <= events[j].createdAt && events[i].id < events[j].id
  }

  lemma {:induction false} LatestIsLast(events: seq<EventRow>, s: Id, c: Category)
    requires InOrder(events)
    ensures Latest(events, s, c) == LastMatch(events, s, c)
  {
    if events == [] {
    } else {
      var n := |events| - 1;
      LatestIsLast(events[..n], s, c);
      LatestIsNewest(events[..n], s, c);
      var best := Latest(events[..n], s, c);
      if best.Some? {
        var i :| 0 <= i < n && events[..n][i] == best.value;
        assert events[i] == best.value;
      }
    }
  }

  lemma {:induction false} LastRowIsLastPost(events: seq<EventRow>, s: Id, c: Category)
    ensures LastPost(StripAll(events), s, c) ==
            match LastMatch(events, s, c) case None => None case Some(e) => Some(Strip(e))
  {
    if events == [] {
    } else {
      var n := |events| - 1;
      LastRowIsLastPost(events[..n], s, c);
      assert StripAll(events)[..n] == StripAll(events[..n]);
    }
  }

  lemma {:induction false} RowsInOrder(cfg: Config, h: History, now: Instant)
    requires IsRun(h) && NotBefore(h, now)
    ensures InOrder(Ingestion.Inserted(cfg, h))
    ensures forall i :: 0 <= i < |Ingestion.Inserted(cfg, h)| ==>
              Ingestion.Inserted(cfg, h)[i].createdAt <= now && Ingestion.Inserted(cfg, h)[i].id <= After(cfg, h).lastEventId
  {
    if h == [] {
    } else {
      RowsInOrder(cfg, Front(h), Last(h).now);
      InsertedNext(cfg, h);
    }
  }

  lemma InsertedNext(cfg: Config, h: History)
    requires h != []
    ensures var was, now := Ingestion.Inserted(cfg, Front(h)), Ingestion.Inserted(cfg, h);
            && After(cfg, Front(h)).lastEventId <= After(cfg, h).lastEventId
            && (now == was || (now == was + [now[|was|]] && now[|was|].createdAt == Last(h).now
                && now[|was|].id == After(cfg, h).lastEventId == After(cfg, Front(h)).lastEventId + 1))
  {
    if Last(h).req.PostEvent? {
      RowIds(cfg, After(cfg, Front(h)), Last(h));
    } else {
      assert Ingestion.Inserted(cfg, h) == Ingestion.Inserted(cfg, Front(h));
      CounterStays(cfg, After(cfg, Front(h)), Last(h));
    }
  }

  lemma CounterStays(cfg: Config, db: Db, step: Step)
    requires !step.req.PostEvent?
    ensures Apply(cfg, db, step).0.lastEventId == db.lastEventId
  {
    if !step.req.RetentionTimer? { OnlyPostsWriteEvents(cfg, db, step); }
  }

  lemma RowIds(cfg: Config, db: Db, step: Step)
    requires step.req.PostEvent?
    ensures var db' := Apply(cfg, db, step).0;
            (db'.events == db.events && db'.lastEventId == db.lastEventId) ||
            (db'.lastEventId == db.lastEventId + 1 && |db'.events| == |db.events| + 1
             && db'.events[|db.events|].id == db'.lastEventId && db'.events[|db.events|].createdAt == step.now)
  {
    Ingestion.PostInserts(cfg, db, step);
  }

  lemma KeptInOrder(events: seq<EventRow>, kept: seq<EventRow>)
    requires events != [] && InOrder(events) && InOrder(kept) && forall e :: e in kept ==> e in events[..|events| - 1]
    ensures InOrder(kept + [events[|events| - 1]])
  {
    var n := |events| - 1;
    forall i | 0 <= i < |kept| ensures kept[i].createdAt <= events[n].createdAt && kept[i].id < events[n].id {
      assert kept[i] in kept;
      var j :| 0 <= j < n && events[j] == kept[i];
    }
  }

  lemma {:induction false} OrderSurvives(events: seq<EventRow>, cutoff: Instant)
    requires InOrder(events)
    ensures InOrder(DeleteOlder(events, cutoff))
  {
    if events == [] {
    } else {
      var n := |events| - 1;
      OrderSurvives(events[..n], cutoff);
      DeleteOlderContents(events[..n], cutoff);
      KeptInOrder(events, DeleteOlder(events[..n], cutoff));
    }
  }

  lemma TableInOrder(cfg: Config, h: History)
    requires IsRun(h)
    ensures InOrder(After(cfg, h).events)
  {
    RowsInOrder(cfg, h, if h == [] then 0 else Last(h).now);
    Ingestion.RetentionIsLastCutoff(cfg, h);
    var cutoff := Ingestion.LastCutoff(cfg, h);
    if cutoff.Some? { OrderSurvives(Ingestion.Inserted(cfg, h), cutoff.value); }
  }

  /** The statuses of both pages are the last word of each category. */
  lemma StatusesAreShown(cfg: Config, h: History, id: Id)
    requires IsRun(h)
    ensures LatestView(After(cfg, h).events, id) == Shown(cfg, h, id)
  {
    var events := After(cfg, h).events;
    TableInOrder(cfg, h);
    Ingestion.TableIsHistory(cfg, h);
    var view, shown := LatestView(events, id), Shown(cfg, h, id);
    forall c: Category ensures c in view <==> c in shown ensures c in view ==> view[c] == shown[c] {
      LatestIsLast(events, id, c);
      LastRowIsLastPost(events, id, c);
      assert c in {Backup, Maintenance, Health} by { match c case Backup => case Maintenance => case Health => }
    }
  }

  // ----- the audit trail behind the detail page -----

  function ViewOfAction(a: ActionRow): ActionView { ActionView(a.kind, a.adminUserId, a.reason, a.createdAt) }

  function ViewsOf(rows: seq<ActionRow>): seq<ActionView> {
    if rows == [] then [] else ViewsOf(rows[..|rows| - 1]) + [ViewOfAction(rows[|rows| - 1])]
  }

  lemma OneMoreView(rows: seq<ActionRow>, row: ActionRow)
    ensures ViewsOf(rows + [row]) == ViewsOf(rows) + [ViewOfAction(row)]
  {
    assert (rows + [row])[..|rows|] == rows;
  }

  lemma StepAdds(cfg: Config, db: Db, step: Step, id: Id)
    ensures var (db', a) := Apply(cfg, db, step);
            var admin := if NeedsAdmin(step.req) then SignedIn(db, step.req.cookie, step.now) else None;
            ViewsOf(ActionsOf(db'.actions, id)) ==
            ViewsOf(ActionsOf(db.actions, id)) + Added(EffectOf(step.req, a, id), step.req, admin, step.now)
  {
    Audit.StepActions(cfg, db, step, id);
    var rows := ActionsOf(db.actions, id);
    var (db', a) := Apply(cfg, db, step);
    if Audit.Lifecycle(EffectOf(step.req, a, id)) {
      OneMoreView(rows, ActionsOf(db'.actions, id)[|rows|]);
    } else {
      assert ViewsOf(rows) + [] == ViewsOf(rows);
    }
  }

  lemma {:induction false} ActionsAreHistory(cfg: Config, h: History, id: Id)
    requires IsRun(h)
    ensures ViewsOf(ActionsOf(After(cfg, h).actions, id)) == HistoryActions(cfg, h, id)
  {
    if h == [] {
    } else {
      ActionsAreHistory(cfg, Front(h), id);
      StepAdds(cfg, After(cfg, Front(h)), Last(h), id);
      if NeedsAdmin(Last(h).req) { BearerIsSignedIn(cfg, Front(h), Last(h).req.cookie, Last(h).now); }
    }
  }

  lemma {:induction false} ViewsAt(rows: seq<ActionRow>, i: nat)
    requires i < |rows|
    ensures |ViewsOf(rows)| == |rows| && ViewsOf(rows)[i] == ViewOfAction(rows[i])
  {
    if i == |rows| - 1 {
      if i > 0 { ViewsAt(rows[..i], 0); }
    } else {
      ViewsAt(rows[..|rows| - 1], i);
    }
  }

  lemma ReversedTail(rows: seq<ActionRow>, views: seq<ActionView>, limit: nat)
    requires |rows| == |views| && forall i :: 0 <= i < |rows| ==> ViewOfAction(rows[i]) == views[i]
    ensures ViewActions(Audit.Reverse(rows[if limit < |rows| then |rows| - limit else 0..])) == Newest(views, limit)
  {
    var tail := rows[if limit < |rows| then |rows| - limit else 0..];
    Audit.ReverseContents(tail);
  }

  lemma AllViews(rows: seq<ActionRow>, views: seq<ActionView>)
    requires views == ViewsOf(rows)
    ensures |rows| == |views| && forall i :: 0 <= i < |rows| ==> ViewOfAction(rows[i]) == views[i]
  {
    if rows != [] { ViewsAt(rows, 0); }
    forall i | 0 <= i < |rows| ensures ViewOfAction(rows[i]) == views[i] { ViewsAt(rows, i); }
  }

  lemma ListedViews(actions: seq<ActionRow>, id: Id, limit: nat)
    requires Audit.Chronological(actions)
    ensures ViewActions(ListActions(actions, id, limit)) == Newest(ViewsOf(ActionsOf(actions, id)), limit)
  {
    var rows := ActionsOf(actions, id);
    Audit.ListingOfLog(actions, id, limit);
    AllViews(rows, ViewsOf(rows));
    ReversedTail(rows, ViewsOf(rows), limit);
  }

  lemma ListedActions(cfg: Config, h: History, id: Id)
    requires IsRun(h)
    ensures ViewActions(ListActions(After(cfg, h).actions, id, 20)) == Newest(HistoryActions(cfg, h, id), 20)
  {
    ActionsAreHistory(cfg, h, id);
    Audit.ActionsAreChronological(cfg, h, if h == [] then 0 else Last(h).now);
    ListedViews(After(cfg, h).actions, id, 20);
  }

  // ----- answers -----

  /** The ids the create-admin command has used. */
  ghost function UserIds(cfg: Config, h: History): set<Id> {
    if h == [] then {}
    else
      UserIds(cfg, Front(h)) +
      if Last(h).req.CreateUser? && LastAnswer(cfg, h).Done? then {Last(h).req.userId} else {}
  }

  /** The answer to an admin's lifecycle request, from the server's status. */
  ghost function LifecycleAnswer(cfg: Config, h: History, req: Request): Answer
    requires NeedsAdmin(req)
  {
    if LatestClaim(cfg, h, req.id).None? then NotFound
    else
      var status := Profiles.HistoryStatus(cfg, h, req.id);
      match req
      case PostApprove(_, _, _) => if status == Pending then StatusReply(Approved) else Conflict(status)
      case PostRevoke(_, _, _) => if status == Revoked then Conflict(Revoked) else StatusReply(Revoked)
      case PostReissue(_, _, _, key) => if status == Pending then Conflict(Pending) else KeyReply(Approved, key)
  }

  ghost function SignedInAnswer(cfg: Config, h: History, req: Request, user: UserRow, now: Instant): Answer
    requires NeedsSession(req)
  {
    match req
    case GetFleet(_) =>
      Fleet(map id | id in Enrolled(cfg, h) && LatestClaim(cfg, h, id).Some? :: HistoryView(cfg, h, id, now))
    case GetServer(_, id) =>
      if LatestClaim(cfg, h, id).None? then NotFound
      else Details(HistoryView(cfg, h, id, now), Newest(HistoryActions(cfg, h, id), 20))
    case GetMe(_) => Identity(user.username, user.role)
  }

  /** What a request must be answered, from the requests answered before it. */
  ghost function HistoryAnswer(cfg: Config, h: History, step: Step): Answer {
    var req, now := step.req, step.now;
    if NeedsAdmin(req) then
      match Bearer(cfg, h, req.cookie, now)
      case None => Unauthorized
      case Some(user) => if user.role == Admin then LifecycleAnswer(cfg, h, req) else Forbidden
    else if NeedsSession(req) then
      match Bearer(cfg, h, req.cookie, now)
      case None => Unauthorized
      case Some(user) => SignedInAnswer(cfg, h, req, user, now)
    else
      match req
      case PostEnroll(id, _, _, _, claim) =>
        if LatestClaim(cfg, h, id).None? || Profiles.HistoryStatus(cfg, h, id) == Pending then ClaimReply(claim)
        else Conflict(Profiles.HistoryStatus(cfg, h, id))
      case GetEnroll(id, presented) => HistoryPoll(cfg, h, id, presented, now)
      case PostEvent(apiKey, _, _, _, _, _) => if Ingestion.Sender(cfg, h, apiKey).Some? then Accepted else Unauthorized
      case PostHeartbeat(apiKey, _) => if Ingestion.Sender(cfg, h, apiKey).Some? then Accepted else Unauthorized
      case CreateUser(userId, username, _) =>
        if Accounts.Account(cfg, h, username).Some? then Rejected else if userId in UserIds(cfg, h) then Crashed else Done
      case Login(username, passwordValid, token) =>
        var user := Accounts.Account(cfg, h, username);
        if user.Some? && passwordValid then LoggedIn(token, user.value.role) else Unauthorized
      case Logout(cookie) => if Bearer(cfg, h, cookie, now).Some? then Done else Unauthorized
      case _ => Done
  }

  lemma LifecycleAnswered(cfg: Config, h: History, now: Instant, admin: Id, req: Request)
    requires IsRun(h) && NotBefore(h, now) && NeedsAdmin(req)
    ensures AdminRoute(After(cfg, h), now, admin, req).1 == LifecycleAnswer(cfg, h, req)
  {
    RowIsHistory(cfg, h, req.id, now);
  }

  lemma FleetAnswered(cfg: Config, h: History, now: Instant)
    requires IsRun(h)
    ensures FleetView(After(cfg, h), now, cfg) ==
            map id | id in Enrolled(cfg, h) && LatestClaim(cfg, h, id).Some? :: HistoryView(cfg, h, id, now)
  {
    var db := After(cfg, h);
    var fleet := FleetView(db, now, cfg);
    forall id
      ensures id in fleet <==> id in Enrolled(cfg, h) && LatestClaim(cfg, h, id).Some?
      ensures id in fleet ==> LatestClaim(cfg, h, id).Some? && fleet[id] == HistoryView(cfg, h, id, now)
    {
      EnrolledIsClaimed(cfg, h, id);
      Profiles.PublicRowIsHistory(cfg, h, id);
      if id in db.servers { ViewAnswered(cfg, h, id, now); }
    }
  }

  lemma ViewAnswered(cfg: Config, h: History, id: Id, now: Instant)
    requires IsRun(h) && id in After(cfg, h).servers
    ensures LatestClaim(cfg, h, id).Some? && FleetView(After(cfg, h), now, cfg)[id] == HistoryView(cfg, h, id, now)
  {
    Profiles.PublicRowIsHistory(cfg, h, id);
    Profiles.OnlineIsHistory(cfg, h, id, now);
    Ingestion.PagesAgree(cfg, h, id, now);
    StatusesAreShown(cfg, h, id);
    FleetShowsRow(After(cfg, h), id, now, cfg);
  }

  lemma FleetShowsRow(db: Db, id: Id, now: Instant, cfg: Config)
    requires id in db.servers
    ensures FleetView(db, now, cfg)[id].server == ToPublic(db.servers[id])
  {
  }

  lemma DetailAnswered(cfg: Config, h: History, id: Id, now: Instant)
    requires IsRun(h)
    ensures DetailView(After(cfg, h), now, id, cfg) ==
            if LatestClaim(cfg, h, id).None? then NotFound
            else Details(HistoryView(cfg, h, id, now), Newest(HistoryActions(cfg, h, id), 20))
  {
    Profiles.PublicRowIsHistory(cfg, h, id);
    if id in After(cfg, h).servers {
      Ingestion.PagesAgree(cfg, h, id, now);
      ViewAnswered(cfg, h, id, now);
      ListedActions(cfg, h, id);
    }
  }

  lemma PageAnswered(cfg: Config, h: History, req: Request, user: UserRow, now: Instant)
    requires IsRun(h) && NeedsSession(req) && SignedIn(After(cfg, h), req.cookie, now) == Some(user)
    ensures ViewRoute(After(cfg, h), now, cfg, req) == SignedInAnswer(cfg, h, req, user, now)
  {
    match req
    case GetFleet(_) => FleetAnswered(cfg, h, now);
    case GetServer(_, id) => DetailAnswered(cfg, h, id, now);
    case GetMe(_) =>
  }

  lemma SessionAnswered(cfg: Config, h: History, step: Step)
    requires IsRun(h) && NotBefore(h, step.now) && NeedsSession(step.req)
    ensures Apply(cfg, After(cfg, h), step).1 == HistoryAnswer(cfg, h, step)
  {
    BearerIsSignedIn(cfg, h, step.req.cookie, step.now);
    var user := Bearer(cfg, h, step.req.cookie, step.now);
    if user.Some? { PageAnswered(cfg, h, step.req, user.value, step.now); }
  }

  lemma AdminAnswered(cfg: Config, h: History, step: Step)
    requires IsRun(h) && NotBefore(h, step.now) && NeedsAdmin(step.req)
    ensures Apply(cfg, After(cfg, h), step).1 == HistoryAnswer(cfg, h, step)
  {
    BearerIsSignedIn(cfg, h, step.req.cookie, step.now);
    var user := Bearer(cfg, h, step.req.cookie, step.now);
    if user.Some? { LifecycleAnswered(cfg, h, step.now, user.value.id, step.req); }
  }

  lemma {:induction false} UserIdsAreUsers(cfg: Config, h: History)
    ensures After(cfg, h).users.Keys == UserIds(cfg, h)
  {
    if h == [] {
    } else {
      UserIdsAreUsers(cfg, Front(h));
      Accounts.UsersStay(cfg, After(cfg, Front(h)), Last(h));
    }
  }

  lemma AccountAnswered(cfg: Config, h: History, step: Step)
    requires IsRun(h) && NotBefore(h, step.now) && Fresh(step.req, Issued(h))
    requires step.req.CreateUser? || step.req.Login? || step.req.Logout?
    ensures Apply(cfg, After(cfg, h), step).1 == HistoryAnswer(cfg, h, step)
  {
    RunKeepsInv(cfg, h);
    match step.req
    case CreateUser(_, username, _) =>
      Accounts.AccountsAreHistory(cfg, h, username);
      UserIdsAreUsers(cfg, h);
    case Login(username, _, _) => Accounts.AccountsAreHistory(cfg, h, username);
    case Logout(cookie) => BearerIsSignedIn(cfg, h, cookie, step.now);
  }

  lemma AgentAnswered(cfg: Config, h: History, step: Step)
    requires IsRun(h) && IsAgent(step.req)
    ensures Apply(cfg, After(cfg, h), step).1 == HistoryAnswer(cfg, h, step)
  {
    Ingestion.SenderIsServer(cfg, h, step.req.apiKey);
  }

  lemma EnrollAnswered(cfg: Config, h: History, step: Step)
    requires IsRun(h) && NotBefore(h, step.now) && (step.req.PostEnroll? || step.req.GetEnroll?)
    ensures Apply(cfg, After(cfg, h), step).1 == HistoryAnswer(cfg, h, step)
  {
    RowIsHistory(cfg, h, step.req.id, step.now);
    if step.req.GetEnroll? { PollIsHistory(cfg, h, step.req.id, step.req.presented, step.now); }
  }

  /** The API is a function of its own history: in every run, every request is answered exactly what the
      requests answered before it dictate, success and refusal alike. */
  lemma AnswerIsHistory(cfg: Config, h: History, step: Step)
    requires IsRun(h) && NotBefore(h, step.now) && Fresh(step.req, Issued(h))
    ensures Apply(cfg, After(cfg, h), step).1 == HistoryAnswer(cfg, h, step)
  {
    if NeedsAdmin(step.req) {
      AdminAnswered(cfg, h, step);
    } else if NeedsSession(step.req) {
      SessionAnswered(cfg, h, step);
    } else if IsAgent(step.req) {
      AgentAnswered(cfg, h, step);
    } else if step.req.PostEnroll? || step.req.GetEnroll? {
      EnrollAnswered(cfg, h, step);
    } else if step.req.CreateUser? || step.req.Login? || step.req.Logout? {
      AccountAnswered(cfg, h, step);
    }
  }
}
