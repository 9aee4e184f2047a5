/** Everything an admin page shows of a server, as a function of the answered requests. */
module Profiles {
  import opened Base
  import opened Store
  import opened Routes
  import opened Runs
  import Monitor

  /** The last request carried the key that was live for `id`. */
  ghost predicate Presented(cfg: Config, h: History, id: Id, apiKey: Option<string>)
    requires h != []
  {
    var grant := LiveGrant(cfg, Front(h), id);
    grant.Some? && apiKey == Some(grant.value.key)
  }

  /** The last request is a heartbeat from `id`. */
  ghost predicate Beats(cfg: Config, h: History, id: Id) {
    h != [] && Last(h).req.PostHeartbeat? && Presented(cfg, h, id, Last(h).req.apiKey)
  }

  /** The last request is a heartbeat or an event from `id`. */
  ghost predicate Contacts(cfg: Config, h: History, id: Id) {
    h != [] && IsAgent(Last(h).req) && Presented(cfg, h, id, Last(h).req.apiKey)
  }

  /** The last request enrolled `id` and was answered with a claim. */
  ghost predicate Enrolls(cfg: Config, h: History, id: Id) {
    h != [] && LastEffect(cfg, h, id).ClaimSet?
  }

  ghost function LastBeat(cfg: Config, h: History, id: Id): Option<Instant> {
    if h == [] then None else if Beats(cfg, h, id) then Some(Last(h).now) else LastBeat(cfg, Front(h), id)
  }

  ghost function LastContact(cfg: Config, h: History, id: Id): Option<Instant> {
    if h == [] then None else if Contacts(cfg, h, id) then Some(Last(h).now) else LastContact(cfg, Front(h), id)
  }

  /** The version in the latest heartbeat that carried one. */
  ghost function LastVersion(cfg: Config, h: History, id: Id): Option<string> {
    if h == [] then None
    else if Beats(cfg, h, id) && Last(h).req.version.Some? then Last(h).req.version
    else LastVersion(cfg, Front(h), id)
  }

  /** When an approve or reissue was last answered with success; a revoke leaves it. */
  ghost function LastGranted(cfg: Config, h: History, id: Id): Option<Instant> {
    if h == [] then None
    else if LastEffect(cfg, h, id).KeyApproved? || LastEffect(cfg, h, id).KeyReissued? then Some(Last(h).now)
    else LastGranted(cfg, Front(h), id)
  }

  /** The first accepted enrollment. */
  ghost function FirstEnrollment(cfg: Config, h: History, id: Id): Option<Step> {
    if h == [] then None
    else
      var earlier := FirstEnrollment(cfg, Front(h), id);
      if earlier.Some? then earlier else if Enrolls(cfg, h, id) then Some(Last(h)) else None
  }

  ghost function LastEnrollment(cfg: Config, h: History, id: Id): Option<Step> {
    if h == [] then None else if Enrolls(cfg, h, id) then Some(Last(h)) else LastEnrollment(cfg, Front(h), id)
  }

  ghost function HistoryStatus(cfg: Config, h: History, id: Id): Status {
    if LiveGrant(cfg, h, id).Some? then Approved else if EverRevoked(cfg, h, id) then Revoked else Pending
  }

  lemma {:induction false} EnrollmentsAreRequests(cfg: Config, h: History, id: Id)
    ensures FirstEnrollment(cfg, h, id).Some? <==> LatestClaim(cfg, h, id).Some?
    ensures LastEnrollment(cfg, h, id).Some? <==> LatestClaim(cfg, h, id).Some?
    ensures FirstEnrollment(cfg, h, id).Some? ==> FirstEnrollment(cfg, h, id).value.req.PostEnroll?
    ensures LastEnrollment(cfg, h, id).Some? ==> LastEnrollment(cfg, h, id).value.req.PostEnroll?
  {
    if h == [] {
    } else {
      EnrollmentsAreRequests(cfg, Front(h), id);
    }
  }

  /** The public columns as history gives them: identity from the latest enrollment, product and age from
      the first, contact times from the requests that carried the live key. */
  ghost function HistoryPublic(cfg: Config, h: History, id: Id): PublicServer
    requires LatestClaim(cfg, h, id).Some?
  {
    EnrollmentsAreRequests(cfg, h, id);
    var first, last := FirstEnrollment(cfg, h, id).value, LastEnrollment(cfg, h, id).value;
    PublicServer(id, last.req.institution, first.req.product, last.req.hostname, HistoryStatus(cfg, h, id),
                 LastVersion(cfg, h, id), first.now, LastGranted(cfg, h, id), LastContact(cfg, h, id), LastBeat(cfg, h, id))
  }

  ghost predicate ColumnsKept(cfg: Config, h: History, id: Id) {
    var servers := After(cfg, h).servers;
    && (id in servers <==> LatestClaim(cfg, h, id).Some?)
    && (id in servers ==> ToPublic(servers[id]) == HistoryPublic(cfg, h, id))
    && (id !in servers ==> LastBeat(cfg, h, id).None? && LastContact(cfg, h, id).None? && LastVersion(cfg, h, id).None?
                           && LastGranted(cfg, h, id).None?)
  }

  /** Which server a request's key resolves to is a matter of history. */
  lemma KeyResolves(cfg: Config, rest: History, id: Id, apiKey: Option<string>)
    requires IsRun(rest)
    ensures var row := AuthenticatedServer(After(cfg, rest), apiKey);
            (row.Some? && row.value.id == id) <==>
            (LiveGrant(cfg, rest, id).Some? && apiKey == Some(LiveGrant(cfg, rest, id).value.key))
  {
    if apiKey.Some? {
      KeyLife(cfg, rest, id, apiKey.value);
      GrantInterval(cfg, rest, id, apiKey.value, EffectsOn(cfg, rest, id));
    }
  }

  function Touched(was: PublicServer, req: Request, now: Instant, resolved: bool): PublicServer
    requires IsAgent(req)
  {
    if !resolved then was
    else if req.PostEvent? then was.(lastSeenAt := Some(now))
    else was.(lastSeenAt := Some(now), lastHeartbeatAt := Some(now),
              bravoVersion := if req.version.Some? then req.version else was.bravoVersion)
  }

  /** What an agent's request writes, given the server its key resolves to. */
  lemma AgentWrites(db: Db, issued: set<string>, now: Instant, req: Request, id: Id)
    requires IsAgent(req) && ServersInv(db.servers, issued)
    ensures var servers' := AgentRoute(db, now, req).0.servers;
            var row := AuthenticatedServer(db, req.apiKey);
            && servers'.Keys == db.servers.Keys
            && (id in db.servers ==>
                  ToPublic(servers'[id]) == Touched(ToPublic(db.servers[id]), req, now, row.Some? && row.value.id == id))
  {
  }

  lemma HistoryAfterAgent(cfg: Config, h: History, id: Id)
    requires h != [] && IsAgent(Last(h).req) && LatestClaim(cfg, Front(h), id).Some?
    ensures LatestClaim(cfg, h, id).Some?
    ensures HistoryPublic(cfg, h, id) ==
            Touched(HistoryPublic(cfg, Front(h), id), Last(h).req, Last(h).now, Presented(cfg, h, id, Last(h).req.apiKey))
  {
    assert LastEffect(cfg, h, id).Nothing?;
  }

  lemma UnknownAfterAgent(cfg: Config, h: History, id: Id)
    requires h != [] && IsRun(h) && IsAgent(Last(h).req) && ColumnsKept(cfg, Front(h), id)
    requires id !in After(cfg, Front(h)).servers
    ensures ColumnsKept(cfg, h, id)
  {
    AgentFrame(After(cfg, Front(h)), Last(h).now, Last(h).req);
    RowIsHistory(cfg, Front(h), id, Last(h).now);
  }

  lemma KnownAfterAgent(cfg: Config, h: History, id: Id)
    requires h != [] && IsRun(h) && IsAgent(Last(h).req) && ColumnsKept(cfg, Front(h), id)
    requires id in After(cfg, Front(h)).servers
    ensures ColumnsKept(cfg, h, id)
  {
    RunKeepsInv(cfg, Front(h));
    AgentWrites(After(cfg, Front(h)), Issued(Front(h)), Last(h).now, Last(h).req, id);
    KeyResolves(cfg, Front(h), id, Last(h).req.apiKey);
    HistoryAfterAgent(cfg, h, id);
  }

  lemma ColumnsAfterEnroll(cfg: Config, h: History, id: Id)
    requires h != [] && IsRun(h) && Last(h).req.PostEnroll? && ColumnsKept(cfg, Front(h), id)
    ensures ColumnsKept(cfg, h, id)
  {
    RowIsHistory(cfg, h, id, Last(h).now);
    RowIsHistory(cfg, Front(h), id, Last(h).now);
    EnrollmentsAreRequests(cfg, h, id);
    EnrollmentsAreRequests(cfg, Front(h), id);
  }

  lemma ColumnsAfterAdmin(cfg: Config, h: History, id: Id)
    requires h != [] && IsRun(h) && NeedsAdmin(Last(h).req) && ColumnsKept(cfg, Front(h), id)
    ensures ColumnsKept(cfg, h, id)
  {
    RowIsHistory(cfg, h, id, Last(h).now);
    AdminStepEffect(After(cfg, Front(h)), Last(h).now, Last(h).req, id);
  }

  lemma ColumnsAfterOther(cfg: Config, h: History, id: Id)
    requires h != [] && IsRun(h) && ColumnsKept(cfg, Front(h), id)
    requires !IsAgent(Last(h).req) && !Last(h).req.PostEnroll? && !NeedsAdmin(Last(h).req)
    ensures ColumnsKept(cfg, h, id)
  {
    OtherWrites(cfg, After(cfg, Front(h)), Last(h), id);
    assert LastEffect(cfg, h, id).Nothing?;
  }

  lemma OtherWrites(cfg: Config, db: Db, step: Step, id: Id)
    requires !IsAgent(step.req) && !step.req.PostEnroll? && !NeedsAdmin(step.req)
    ensures var servers' := Apply(cfg, db, step).0.servers;
            servers'.Keys == db.servers.Keys && (id in db.servers ==> ToPublic(servers'[id]) == ToPublic(db.servers[id]))
  {
    if LeavesCredentials(step.req) && !IsMarker(step.req) { ServersUntouched(cfg, db, step); }
  }

  lemma {:induction false} ColumnsAreKept(cfg: Config, h: History, id: Id)
    requires IsRun(h)
    ensures ColumnsKept(cfg, h, id)
  {
    if h == [] {
    } else {
      ColumnsAreKept(cfg, Front(h), id);
      if IsAgent(Last(h).req) {
        if id in After(cfg, Front(h)).servers { KnownAfterAgent(cfg, h, id); } else { UnknownAfterAgent(cfg, h, id); }
      } else if Last(h).req.PostEnroll? { ColumnsAfterEnroll(cfg, h, id); }
      else if NeedsAdmin(Last(h).req) { ColumnsAfterAdmin(cfg, h, id); }
      else { ColumnsAfterOther(cfg, h, id); }
    }
  }

  /** After any run, a server is listed exactly when an enrollment of it was accepted, and every public
      column is what the answered requests make it. */
  lemma PublicRowIsHistory(cfg: Config, h: History, id: Id)
    requires IsRun(h)
    ensures id in After(cfg, h).servers <==> LatestClaim(cfg, h, id).Some?
    ensures id in After(cfg, h).servers ==> ToPublic(After(cfg, h).servers[id]) == HistoryPublic(cfg, h, id)
  {
    ColumnsAreKept(cfg, h, id);
  }

  /** The overview marks a server online exactly when a heartbeat with its live key came within the window. */
  lemma OnlineIsHistory(cfg: Config, h: History, id: Id, now: Instant)
    requires IsRun(h) && id in After(cfg, h).servers
    ensures FleetView(After(cfg, h), now, cfg)[id].isOnline <==>
            LastBeat(cfg, h, id).Some? &&
            now - LastBeat(cfg, h, id).value <= cfg.expectedIntervalMinutes * cfg.missedThreshold * 60_000
  {
    ColumnsAreKept(cfg, h, id);
  }

  /** A tick's snapshot flags a server as gone offline exactly when it holds a live key, is not marked yet, and
      no heartbeat with its live key came within the missed intervals; so a server that keeps to them, and one
      that is pending or revoked, is never flagged. */
  lemma FlaggedIff(cfg: Config, h: History, rows: seq<ServerRow>, id: Id, now: Instant)
    requires IsRun(h) && IsListing(rows, After(cfg, h).servers)
    ensures Monitor.Transition(id, Monitor.WentOffline) in Monitor.Transitions(rows, now, cfg) <==>
            && LiveGrant(cfg, h, id).Some? && id in After(cfg, h).servers && After(cfg, h).servers[id].offlineAlertedAt.None?
            && (LastBeat(cfg, h, id).None? ||
                now - LastBeat(cfg, h, id).value > cfg.expectedIntervalMinutes * cfg.missedThreshold * 60_000)
  {
    Monitor.SnapshotTransition(rows, After(cfg, h).servers, Monitor.Transition(id, Monitor.WentOffline), now, cfg);
    ColumnsAreKept(cfg, h, id);
    if id in After(cfg, h).servers {
      var row, public := After(cfg, h).servers[id], HistoryPublic(cfg, h, id);
      assert ToPublic(row) == public;
      assert row.status == public.status && row.lastHeartbeatAt == public.lastHeartbeatAt;
    }
  }
}
