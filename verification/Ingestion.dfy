/** Events over whole runs: exactly-once ingestion, and the two admin pages agreeing on the latest. */
module Ingestion {
  import opened Base
  import opened Events
  import opened Store
  import opened Routes
  import opened Runs
  import Profiles

  /** The post that the last request, an accepted event, amounts to: what was sent, under the server its key
      resolved to, at the clock's reading. */
  ghost function LastPost(cfg: Config, h: History): Post
    requires h != [] && Last(h).req.PostEvent? && LastAnswer(cfg, h).Accepted?
  {
    var req := Last(h).req;
    Post(AuthenticatedServer(After(cfg, Front(h)), req.apiKey).value.id, req.category, req.severity, req.payload,
         Last(h).now, req.eventId, req.occurredAt)
  }

  /** The event posts that were answered 202. */
  ghost function AcceptedPosts(cfg: Config, h: History): seq<Post> {
    if h == [] then []
    else AcceptedPosts(cfg, Front(h)) + if Last(h).req.PostEvent? && LastAnswer(cfg, h).Accepted? then [LastPost(cfg, h)] else []
  }

  /** No retention run of `h` deleted anything. */
  ghost predicate NothingDeleted(cfg: Config, h: History) {
    h == [] ||
    (NothingDeleted(cfg, Front(h)) &&
     (Last(h).req.RetentionTimer? ==> After(cfg, h).events == After(cfg, Front(h)).events))
  }

  lemma PostInserts(cfg: Config, db: Db, step: Step)
    requires step.req.PostEvent?
    ensures var (db', a) := Apply(cfg, db, step);
            var row := AuthenticatedServer(db, step.req.apiKey);
            (a.Accepted? <==> row.Some?)
            && db'.events == if row.Some? then Insert(db.events, db.lastEventId, ToPost(step.req, row.value.id, step.now)).0 else db.events
  {
  }

  lemma StepIngests(cfg: Config, db: Db, step: Step, posts: seq<Post>)
    requires step.req.PostEvent? && StripAll(db.events) == FirstOnly(posts)
    ensures var (db', a) := Apply(cfg, db, step);
            StripAll(db'.events) == FirstOnly(posts +
              if a.Accepted? then [ToPost(step.req, AuthenticatedServer(db, step.req.apiKey).value.id, step.now)] else [])
  {
    PostInserts(cfg, db, step);
    var row := AuthenticatedServer(db, step.req.apiKey);
    if row.Some? {
      InsertIsFirstOnly(db.events, db.lastEventId, posts, ToPost(step.req, row.value.id, step.now));
    } else {
      assert posts + [] == posts;
    }
  }

  /** Exactly-once ingestion: until retention deletes something, the table holds, up to row ids, the
      first accepted post of every (server, eventId), in order, and every post without an eventId. */
  lemma {:induction false} ExactlyOnce(cfg: Config, h: History)
    requires NothingDeleted(cfg, h)
    ensures StripAll(After(cfg, h).events) == FirstOnly(AcceptedPosts(cfg, h))
  {
    if h == [] {
    } else {
      ExactlyOnce(cfg, Front(h));
      if Last(h).req.PostEvent? {
        StepIngests(cfg, After(cfg, Front(h)), Last(h), AcceptedPosts(cfg, Front(h)));
      } else {
        assert AcceptedPosts(cfg, h) == AcceptedPosts(cfg, Front(h));
        if !Last(h).req.RetentionTimer? { OnlyPostsWriteEvents(cfg, After(cfg, Front(h)), Last(h)); }
      }
    }
  }

  /** The rows ever stored, oldest first. */
  ghost function Inserted(cfg: Config, h: History): seq<EventRow> {
    if h == [] then []
    else
      var was, now := After(cfg, Front(h)).events, After(cfg, h).events;
      Inserted(cfg, Front(h)) + if Last(h).req.PostEvent? && |was| < |now| then [now[|was|]] else []
  }

  function DaysBefore(now: Instant, days: nat): Instant { now - days * 86_400_000 }

  /** The cutoff of the latest retention run. */
  function LastCutoff(cfg: Config, h: History): Option<Instant> {
    if h == [] then None
    else if Last(h).req.RetentionTimer? then Some(DaysBefore(Last(h).now, cfg.retentionDays))
    else LastCutoff(cfg, Front(h))
  }

  function NotOlder(events: seq<EventRow>, cutoff: Option<Instant>): seq<EventRow> {
    match cutoff case None => events case Some(c) => DeleteOlder(events, c)
  }

  lemma RetentionCutoff(cfg: Config, now: Instant)
    ensures Cutoff(now, cfg) == DaysBefore(now, cfg.retentionDays) <= now
  {
  }

  lemma {:induction false} CutoffsTrailTheClock(cfg: Config, h: History, now: Instant)
    requires IsRun(h) && NotBefore(h, now)
    ensures LastCutoff(cfg, h).Some? ==> LastCutoff(cfg, h).value <= Cutoff(now, cfg) <= now
  {
    if h == [] {
    } else {
      RetentionCutoff(cfg, now);
      RetentionCutoff(cfg, Last(h).now);
      CutoffsTrailTheClock(cfg, Front(h), Last(h).now);
    }
  }

  lemma KeepsRecent(events: seq<EventRow>, row: EventRow, cutoff: Option<Instant>)
    requires cutoff.Some? ==> cutoff.value <= row.createdAt
    ensures NotOlder(events + [row], cutoff) == NotOlder(events, cutoff) + [row]
  {
    assert (events + [row])[..|events|] == events;
  }

  lemma RetentionCollapses(cfg: Config, db: Db, step: Step, inserted: seq<EventRow>, cutoff: Option<Instant>)
    requires step.req.RetentionTimer? && db.events == NotOlder(inserted, cutoff)
    requires cutoff.Some? ==> cutoff.value <= Cutoff(step.now, cfg)
    ensures Apply(cfg, db, step).0.events == NotOlder(inserted, Some(DaysBefore(step.now, cfg.retentionDays)))
  {
    RetentionCutoff(cfg, step.now);
    if cutoff.Some? { CutoffsCollapse(inserted, cutoff.value, Cutoff(step.now, cfg)); }
  }

  lemma InsertedRow(cfg: Config, db: Db, step: Step)
    requires step.req.PostEvent?
    ensures var events := Apply(cfg, db, step).0.events;
            events == db.events ||
            (|db.events| < |events| && events == db.events + [events[|db.events|]] && events[|db.events|].createdAt == step.now)
  {
    PostInserts(cfg, db, step);
  }

  lemma PostIsKept(cfg: Config, db: Db, step: Step, inserted: seq<EventRow>, cutoff: Option<Instant>)
    requires step.req.PostEvent? && db.events == NotOlder(inserted, cutoff)
    requires cutoff.Some? ==> cutoff.value <= step.now
    ensures var events := Apply(cfg, db, step).0.events;
            events == NotOlder(inserted + if |db.events| < |events| then [events[|db.events|]] else [], cutoff)
  {
    var events := Apply(cfg, db, step).0.events;
    InsertedRow(cfg, db, step);
    if events != db.events {
      KeepsRecent(inserted, events[|db.events|], cutoff);
    } else {
      assert inserted + [] == inserted;
    }
  }

  lemma InsertedByPost(cfg: Config, h: History)
    requires h != [] && Last(h).req.PostEvent?
    ensures var was, events := After(cfg, Front(h)).events, Apply(cfg, After(cfg, Front(h)), Last(h)).0.events;
            Inserted(cfg, h) == Inserted(cfg, Front(h)) + if |was| < |events| then [events[|was|]] else []
    ensures LastCutoff(cfg, h) == LastCutoff(cfg, Front(h))
  {
  }

  lemma PostKeepsCutoff(cfg: Config, h: History)
    requires h != [] && Last(h).req.PostEvent?
    requires After(cfg, Front(h)).events == NotOlder(Inserted(cfg, Front(h)), LastCutoff(cfg, Front(h)))
    requires LastCutoff(cfg, Front(h)).Some? ==> LastCutoff(cfg, Front(h)).value <= Last(h).now
    ensures After(cfg, h).events == NotOlder(Inserted(cfg, h), LastCutoff(cfg, h))
  {
    InsertedByPost(cfg, h);
    PostIsKept(cfg, After(cfg, Front(h)), Last(h), Inserted(cfg, Front(h)), LastCutoff(cfg, Front(h)));
  }

  lemma RetentionMovesCutoff(cfg: Config, h: History)
    requires h != [] && Last(h).req.RetentionTimer?
    requires After(cfg, Front(h)).events == NotOlder(Inserted(cfg, Front(h)), LastCutoff(cfg, Front(h)))
    requires LastCutoff(cfg, Front(h)).Some? ==> LastCutoff(cfg, Front(h)).value <= Cutoff(Last(h).now, cfg)
    ensures After(cfg, h).events == NotOlder(Inserted(cfg, h), LastCutoff(cfg, h))
  {
    assert Inserted(cfg, h) == Inserted(cfg, Front(h));
    RetentionCollapses(cfg, After(cfg, Front(h)), Last(h), Inserted(cfg, Front(h)), LastCutoff(cfg, Front(h)));
  }

  /** Retention over a whole run: what is stored is every row ever inserted, in order, that the latest
      retention run's cutoff does not exclude; earlier runs and everything else leave no trace. */
  lemma {:induction false} RetentionIsLastCutoff(cfg: Config, h: History)
    requires IsRun(h)
    ensures After(cfg, h).events == NotOlder(Inserted(cfg, h), LastCutoff(cfg, h))
  {
    if h == [] {
    } else {
      RetentionIsLastCutoff(cfg, Front(h));
      CutoffsTrailTheClock(cfg, Front(h), Last(h).now);
      if Last(h).req.PostEvent? {
        PostKeepsCutoff(cfg, h);
      } else if Last(h).req.RetentionTimer? {
        RetentionMovesCutoff(cfg, h);
      } else {
        assert Inserted(cfg, h) == Inserted(cfg, Front(h));
        OnlyPostsWriteEvents(cfg, After(cfg, Front(h)), Last(h));
      }
    }
  }

  /** A stored copy that retention has spared. */
  predicate Spared(row: EventRow, p: Post, cutoff: Option<Instant>) {
    && p.eventId.Some? && row.eventId == p.eventId && row.serverId == p.serverId
    && (cutoff.Some? ==> row.createdAt >= cutoff.value)
  }

  lemma SparedIsStored(inserted: seq<EventRow>, cutoff: Option<Instant>, p: Post)
    ensures Conflicts(NotOlder(inserted, cutoff), p) <==> exists row :: row in inserted && Spared(row, p, cutoff)
  {
    var kept := NotOlder(inserted, cutoff);
    if cutoff.Some? { DeleteOlderContents(inserted, cutoff.value); }
    if Conflicts(kept, p) {
      var i :| 0 <= i < |kept| && SameKey(Strip(kept[i]), p);
      assert kept[i] in kept && kept[i] in inserted && Spared(kept[i], p, cutoff);
    }
    if row :| row in inserted && Spared(row, p, cutoff) {
      assert row in kept;
    }
  }

  /** Over every run, an accepted event leaves the table as it was exactly when a row with its
      (server, eventId) was inserted before, whatever came in between, and the latest retention run's
      cutoff has not passed that row; otherwise the event is stored, a second time if it is a retry. */
  lemma RetryAbsorbedIff(cfg: Config, h: History)
    requires IsRun(h) && h != [] && Last(h).req.PostEvent? && LastAnswer(cfg, h).Accepted?
    ensures After(cfg, h).events == After(cfg, Front(h)).events <==>
            exists row :: row in Inserted(cfg, Front(h)) && Spared(row, LastPost(cfg, h), LastCutoff(cfg, Front(h)))
  {
    RetentionIsLastCutoff(cfg, Front(h));
    PostInserts(cfg, After(cfg, Front(h)), Last(h));
    SparedIsStored(Inserted(cfg, Front(h)), LastCutoff(cfg, Front(h)), LastPost(cfg, h));
  }

  // ----- the table as a function of the answered requests -----

  /** `apiKey` is the key that is live for `id`. */
  ghost predicate Holds(cfg: Config, h: History, id: Id, apiKey: Option<string>) {
    LiveGrant(cfg, h, id).Some? && apiKey == Some(LiveGrant(cfg, h, id).value.key)
  }

  /** Whose live key `apiKey` is. */
  ghost function Sender(cfg: Config, h: History, apiKey: Option<string>): Option<Id> {
    if exists id :: Holds(cfg, h, id, apiKey) then
      var id :| Holds(cfg, h, id, apiKey);
      Some(id)
    else None
  }

  lemma SenderIsServer(cfg: Config, h: History, apiKey: Option<string>)
    requires IsRun(h)
    ensures var row := AuthenticatedServer(After(cfg, h), apiKey);
            Sender(cfg, h, apiKey) == if row.Some? then Some(row.value.id) else None
  {
    var row := AuthenticatedServer(After(cfg, h), apiKey);
    forall id ensures Holds(cfg, h, id, apiKey) <==> row.Some? && row.value.id == id {
      Profiles.KeyResolves(cfg, h, id, apiKey);
    }
    OnlySender(cfg, h, apiKey, if row.Some? then Some(row.value.id) else None);
  }

  lemma OnlySender(cfg: Config, h: History, apiKey: Option<string>, holder: Option<Id>)
    requires forall id :: Holds(cfg, h, id, apiKey) <==> holder == Some(id)
    ensures Sender(cfg, h, apiKey) == holder
  {
    if holder.Some? { assert Holds(cfg, h, holder.value, apiKey); }
  }

  /** An earlier post of the same server and eventId that retention has spared. */
  predicate Absorbed(posts: seq<Post>, p: Post, cutoff: Option<Instant>) {
    p.eventId.Some? &&
    exists i :: 0 <= i < |posts| && posts[i].serverId == p.serverId && posts[i].eventId == p.eventId
                && (cutoff.Some? ==> posts[i].createdAt >= cutoff.value)
  }

  /** The posts that history stores: sent with a live key and not absorbed by an earlier one. */
  ghost function StoredPosts(cfg: Config, h: History): seq<Post> {
    if h == [] then []
    else
      var before, req := StoredPosts(cfg, Front(h)), Last(h).req;
      if req.PostEvent? && Sender(cfg, Front(h), req.apiKey).Some? then
        var p := Post(Sender(cfg, Front(h), req.apiKey).value, req.category, req.severity, req.payload, Last(h).now,
                      req.eventId, req.occurredAt);
        if Absorbed(before, p, LastCutoff(cfg, Front(h))) then before else before + [p]
      else before
  }

  /** Those that no retention run has excluded. */
  function VisiblePosts(posts: seq<Post>, cutoff: Option<Instant>): seq<Post> {
    if posts == [] then []
    else
      VisiblePosts(posts[..|posts| - 1], cutoff) +
      if cutoff.Some? && posts[|posts| - 1].createdAt < cutoff.value then [] else [posts[|posts| - 1]]
  }

  lemma {:induction false} StrippedAt(events: seq<EventRow>, i: nat)
    requires i < |events|
    ensures StripAll(events)[i] == Strip(events[i])
  {
    if i == |events| - 1 {
    } else {
      StrippedAt(events[..|events| - 1], i);
    }
  }

  lemma StrippedOneMore(events: seq<EventRow>, row: EventRow)
    ensures StripAll(events + [row]) == StripAll(events) + [Strip(row)]
  {
    assert (events + [row])[..|events|] == events;
  }

  lemma AbsorbedIffSpared(inserted: seq<EventRow>, p: Post, cutoff: Option<Instant>)
    ensures Absorbed(StripAll(inserted), p, cutoff) <==> exists row :: row in inserted && Spared(row, p, cutoff)
  {
    forall i | 0 <= i < |inserted| ensures StripAll(inserted)[i] == Strip(inserted[i]) { StrippedAt(inserted, i); }
    if Absorbed(StripAll(inserted), p, cutoff) {
      var i :| 0 <= i < |inserted| && StripAll(inserted)[i].serverId == p.serverId && StripAll(inserted)[i].eventId == p.eventId
               && (cutoff.Some? ==> StripAll(inserted)[i].createdAt >= cutoff.value);
      assert inserted[i] in inserted && Spared(inserted[i], p, cutoff);
    }
    if row :| row in inserted && Spared(row, p, cutoff) {
      var i :| 0 <= i < |inserted| && inserted[i] == row;
      assert StripAll(inserted)[i] == Strip(row);
    }
  }

  lemma {:induction false} InsertedIsHistory(cfg: Config, h: History)
    requires IsRun(h)
    ensures StripAll(Inserted(cfg, h)) == StoredPosts(cfg, h)
  {
    if h == [] {
    } else {
      InsertedIsHistory(cfg, Front(h));
      if Last(h).req.PostEvent? {
        PostIsHistory(cfg, h);
      } else {
        assert Inserted(cfg, h) == Inserted(cfg, Front(h));
      }
    }
  }

  lemma PostIsHistory(cfg: Config, h: History)
    requires h != [] && IsRun(h) && Last(h).req.PostEvent? && StripAll(Inserted(cfg, Front(h))) == StoredPosts(cfg, Front(h))
    ensures StripAll(Inserted(cfg, h)) == StoredPosts(cfg, h)
  {
    var before := Inserted(cfg, Front(h));
    SenderIsServer(cfg, Front(h), Last(h).req.apiKey);
    PostInserts(cfg, After(cfg, Front(h)), Last(h));
    if LastAnswer(cfg, h).Accepted? {
      RetryAbsorbedIff(cfg, h);
      AbsorbedIffSpared(before, LastPost(cfg, h), LastCutoff(cfg, Front(h)));
      InsertedRow(cfg, After(cfg, Front(h)), Last(h));
      var was, now := After(cfg, Front(h)).events, After(cfg, h).events;
      if now != was { StrippedOneMore(before, now[|was|]); }
    }
    assert before + [] == before;
  }

  lemma RowOneMore(events: seq<EventRow>, row: EventRow, cutoff: Option<Instant>)
    ensures NotOlder(events + [row], cutoff) ==
            NotOlder(events, cutoff) + if cutoff.Some? && row.createdAt < cutoff.value then [] else [row]
  {
    assert (events + [row])[..|events|] == events;
    if cutoff.Some? { assert DeleteOlder(events, cutoff.value) + [] == DeleteOlder(events, cutoff.value); }
  }

  lemma PostOneMore(posts: seq<Post>, p: Post, cutoff: Option<Instant>)
    ensures VisiblePosts(posts + [p], cutoff) ==
            VisiblePosts(posts, cutoff) + if cutoff.Some? && p.createdAt < cutoff.value then [] else [p]
  {
    assert (posts + [p])[..|posts|] == posts;
  }

  lemma {:induction false} VisibleRows(events: seq<EventRow>, cutoff: Option<Instant>)
    ensures StripAll(NotOlder(events, cutoff)) == VisiblePosts(StripAll(events), cutoff)
  {
    if events == [] {
    } else {
      var n := |events| - 1;
      var rest, row := events[..n], events[n];
      VisibleRows(rest, cutoff);
      assert events == rest + [row];
      RowOneMore(rest, row, cutoff);
      StrippedOneMore(rest, row);
      PostOneMore(StripAll(rest), Strip(row), cutoff);
      StrippedOneMore(NotOlder(rest, cutoff), row);
      assert NotOlder(rest, cutoff) + [] == NotOlder(rest, cutoff);
    }
  }

  /** The events table after any run, up to row ids, from the answered requests alone: every event sent with
      a live key, as it was sent, that no spared earlier one of its server carries the id of, and that the
      latest retention run does not exclude. */
  lemma TableIsHistory(cfg: Config, h: History)
    requires IsRun(h)
    ensures StripAll(After(cfg, h).events) == VisiblePosts(StoredPosts(cfg, h), LastCutoff(cfg, h))
  {
    RetentionIsLastCutoff(cfg, h);
    InsertedIsHistory(cfg, h);
    VisibleRows(Inserted(cfg, h), LastCutoff(cfg, h));
  }

  // ----- a retry stored twice -----

  /** Server "s" is approved and its agent holds "key". */
  ghost predicate Ready(cfg: Config, h: History, now: Instant) {
    && IsRun(h) && NotBefore(h, now)
    && "s" in After(cfg, h).servers && Authenticates(After(cfg, h).servers["s"], HashSecret("key"))
  }

  lemma AppendOther(cfg: Config, h: History, step: Step)
    requires !step.req.PostEvent?
    ensures Inserted(cfg, h + [step]) == Inserted(cfg, h) && AcceptedPosts(cfg, h + [step]) == AcceptedPosts(cfg, h)
  {
    Append(cfg, h, step);
  }

  lemma OneApprovedAgent(cfg: Config) returns (h: History)
    requires cfg.sessionTtlHours > 0
    ensures Ready(cfg, h, 0) && After(cfg, h).events == [] && Inserted(cfg, h) == [] && AcceptedPosts(cfg, h) == []
  {
    var user := Step(0, CreateUser("u", "admin", Admin));
    var login := Step(0, Login("admin", true, "session"));
    var approve := Step(0, PostApprove(Some("session"), "s", "key"));
    h := [Step(0, PostEnroll("s", "i", Lims, "h", "claim"))];
    Append(cfg, [], h[0]);
    AppendOther(cfg, [], h[0]);
    assert [] + h == h;
    Append(cfg, h, user);
    AppendOther(cfg, h, user);
    h := h + [user];
    Append(cfg, h, login);
    AppendOther(cfg, h, login);
    h := h + [login];
    assert SignedIn(After(cfg, h), Some("session"), 0) == Some(UserRow("u", "admin", Admin));
    Append(cfg, h, approve);
    AppendOther(cfg, h, approve);
    h := h + [approve];
  }

  function Backup1(now: Instant): Step {
    Step(now, PostEvent(Some("key"), Backup, Success, "{}", Some("e1"), None))
  }

  function Stored1(now: Instant): Post { Post("s", Backup, Success, "{}", now, Some("e1"), None) }

  lemma PostToEmpty(cfg: Config, db: Db, issued: set<string>, step: Step)
    requires ServersInv(db.servers, issued) && "s" in db.servers && Authenticates(db.servers["s"], HashSecret("key"))
    requires db.events == [] && step == Backup1(step.now)
    ensures var (db', a) := Apply(cfg, db, step);
            && a.Accepted? && AuthenticatedServer(db, Some("key")).Some? && AuthenticatedServer(db, Some("key")).value.id == "s"
            && db'.events == [WithId(Stored1(step.now), db.lastEventId + 1)]
            && "s" in db'.servers && Authenticates(db'.servers["s"], HashSecret("key"))
  {
    OneServerPerKey(db.servers, issued, HashSecret("key"), "s");
    PostInserts(cfg, db, step);
    AgentFrame(db, step.now, step.req);
  }

  lemma AgentPosts(cfg: Config, h: History, now: Instant) returns (more: History)
    requires Ready(cfg, h, now) && After(cfg, h).events == []
    ensures Ready(cfg, more, now) && AcceptedPosts(cfg, more) == AcceptedPosts(cfg, h) + [Stored1(now)]
    ensures |After(cfg, more).events| == 1 && After(cfg, more).events[0].createdAt == now
    ensures |Inserted(cfg, more)| == |Inserted(cfg, h)| + 1
  {
    var step := Backup1(now);
    more := h + [step];
    Append(cfg, h, step);
    RunKeepsInv(cfg, h);
    PostToEmpty(cfg, After(cfg, h), Issued(h), step);
  }

  lemma SweepOfOne(cfg: Config, db: Db, step: Step)
    requires step.req.RetentionTimer? && |db.events| == 1 && db.events[0].createdAt < Cutoff(step.now, cfg)
    ensures Apply(cfg, db, step).0.events == [] && Apply(cfg, db, step).0.servers == db.servers
  {
    assert DeleteOlder([], Cutoff(step.now, cfg)) == [] && db.events[..0] == [];
  }

  lemma RetentionPasses(cfg: Config, h: History, now: Instant) returns (more: History)
    requires Ready(cfg, h, now) && |After(cfg, h).events| == 1 && After(cfg, h).events[0].createdAt < Cutoff(now, cfg)
    ensures Ready(cfg, more, now) && AcceptedPosts(cfg, more) == AcceptedPosts(cfg, h)
    ensures After(cfg, more).events == [] && Inserted(cfg, more) == Inserted(cfg, h)
  {
    var step := Step(now, RetentionTimer);
    more := h + [step];
    Append(cfg, h, step);
    AppendOther(cfg, h, step);
    SweepOfOne(cfg, After(cfg, h), step);
  }

  lemma ReadyLater(cfg: Config, h: History, now: Instant, later: Instant)
    requires Ready(cfg, h, now) && now <= later
    ensures Ready(cfg, h, later)
  {
  }

  lemma PostedOnce(cfg: Config, later: Instant) returns (h: History)
    requires cfg.sessionTtlHours > 0 && 0 <= later
    ensures Ready(cfg, h, later) && |After(cfg, h).events| == 1 && After(cfg, h).events[0].createdAt == 0
    ensures |Inserted(cfg, h)| == 1 && AcceptedPosts(cfg, h) == [Stored1(0)]
  {
    var start := OneApprovedAgent(cfg);
    h := AgentPosts(cfg, start, 0);
    ReadyLater(cfg, h, 0, later);
  }

  /** A run that stores one event twice: posted, deleted by retention once it is old enough, posted again. */
  lemma RetryStoredTwice(cfg: Config)
    requires cfg.sessionTtlHours > 0
    ensures exists h :: IsRun(h) && |AcceptedPosts(cfg, h)| == 2 && |Inserted(cfg, h)| == 2
                        && AcceptedPosts(cfg, h)[0].(createdAt := 0) == AcceptedPosts(cfg, h)[1].(createdAt := 0)
                        && AcceptedPosts(cfg, h)[0].eventId.Some?
  {
    var later := cfg.retentionDays * ONE_DAY_MS + 1;
    var posted := PostedOnce(cfg, later);
    var swept := RetentionPasses(cfg, posted, later);
    var again := AgentPosts(cfg, swept, later);
  }

  lemma StoredOnce(events: seq<EventRow>, lastId: nat, a: EventRow, b: EventRow)
    requires EventsInv(events, lastId) && a in events && b in events && SameKey(Strip(a), Strip(b))
    ensures a == b
  {
    var i :| 0 <= i < |events| && events[i] == a;
    var j :| 0 <= j < |events| && events[j] == b;
    assert SameKey(Strip(b), Strip(a));
  }

  /** With or without deletions, no two stored events share a (server, eventId). */
  lemma AtMostOnce(cfg: Config, h: History, a: EventRow, b: EventRow)
    requires IsRun(h) && a in After(cfg, h).events && b in After(cfg, h).events
    requires a.serverId == b.serverId && a.eventId == b.eventId && a.eventId.Some?
    ensures a == b
  {
    RunKeepsInv(cfg, h);
    StoredOnce(After(cfg, h).events, After(cfg, h).lastEventId, a, b);
  }

  /** After any run, the overview row of a server and its detail page show the same latest statuses:
      per category the newest stored event. */
  lemma PagesAgree(cfg: Config, h: History, id: Id, now: Instant)
    requires IsRun(h) && id in After(cfg, h).servers
    ensures var db := After(cfg, h);
            DetailView(db, now, id, cfg).Details? && DetailView(db, now, id, cfg).server == FleetView(db, now, cfg)[id]
    ensures FleetView(After(cfg, h), now, cfg)[id].latestByCategory == LatestView(After(cfg, h).events, id)
  {
    RunKeepsInv(cfg, h);
    var db := After(cfg, h);
    FleetViewIsServerView(db.events, db.lastEventId, LatestForAll(db.events, |db.events|), LatestFor(db.events, id, |db.events|), id);
  }
}
