/** The statements of the store as SQLite runs them, comparing time columns as text, against the same
    statements over instants that the rest of the project uses. */
module TextColumns {
  import opened Base
  import opened Events
  import opened Store
  import opened Routes
  import opened Runs
  import IsoTime

  /** The first millisecond of year 0 and the last of year 9999. */
  const FIRST: int := -62_167_219_200_000
  const LAST: int := 253_402_300_799_999

  /** An instant of the years 0 to 9999. */
  predicate Printable(t: Instant) { FIRST <= t <= LAST }

  lemma PrintableIffYear(t: Instant)
    requires IsoTime.Representable(t)
    ensures Printable(t) <==> 0 <= IsoTime.Year(t) <= 9999
  {
    var y := IsoTime.Year(t);
    assert IsoTime.DayFromYear(0) == -719_528 && IsoTime.DayFromYear(10_000) == 2_932_897;
    if y < 0 { IsoTime.YearsAscend(y, 0); }
    if y > 0 { IsoTime.YearsAscend(0, y); }
    if y < 9999 { IsoTime.YearsAscend(y, 10_000); }
    if y > 9999 { IsoTime.YearsAscend(9999, y); }
  }

  predicate MaybePrintable(t: Option<Instant>) { t.Some? ==> Printable(t.value) }

  /** What the column holds. */
  function Text(t: Instant): string { if IsoTime.Representable(t) then IsoTime.ToIsoString(t) else "" }

  /** How a time column is compared: `before(a, b)` where `a` sorts first. */
  type Order = (Instant, Instant) -> bool

  /** SQLite's comparison of the stored text. */
  function ByText(): Order { (a: Instant, b: Instant) => IsoTime.TextLess(Text(a), Text(b)) }

  /** The order is that of instants, in the years 0 to 9999. */
  ghost predicate Sound(before: Order) {
    forall a, b :: Printable(a) && Printable(b) ==> (before(a, b) <==> a < b)
  }

  lemma TextIsSound()
    ensures Sound(ByText())
  {
    forall a, b | Printable(a) && Printable(b) ensures ByText()(a, b) <==> a < b {
      PrintableIffYear(a);
      PrintableIffYear(b);
      IsoTime.TextOrderAgreesIff(a, b);
    }
  }

  // ----- the statements, with the comparison left open -----

  /** ORDER BY created_at DESC, id DESC. */
  predicate NewerBy(before: Order, a: EventRow, b: EventRow) {
    before(b.createdAt, a.createdAt) || (!before(a.createdAt, b.createdAt) && a.id > b.id)
  }

  function LatestBy(before: Order, events: seq<EventRow>, s: Id, c: Category): Option<EventRow> {
    if events == [] then None
    else
      var best := LatestBy(before, events[..|events| - 1], s, c);
      var e := events[|events| - 1];
      if Matches(e, s, c) && (best.None? || NewerBy(before, e, best.value)) then Some(e) else best
  }

  function DeleteOlderBy(before: Order, events: seq<EventRow>, cutoff: Instant): seq<EventRow> {
    if events == [] then []
    else
      var kept := DeleteOlderBy(before, events[..|events| - 1], cutoff);
      var e := events[|events| - 1];
      if before(e.createdAt, cutoff) then kept else kept + [e]
  }

  function ReadPendingKeyBy(before: Order, row: ServerRow, now: Instant): Option<string> {
    if row.pendingApiKey.None? || row.pendingExpiresAt.None? then None
    else if !before(now, row.pendingExpiresAt.value) then None
    else row.pendingApiKey
  }

  function SweepKeysBy(before: Order, servers: Servers, now: Instant): Servers {
    map id | id in servers ::
      var row := servers[id];
      if row.pendingApiKey.Some? && row.pendingExpiresAt.Some? && !before(now, row.pendingExpiresAt.value) then
        row.(pendingApiKey := None, pendingExpiresAt := None)
      else row
  }

  function SessionUserBy(before: Order, db: Db, hash: Digest, now: Instant): Option<UserRow> {
    if hash in db.sessions && before(now, db.sessions[hash].expiresAt) && db.sessions[hash].userId in db.users then
      Some(db.users[db.sessions[hash].userId])
    else None
  }

  function DropExpiredBy(before: Order, sessions: Sessions, now: Instant): Sessions {
    map h | h in sessions && before(now, sessions[h].expiresAt) :: sessions[h]
  }

  predicate LaterBy(before: Order, a: ActionRow, b: ActionRow) {
    before(b.createdAt, a.createdAt) || (!before(a.createdAt, b.createdAt) && a.id > b.id)
  }

  function InsertSortedBy(before: Order, rows: seq<ActionRow>, a: ActionRow): seq<ActionRow> {
    if rows == [] || LaterBy(before, a, rows[0]) then [a] + rows else [rows[0]] + InsertSortedBy(before, rows[1..], a)
  }

  function SortNewestBy(before: Order, rows: seq<ActionRow>): seq<ActionRow> {
    if rows == [] then [] else InsertSortedBy(before, SortNewestBy(before, rows[..|rows| - 1]), rows[|rows| - 1])
  }

  // ----- under a sound comparison they are the statements over instants -----

  predicate PrintableEvents(events: seq<EventRow>) { forall e :: e in events ==> Printable(e.createdAt) }

  lemma {:induction false} LatestAgrees(before: Order, events: seq<EventRow>, s: Id, c: Category)
    requires Sound(before) && PrintableEvents(events)
    ensures LatestBy(before, events, s, c) == Latest(events, s, c)
  {
    if events == [] {
    } else {
      var n := |events| - 1;
      LatestAgrees(before, events[..n], s, c);
      LatestIsNewest(events[..n], s, c);
      assert events[n] in events;
    }
  }

  lemma {:induction false} DeleteOlderAgrees(before: Order, events: seq<EventRow>, cutoff: Instant)
    requires Sound(before) && PrintableEvents(events) && Printable(cutoff)
    ensures DeleteOlderBy(before, events, cutoff) == DeleteOlder(events, cutoff)
  {
    if events == [] {
    } else {
      DeleteOlderAgrees(before, events[..|events| - 1], cutoff);
      assert events[|events| - 1] in events;
    }
  }

  lemma {:induction false} InsertedContents(rows: seq<ActionRow>, a: ActionRow)
    ensures forall r :: r in InsertSorted(rows, a) ==> r == a || r in rows
  {
    if rows == [] {
    } else {
      InsertedContents(rows[1..], a);
    }
  }

  lemma {:induction false} InsertSortedAgrees(before: Order, rows: seq<ActionRow>, a: ActionRow)
    requires Sound(before) && Printable(a.createdAt) && forall r :: r in rows ==> Printable(r.createdAt)
    ensures InsertSortedBy(before, rows, a) == InsertSorted(rows, a)
  {
    if rows == [] {
    } else {
      assert rows[0] in rows;
      InsertSortedAgrees(before, rows[1..], a);
    }
  }

  lemma {:induction false} SortNewestAgrees(before: Order, rows: seq<ActionRow>)
    requires Sound(before) && forall r :: r in rows ==> Printable(r.createdAt)
    ensures SortNewestBy(before, rows) == SortNewest(rows)
    ensures forall r :: r in SortNewest(rows) ==> r in rows
  {
    if rows == [] {
    } else {
      var n := |rows| - 1;
      assert rows[n] in rows;
      SortNewestAgrees(before, rows[..n]);
      InsertSortedAgrees(before, SortNewest(rows[..n]), rows[n]);
      InsertedContents(SortNewest(rows[..n]), rows[n]);
    }
  }

  lemma {:induction false} ActionsOfContents(actions: seq<ActionRow>, id: Id)
    ensures forall a :: a in ActionsOf(actions, id) ==> a in actions
  {
    if actions == [] {
    } else {
      ActionsOfContents(actions[..|actions| - 1], id);
      assert actions[|actions| - 1] in actions;
    }
  }

  predicate PrintableExpiries(servers: Servers) { forall id :: id in servers ==> MaybePrintable(servers[id].pendingExpiresAt) }

  /** Every time column a statement compares holds an instant of the years 0 to 9999. */
  ghost predicate PrintableDb(db: Db) {
    && PrintableEvents(db.events)
    && PrintableExpiries(db.servers)
    && (forall h :: h in db.sessions ==> Printable(db.sessions[h].expiresAt))
    && (forall a :: a in db.actions ==> Printable(a.createdAt))
  }

  lemma KeysAgree(before: Order, db: Db, now: Instant, id: Id)
    requires Sound(before) && PrintableDb(db) && Printable(now)
    ensures id in db.servers ==> ReadPendingKeyBy(before, db.servers[id], now) == ReadPendingKey(db.servers[id], now)
    ensures SweepKeysBy(before, db.servers, now) == SweepKeys(db.servers, now)
  {
  }

  lemma SessionsAgree(before: Order, db: Db, now: Instant, hash: Digest)
    requires Sound(before) && PrintableDb(db) && Printable(now)
    ensures SessionUserBy(before, db, hash, now) == SessionUser(db, hash, now)
    ensures DropExpiredBy(before, db.sessions, now) == DropExpired(db.sessions, now)
  {
  }

  lemma ListingAgrees(before: Order, db: Db, id: Id, limit: nat)
    requires Sound(before) && PrintableDb(db)
    ensures Take(SortNewestBy(before, ActionsOf(db.actions, id)), limit) == ListActions(db.actions, id, limit)
  {
    ActionsOfContents(db.actions, id);
    SortNewestAgrees(before, ActionsOf(db.actions, id));
  }

  /** Comparing the stored text is comparing instants, statement by statement: on a store of the years 0
      to 9999 the TTL check and sweep, the session lookup and sweep, retention, the latest-event queries
      and the audit listing give by text what they give by instant. */
  lemma StatementsAgree(db: Db, now: Instant, cutoff: Instant, id: Id, c: Category, hash: Digest, limit: nat)
    requires PrintableDb(db) && Printable(now) && Printable(cutoff)
    ensures id in db.servers ==> ReadPendingKeyBy(ByText(), db.servers[id], now) == ReadPendingKey(db.servers[id], now)
    ensures SweepKeysBy(ByText(), db.servers, now) == SweepKeys(db.servers, now)
    ensures SessionUserBy(ByText(), db, hash, now) == SessionUser(db, hash, now)
    ensures DropExpiredBy(ByText(), db.sessions, now) == DropExpired(db.sessions, now)
    ensures DeleteOlderBy(ByText(), db.events, cutoff) == DeleteOlder(db.events, cutoff)
    ensures LatestBy(ByText(), db.events, id, c) == Latest(db.events, id, c)
    ensures Take(SortNewestBy(ByText(), ActionsOf(db.actions, id)), limit) == ListActions(db.actions, id, limit)
  {
    TextIsSound();
    KeysAgree(ByText(), db, now, id);
    SessionsAgree(ByText(), db, now, hash);
    DeleteOlderAgrees(ByText(), db.events, cutoff);
    LatestAgrees(ByText(), db.events, id, c);
    ListingAgrees(ByText(), db, id, limit);
  }

  // ----- runs of those years -----

  /** A clock reading from which retention looks back, and expiries look ahead, within the years 0 to 9999. */
  predicate InYears(cfg: Config, now: Instant) {
    && FIRST <= Cutoff(now, cfg) && now + PENDING_KEY_TTL_MS <= LAST && now + cfg.sessionTtlHours * 3_600_000 <= LAST
  }

  lemma EventsStayPrintable(cfg: Config, db: Db, step: Step)
    requires PrintableEvents(db.events) && InYears(cfg, step.now)
    ensures PrintableEvents(Apply(cfg, db, step).0.events)
  {
    if step.req.RetentionTimer? { DeleteOlderContents(db.events, Cutoff(step.now, cfg)); }
    else if !step.req.PostEvent? { OnlyPostsWriteEvents(cfg, db, step); }
  }

  lemma ExpiriesStayPrintable(cfg: Config, db: Db, step: Step)
    requires PrintableExpiries(db.servers) && InYears(cfg, step.now)
    ensures PrintableExpiries(Apply(cfg, db, step).0.servers)
  {
    if LeavesCredentials(step.req) { QuietStep(cfg, db, step); }
  }

  lemma SessionsStayPrintable(cfg: Config, db: Db, step: Step)
    requires (forall h :: h in db.sessions ==> Printable(db.sessions[h].expiresAt)) && InYears(cfg, step.now)
    ensures var db' := Apply(cfg, db, step).0; forall h :: h in db'.sessions ==> Printable(db'.sessions[h].expiresAt)
  {
    if !step.req.Login? && !step.req.Logout? && !step.req.SweepSessionsTimer? && !step.req.CreateUser? {
      OnlyAccountsWriteSessions(cfg, db, step);
    }
  }

  lemma ActionsStayPrintable(cfg: Config, db: Db, step: Step)
    requires (forall a :: a in db.actions ==> Printable(a.createdAt)) && InYears(cfg, step.now)
    ensures var db' := Apply(cfg, db, step).0; forall a :: a in db'.actions ==> Printable(a.createdAt)
  {
    if !NeedsAdmin(step.req) { OnlyAdminsWriteActions(cfg, db, step); }
  }

  lemma {:induction false} RunsStayPrintable(cfg: Config, h: History)
    requires forall i :: 0 <= i < |h| ==> InYears(cfg, h[i].now)
    ensures PrintableDb(After(cfg, h))
  {
    if h == [] {
    } else {
      RunsStayPrintable(cfg, Front(h));
      var db := After(cfg, Front(h));
      EventsStayPrintable(cfg, db, Last(h));
      ExpiriesStayPrintable(cfg, db, Last(h));
      SessionsStayPrintable(cfg, db, Last(h));
      ActionsStayPrintable(cfg, db, Last(h));
    }
  }

  /** So over every run of those years, text and instants never disagree. */
  lemma RunsAgree(cfg: Config, h: History, now: Instant, id: Id, c: Category, hash: Digest, limit: nat)
    requires InYears(cfg, now) && forall i :: 0 <= i < |h| ==> InYears(cfg, h[i].now)
    ensures var db := After(cfg, h);
            && (id in db.servers ==> ReadPendingKeyBy(ByText(), db.servers[id], now) == ReadPendingKey(db.servers[id], now))
            && SweepKeysBy(ByText(), db.servers, now) == SweepKeys(db.servers, now)
            && SessionUserBy(ByText(), db, hash, now) == SessionUser(db, hash, now)
            && DropExpiredBy(ByText(), db.sessions, now) == DropExpired(db.sessions, now)
            && DeleteOlderBy(ByText(), db.events, Cutoff(now, cfg)) == DeleteOlder(db.events, Cutoff(now, cfg))
            && LatestBy(ByText(), db.events, id, c) == Latest(db.events, id, c)
            && Take(SortNewestBy(ByText(), ActionsOf(db.actions, id)), limit) == ListActions(db.actions, id, limit)
  {
    RunsStayPrintable(cfg, h);
    StatementsAgree(After(cfg, h), now, Cutoff(now, cfg), id, c, hash, limit);
  }
}
