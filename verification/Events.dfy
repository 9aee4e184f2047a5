/** The events table: idempotent insertion, latest event per category, retention. */
module Events {
  import opened Base

  datatype EventRow = EventRow(
    id: nat, serverId: Id, category: Category, severity: Severity, payload: string,
    createdAt: Instant, eventId: Option<string>, occurredAt: Option<string>)

  /** An event as posted, before the table gives it a row id. */
  datatype Post = Post(
    serverId: Id, category: Category, severity: Severity, payload: string,
    createdAt: Instant, eventId: Option<string>, occurredAt: Option<string>)

  function WithId(p: Post, id: nat): EventRow {
    EventRow(id, p.serverId, p.category, p.severity, p.payload, p.createdAt, p.eventId, p.occurredAt)
  }

  function Strip(e: EventRow): Post {
    Post(e.serverId, e.category, e.severity, e.payload, e.createdAt, e.eventId, e.occurredAt)
  }

  function StripAll(events: seq<EventRow>): (ps: seq<Post>)
    ensures |ps| == |events|
  {
    if events == [] then [] else StripAll(events[..|events| - 1]) + [Strip(events[|events| - 1])]
  }

  // ----- insertion under the partial unique index (server_id, event_id) -----

  predicate SameKey(p: Post, q: Post) {
    p.eventId.Some? && p.serverId == q.serverId && p.eventId == q.eventId
  }

  predicate Conflicts(events: seq<EventRow>, p: Post) {
    exists i :: 0 <= i < |events| && SameKey(Strip(events[i]), p)
  }

  /** INSERT ... ON CONFLICT DO NOTHING; `lastId` is the table's AUTOINCREMENT counter. */
  function Insert(events: seq<EventRow>, lastId: nat, p: Post): (seq<EventRow>, nat) {
    if Conflicts(events, p) then (events, lastId) else (events + [WithId(p, lastId + 1)], lastId + 1)
  }

  ghost predicate EventsInv(events: seq<EventRow>, lastId: nat) {
    && (forall i :: 0 <= i < |events| ==> events[i].id <= lastId)
    && (forall i, j :: 0 <= i < j < |events| ==> events[i].id < events[j].id)
    && (forall i, j :: 0 <= i < j < |events| ==> !SameKey(Strip(events[i]), Strip(events[j])))
  }

  lemma InsertKeepsInv(events: seq<EventRow>, lastId: nat, p: Post)
    requires EventsInv(events, lastId)
    ensures var (events', lastId') := Insert(events, lastId, p); EventsInv(events', lastId')
  {
    if !Conflicts(events, p) {
      var events' := events + [WithId(p, lastId + 1)];
      forall i | 0 <= i < |events| ensures !SameKey(Strip(events'[i]), Strip(events'[|events|])) {
        assert events'[i] == events[i] && Strip(WithId(p, lastId + 1)) == p;
      }
    }
  }

  // ----- deletion -----

  function DeleteOlder(events: seq<EventRow>, cutoff: Instant): seq<EventRow> {
    if events == [] then []
    else
      var kept := DeleteOlder(events[..|events| - 1], cutoff);
      var e := events[|events| - 1];
      if e.createdAt < cutoff then kept else kept + [e]
  }

  lemma {:induction false} DeleteOlderContents(events: seq<EventRow>, cutoff: Instant)
    ensures forall e :: e in DeleteOlder(events, cutoff) <==> e in events && e.createdAt >= cutoff
    ensures |DeleteOlder(events, cutoff)| <= |events|
  {
    if events == [] {
    } else {
      var n := |events| - 1;
      DeleteOlderContents(events[..n], cutoff);
      assert events == events[..n] + [events[n]];
    }
  }

  lemma AppendKept(events: seq<EventRow>, lastId: nat, kept: seq<EventRow>)
    requires EventsInv(events, lastId) && EventsInv(kept, lastId) && events != []
    requires forall e :: e in kept ==> e in events[..|events| - 1]
    ensures EventsInv(kept + [events[|events| - 1]], lastId)
  {
    var n := |events| - 1;
    forall i | 0 <= i < |kept| ensures kept[i].id < events[n].id && !SameKey(Strip(kept[i]), Strip(events[n])) {
      assert kept[i] in kept;
      var j :| 0 <= j < n && events[j] == kept[i];
    }
  }

  lemma {:induction false} DeleteOlderKeepsInv(events: seq<EventRow>, lastId: nat, cutoff: Instant)
    requires EventsInv(events, lastId)
    ensures EventsInv(DeleteOlder(events, cutoff), lastId)
  {
    if events == [] {
    } else {
      var n := |events| - 1;
      var rest := events[..n];
      DeleteOlderKeepsInv(rest, lastId, cutoff);
      DeleteOlderContents(rest, cutoff);
      AppendKept(events, lastId, DeleteOlder(rest, cutoff));
    }
  }

  /** Successive retention runs act like one run with the later cutoff. */
  lemma {:induction false} CutoffsCollapse(events: seq<EventRow>, c: Instant, d: Instant)
    ensures DeleteOlder(DeleteOlder(events, c), d) == DeleteOlder(events, if c < d then d else c)
  {
    if events == [] {
    } else {
      var n := |events| - 1;
      CutoffsCollapse(events[..n], c, d);
      var kept := DeleteOlder(events[..n], c);
      assert (kept + [events[n]])[..|kept|] == kept;
    }
  }

  // ----- recent events of one server -----

  /** The rows of one server. */
  function EventsOf(events: seq<EventRow>, s: Id): seq<EventRow> {
    if events == [] then []
    else
      EventsOf(events[..|events| - 1], s) +
      if events[|events| - 1].serverId == s then [events[|events| - 1]] else []
  }

  /** ORDER BY created_at DESC LIMIT: as many of the server's rows as the limit allows, newest first, and
      none left out that is newer than one taken. Rows of one instant may come in any order. */
  ghost predicate AreRecent(rows: seq<EventRow>, events: seq<EventRow>, s: Id, limit: nat) {
    exists all :: multiset(all) == multiset(EventsOf(events, s)) && Descending(all) && rows == if limit < |all| then all[..limit] else all
  }

  predicate Descending(rows: seq<EventRow>) {
    forall i, j :: 0 <= i < j < |rows| ==> rows[i].createdAt >= rows[j].createdAt
  }

  function InsertRecent(rows: seq<EventRow>, e: EventRow): seq<EventRow> {
    if rows == [] || e.createdAt >= rows[0].createdAt then [e] + rows else [rows[0]] + InsertRecent(rows[1..], e)
  }

  lemma {:induction false} InsertRecentContents(rows: seq<EventRow>, e: EventRow)
    ensures multiset(InsertRecent(rows, e)) == multiset(rows) + multiset{e}
  {
    if rows == [] || e.createdAt >= rows[0].createdAt {
    } else {
      InsertRecentContents(rows[1..], e);
      assert rows == [rows[0]] + rows[1..];
    }
  }

  lemma {:induction false} InsertRecentOrder(rows: seq<EventRow>, e: EventRow)
    requires Descending(rows)
    ensures Descending(InsertRecent(rows, e))
  {
    if rows == [] || e.createdAt >= rows[0].createdAt {
    } else {
      var rest := InsertRecent(rows[1..], e);
      InsertRecentOrder(rows[1..], e);
      InsertRecentContents(rows[1..], e);
      forall j | 0 <= j < |rest| ensures rows[0].createdAt >= rest[j].createdAt {
        assert rest[j] in multiset(rest);
        if rest[j] != e { assert rest[j] in rows[1..]; }
      }
    }
  }

  function SortRecent(rows: seq<EventRow>): seq<EventRow> {
    if rows == [] then [] else InsertRecent(SortRecent(rows[..|rows| - 1]), rows[|rows| - 1])
  }

  lemma {:induction false} SortRecentFacts(rows: seq<EventRow>)
    ensures Descending(SortRecent(rows)) && multiset(SortRecent(rows)) == multiset(rows)
  {
    if rows == [] {
    } else {
      var n := |rows| - 1;
      SortRecentFacts(rows[..n]);
      InsertRecentOrder(SortRecent(rows[..n]), rows[n]);
      InsertRecentContents(SortRecent(rows[..n]), rows[n]);
      assert rows == rows[..n] + [rows[n]];
    }
  }

  lemma SortedIsRecent(events: seq<EventRow>, s: Id, limit: nat)
    ensures var all := SortRecent(EventsOf(events, s)); AreRecent(if limit < |all| then all[..limit] else all, events, s, limit)
  {
    SortRecentFacts(EventsOf(events, s));
  }

  // ----- latest event per category -----

  /** ORDER BY created_at DESC, id DESC puts `a` before `b`. */
  predicate Newer(a: EventRow, b: EventRow) {
    a.createdAt > b.createdAt || (a.createdAt == b.createdAt && a.id > b.id)
  }

  predicate Matches(e: EventRow, s: Id, c: Category) { e.serverId == s && e.category == c }

  /** The row of the correlated subquery: newest of one server and category. */
  function Latest(events: seq<EventRow>, s: Id, c: Category): Option<EventRow> {
    if events == [] then None
    else
      var best := Latest(events[..|events| - 1], s, c);
      var e := events[|events| - 1];
      if Matches(e, s, c) && (best.None? || Newer(e, best.value)) then Some(e) else best
  }

  /** `Latest` is the maximum by (created_at, id) of its category, and None exactly when there is none. */
  lemma {:induction false} LatestIsNewest(events: seq<EventRow>, s: Id, c: Category)
    ensures Latest(events, s, c).None? <==> forall e :: e in events ==> !Matches(e, s, c)
    ensures Latest(events, s, c).Some? ==>
              var l := Latest(events, s, c).value;
              l in events && Matches(l, s, c) && forall e :: e in events && Matches(e, s, c) ==> !Newer(e, l)
  {
    if events == [] {
    } else {
      var n := |events| - 1;
      LatestIsNewest(events[..n], s, c);
      assert events == events[..n] + [events[n]];
      assert events[n] in events;
    }
  }

  lemma UniqueIds(events: seq<EventRow>, lastId: nat, a: EventRow, b: EventRow)
    requires EventsInv(events, lastId) && a in events && b in events && a.id == b.id
    ensures a == b
  {
  }

  lemma NewestIsLatest(events: seq<EventRow>, lastId: nat, s: Id, c: Category, l: EventRow)
    requires EventsInv(events, lastId)
    requires l in events && Matches(l, s, c) && forall e :: e in events && Matches(e, s, c) ==> !Newer(e, l)
    ensures Latest(events, s, c) == Some(l)
  {
    LatestIsNewest(events, s, c);
    var r := Latest(events, s, c).value;
    assert !Newer(r, l) && !Newer(l, r);
    UniqueIds(events, lastId, r, l);
  }

  /** Retention never uncovers an older event: the latest entry stays as it was or is gone,
      and it stays exactly when it is itself recent enough. */
  lemma RetentionKeepsLatest(events: seq<EventRow>, lastId: nat, cutoff: Instant, s: Id, c: Category)
    requires EventsInv(events, lastId)
    ensures Latest(DeleteOlder(events, cutoff), s, c) ==
            match Latest(events, s, c)
            case None => None
            case Some(l) => if l.createdAt >= cutoff then Some(l) else None
  {
    var kept := DeleteOlder(events, cutoff);
    DeleteOlderContents(events, cutoff);
    DeleteOlderKeepsInv(events, lastId, cutoff);
    LatestIsNewest(events, s, c);
    LatestIsNewest(kept, s, c);
    match Latest(events, s, c)
    case None =>
    case Some(l) =>
      if l.createdAt >= cutoff {
        NewestIsLatest(kept, lastId, s, c, l);
      }
  }

  // ----- the two latest-event queries and the folds over their rows -----

  predicate IsLatest(events: seq<EventRow>, e: EventRow) {
    var l := Latest(events, e.serverId, e.category);
    l.Some? && l.value.id == e.id
  }

  /** listLatestEventPerCategoryForAllServers, scanning the first `n` rows. */
  function LatestForAll(events: seq<EventRow>, n: nat): seq<EventRow>
    requires n <= |events|
  {
    if n == 0 then []
    else LatestForAll(events, n - 1) + if IsLatest(events, events[n - 1]) then [events[n - 1]] else []
  }

  /** listLatestEventPerCategory, scanning the first `n` rows. */
  function LatestFor(events: seq<EventRow>, s: Id, n: nat): seq<EventRow>
    requires n <= |events|
  {
    if n == 0 then []
    else
      LatestFor(events, s, n - 1) +
      if events[n - 1].serverId == s && IsLatest(events, events[n - 1]) then [events[n - 1]] else []
  }

  datatype CategoryStatus = CategoryStatus(severity: Severity, createdAt: Instant, payload: string)

  type ByCategory = map<Category, CategoryStatus>

  function StatusOf(e: EventRow): CategoryStatus { CategoryStatus(e.severity, e.createdAt, e.payload) }

  /** groupLatestEventsByServer: later rows overwrite earlier ones. */
  function Group(rows: seq<EventRow>): map<Id, ByCategory> {
    if rows == [] then map[]
    else
      var g := Group(rows[..|rows| - 1]);
      var r := rows[|rows| - 1];
      var m: ByCategory := if r.serverId in g then g[r.serverId] else map[];
      g[r.serverId := m[r.category := StatusOf(r)]]
  }

  /** The detail handler's loop over one server's rows. */
  function Collect(rows: seq<EventRow>): ByCategory {
    if rows == [] then map[]
    else Collect(rows[..|rows| - 1])[rows[|rows| - 1].category := StatusOf(rows[|rows| - 1])]
  }

  function Lookup(g: map<Id, ByCategory>, s: Id): ByCategory { if s in g then g[s] else map[] }

  /** What both views should be: the newest event of every category that has one. */
  function LatestView(events: seq<EventRow>, s: Id): ByCategory {
    map c: Category | c in {Backup, Maintenance, Health} && Latest(events, s, c).Some? ::
      StatusOf(Latest(events, s, c).value)
  }

  lemma {:induction false} LatestForAllContents(events: seq<EventRow>, n: nat)
    requires n <= |events|
    ensures forall e :: e in LatestForAll(events, n) <==> e in events[..n] && IsLatest(events, e)
  {
    if n == 0 {
    } else {
      LatestForAllContents(events, n - 1);
      assert events[..n] == events[..n - 1] + [events[n - 1]];
    }
  }

  lemma {:induction false} LatestForContents(events: seq<EventRow>, s: Id, n: nat)
    requires n <= |events|
    ensures forall e :: e in LatestFor(events, s, n) <==> e in events[..n] && e.serverId == s && IsLatest(events, e)
  {
    if n == 0 {
    } else {
      LatestForContents(events, s, n - 1);
      assert events[..n] == events[..n - 1] + [events[n - 1]];
    }
  }

  function Entry(m: ByCategory, c: Category): Option<CategoryStatus> { if c in m then Some(m[c]) else None }

  function StatusIn(row: Option<EventRow>): Option<CategoryStatus> {
    match row case None => None case Some(e) => Some(StatusOf(e))
  }

  /** The last row of one server and category, in the order the query returned them. */
  function LastMatch(rows: seq<EventRow>, s: Id, c: Category): Option<EventRow> {
    if rows == [] then None
    else if Matches(rows[|rows| - 1], s, c) then Some(rows[|rows| - 1])
    else LastMatch(rows[..|rows| - 1], s, c)
  }

  lemma {:induction false} LastMatchIsMember(rows: seq<EventRow>, s: Id, c: Category)
    ensures var r := LastMatch(rows, s, c);
            if r.Some? then r.value in rows && Matches(r.value, s, c) else forall e :: e in rows ==> !Matches(e, s, c)
  {
    if rows == [] {
    } else {
      var n := |rows| - 1;
      LastMatchIsMember(rows[..n], s, c);
      assert rows == rows[..n] + [rows[n]];
    }
  }

  lemma {:induction false} GroupEntry(rows: seq<EventRow>, s: Id, c: Category)
    ensures Entry(Lookup(Group(rows), s), c) == StatusIn(LastMatch(rows, s, c))
  {
    if rows == [] {
    } else {
      GroupEntry(rows[..|rows| - 1], s, c);
    }
  }

  lemma {:induction false} CollectEntry(rows: seq<EventRow>, s: Id, c: Category)
    requires forall e :: e in rows ==> e.serverId == s
    ensures Entry(Collect(rows), c) == StatusIn(LastMatch(rows, s, c))
  {
    if rows == [] {
    } else {
      CollectEntry(rows[..|rows| - 1], s, c);
      assert rows[|rows| - 1] in rows;
    }
  }

  lemma LatestRowsAreLatest(events: seq<EventRow>, lastId: nat, e: EventRow)
    requires EventsInv(events, lastId)
    ensures e in events && IsLatest(events, e) <==> Latest(events, e.serverId, e.category) == Some(e)
  {
    LatestIsNewest(events, e.serverId, e.category);
    if e in events && IsLatest(events, e) {
      UniqueIds(events, lastId, e, Latest(events, e.serverId, e.category).value);
    }
  }

  /** `rows` holds the latest row of server `s` in each category, and no other row of `s`. */
  ghost predicate AreLatest(rows: seq<EventRow>, events: seq<EventRow>, s: Id) {
    forall e: EventRow :: e.serverId == s ==> (e in rows <==> Latest(events, s, e.category) == Some(e))
  }

  lemma LastIsLatest(events: seq<EventRow>, rows: seq<EventRow>, s: Id, c: Category)
    requires AreLatest(rows, events, s)
    ensures LastMatch(rows, s, c) == Latest(events, s, c)
  {
    LastMatchIsMember(rows, s, c);
    LatestIsNewest(events, s, c);
    var latest := Latest(events, s, c);
    if latest.Some? {
      assert latest.value in rows;
    }
  }

  lemma ViewByEntries(events: seq<EventRow>, m: ByCategory, s: Id)
    requires forall c :: Entry(m, c) == StatusIn(Latest(events, s, c))
    ensures m == LatestView(events, s)
  {
    forall c: Category
      ensures c in m <==> c in LatestView(events, s)
      ensures c in m ==> m[c] == LatestView(events, s)[c]
    {
      assert Entry(m, c) == StatusIn(Latest(events, s, c));
      assert c in {Backup, Maintenance, Health} by { match c case Backup => case Maintenance => case Health => }
    }
  }

  lemma FleetRows(events: seq<EventRow>, lastId: nat, rows: seq<EventRow>, s: Id)
    requires EventsInv(events, lastId)
    requires multiset(rows) == multiset(LatestForAll(events, |events|))
    ensures Lookup(Group(rows), s) == LatestView(events, s)
  {
    assert events[..|events|] == events;
    LatestForAllContents(events, |events|);
    forall e: EventRow | e.serverId == s ensures e in rows <==> Latest(events, s, e.category) == Some(e) {
      LatestRowsAreLatest(events, lastId, e);
      assert e in rows <==> e in multiset(rows);
    }
    forall c ensures Entry(Lookup(Group(rows), s), c) == StatusIn(Latest(events, s, c)) {
      GroupEntry(rows, s, c);
      LastIsLatest(events, rows, s, c);
    }
    ViewByEntries(events, Lookup(Group(rows), s), s);
  }

  lemma ServerRows(events: seq<EventRow>, lastId: nat, rows: seq<EventRow>, s: Id)
    requires EventsInv(events, lastId)
    requires multiset(rows) == multiset(LatestFor(events, s, |events|))
    ensures Collect(rows) == LatestView(events, s)
  {
    assert events[..|events|] == events;
    LatestForContents(events, s, |events|);
    forall e ensures e in rows <==> e.serverId == s && Latest(events, s, e.category) == Some(e) {
      LatestRowsAreLatest(events, lastId, e);
      LatestIsNewest(events, s, e.category);
      assert e in rows <==> e in multiset(rows);
    }
    forall c ensures Entry(Collect(rows), c) == StatusIn(Latest(events, s, c)) {
      CollectEntry(rows, s, c);
      LastIsLatest(events, rows, s, c);
    }
    ViewByEntries(events, Collect(rows), s);
  }

  /** The fleet-wide overview and the per-server detail agree, whatever order SQLite returns the rows in:
      both give each server the newest event of each of its categories. */
  lemma FleetViewIsServerView(events: seq<EventRow>, lastId: nat, fleetRows: seq<EventRow>, ownRows: seq<EventRow>, s: Id)
    requires EventsInv(events, lastId)
    requires multiset(fleetRows) == multiset(LatestForAll(events, |events|))
    requires multiset(ownRows) == multiset(LatestFor(events, s, |events|))
    ensures Lookup(Group(fleetRows), s) == Collect(ownRows) == LatestView(events, s)
  {
    FleetRows(events, lastId, fleetRows, s);
    ServerRows(events, lastId, ownRows, s);
  }

  // ----- exactly-once ingestion -----

  /** The posts that are not retries of an earlier one. */
  function FirstOnly(posts: seq<Post>): seq<Post> {
    if posts == [] then []
    else
      var n := |posts| - 1;
      FirstOnly(posts[..n]) +
      if exists j :: 0 <= j < n && SameKey(posts[j], posts[n]) then [] else [posts[n]]
  }

  lemma {:induction false} FirstOnlyKeys(posts: seq<Post>, p: Post)
    ensures (exists q :: q in FirstOnly(posts) && SameKey(q, p)) <==> (exists j :: 0 <= j < |posts| && SameKey(posts[j], p))
  {
    if posts == [] {
    } else {
      var n := |posts| - 1;
      var rest := posts[..n];
      FirstOnlyKeys(rest, p);
      if SameKey(posts[n], p) {
        FirstOnlyKeys(rest, posts[n]);
        if j :| 0 <= j < n && SameKey(posts[j], posts[n]) {
          assert SameKey(rest[j], posts[n]);
          var q :| q in FirstOnly(rest) && SameKey(q, posts[n]);
          assert q in FirstOnly(posts) && SameKey(q, p);
        } else {
          assert posts[n] in FirstOnly(posts);
        }
      } else {
        if q :| q in FirstOnly(posts) && SameKey(q, p) {
          assert q in FirstOnly(rest);
          var j :| 0 <= j < |rest| && SameKey(rest[j], p);
          assert SameKey(posts[j], p);
        }
        if j :| 0 <= j < |posts| && SameKey(posts[j], p) {
          assert SameKey(rest[j], p);
          var q :| q in FirstOnly(rest) && SameKey(q, p);
          assert q in FirstOnly(posts);
        }
      }
    }
  }

  lemma {:induction false} StoredKeys(events: seq<EventRow>, p: Post)
    ensures Conflicts(events, p) <==> exists q :: q in StripAll(events) && SameKey(q, p)
  {
    if events == [] {
    } else {
      var n := |events| - 1;
      StoredKeys(events[..n], p);
      assert Conflicts(events, p) <==> Conflicts(events[..n], p) || SameKey(Strip(events[n]), p) by {
        assert forall i :: 0 <= i < n ==> events[..n][i] == events[i];
      }
    }
  }

  /** One more post keeps the table equal, up to row ids, to the first post of each key. */
  lemma InsertIsFirstOnly(events: seq<EventRow>, lastId: nat, posts: seq<Post>, p: Post)
    requires StripAll(events) == FirstOnly(posts)
    ensures StripAll(Insert(events, lastId, p).0) == FirstOnly(posts + [p])
  {
    StoredKeys(events, p);
    FirstOnlyKeys(posts, p);
    var all := posts + [p];
    assert all[..|posts|] == posts;
    assert (exists j :: 0 <= j < |posts| && SameKey(all[j], p)) <==> (exists j :: 0 <= j < |posts| && SameKey(posts[j], p)) by {
      assert forall j :: 0 <= j < |posts| ==> all[j] == posts[j];
    }
    var events' := events + [WithId(p, lastId + 1)];
    assert events'[..|events|] == events && Strip(events'[|events|]) == p;
  }
}
