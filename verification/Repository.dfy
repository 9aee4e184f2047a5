/** `OperationsRepository`: each method runs one statement over the tables it holds, scanning rows in
    whatever order the table yields them. */
module Repository {
  import opened Base
  import opened Events
  import opened Store
  import opened Routes

  function InsertNewestFirst(rows: seq<ServerRow>, r: ServerRow): seq<ServerRow> {
    if rows == [] || r.createdAt > rows[0].createdAt then [r] + rows else [rows[0]] + InsertNewestFirst(rows[1..], r)
  }

  predicate NewestFirst(rows: seq<ServerRow>) {
    forall i, j :: 0 <= i < j < |rows| ==> rows[i].id != rows[j].id && rows[i].createdAt >= rows[j].createdAt
  }

  lemma {:induction false} InsertKeepsOrder(rows: seq<ServerRow>, r: ServerRow)
    requires NewestFirst(rows) && forall x :: x in rows ==> x.id != r.id
    ensures NewestFirst(InsertNewestFirst(rows, r))
    ensures forall x :: x in InsertNewestFirst(rows, r) <==> x in rows || x == r
  {
    if rows != [] && r.createdAt <= rows[0].createdAt {
      assert rows == [rows[0]] + rows[1..];
      InsertKeepsOrder(rows[1..], r);
      var rest := InsertNewestFirst(rows[1..], r);
      forall j | 0 <= j < |rest| ensures rest[j].id != rows[0].id && rows[0].createdAt >= rest[j].createdAt {
        assert rest[j] in rest;
        if rest[j] in rows[1..] {
          var k :| 0 <= k < |rows[1..]| && rows[1..][k] == rest[j];
          assert rows[k + 1] == rest[j];
        }
      }
    } else if rows != [] {
      assert forall i :: 0 <= i < |rows| ==> rows[i] in rows;
    }
  }

  class OperationsRepository {
    var servers: Servers
    var events: seq<EventRow>
    var lastEventId: nat
    var users: map<Id, UserRow>
    var usernames: map<string, Id>
    var sessions: Sessions
    var actions: seq<ActionRow>
    /** Every token generated so far. */
    ghost var issued: set<string>

    function Snapshot(): Db
      reads this
    {
      Db(servers, events, lastEventId, users, usernames, sessions, actions)
    }

    ghost predicate Valid()
      reads this
    {
      Inv(Snapshot(), issued)
    }

    constructor ()
      ensures Snapshot() == EMPTY && issued == {} && Valid()
    {
      servers, events, lastEventId := map[], [], 0;
      users, usernames, sessions, actions := map[], map[], map[], [];
      issued := {};
      new;
      EmptyInv();
    }

    // ----- servers -----

    method GetServer(id: Id) returns (row: Option<ServerRow>)
      ensures row == if id in servers then Some(servers[id]) else None
    {
      row := if id in servers then Some(servers[id]) else None;
    }

    method ListServers() returns (rows: seq<ServerRow>)
      requires Valid()
      ensures IsListing(rows, servers)
    {
      rows := [];
      var todo := servers.Keys;
      while todo != {}
        invariant todo <= servers.Keys && NewestFirst(rows)
        invariant forall r :: r in rows ==> r.id in servers && r.id !in todo && servers[r.id] == r
        invariant forall id :: id in servers && id !in todo ==> servers[id] in rows
        decreases |todo|
      {
        var id :| id in todo;
        InsertKeepsOrder(rows, servers[id]);
        rows := InsertNewestFirst(rows, servers[id]);
        todo := todo - {id};
      }
      forall id | id in servers ensures exists r :: r in rows && r.id == id {
        assert servers[id] in rows;
      }
    }

    method UpsertPendingServer(id: Id, institution: string, product: Product, hostname: string, claim: string, now: Instant)
      returns (locked: bool)
      modifies this`servers
      ensures locked == (id in old(servers) && old(servers)[id].status != Pending)
      ensures servers == Upsert(old(servers), id, institution, product, hostname, HashSecret(claim), now)
    {
      var existing := GetServer(id);
      if existing.Some? && existing.value.status != Pending {
        return true;
      }
      var claimHash := HashSecret(claim);
      if existing.Some? {
        servers := servers[id := servers[id].(hostname := hostname, institutionCode := institution, claimHash := Some(claimHash))];
      } else {
        servers := servers[id := NewServer(id, institution, product, hostname, claimHash, now)];
      }
      locked := false;
    }

    method ApproveServer(id: Id, key: string, hash: Digest, now: Instant) returns (row: Option<ServerRow>)
      modifies this`servers
      ensures servers == Store.ApproveServer(old(servers), id, key, hash, now)
      ensures row == if id in servers then Some(servers[id]) else None
    {
      var expiresAt := now + PENDING_KEY_TTL_MS;
      if id in servers && servers[id].status == Pending {
        servers := servers[id := servers[id].(status := Approved, apiKeyHash := Some(hash), pendingApiKey := Some(key),
                                              pendingExpiresAt := Some(expiresAt), approvedAt := Some(now))];
      }
      row := GetServer(id);
    }

    method ReadPendingApiKey(id: Id, now: Instant) returns (key: Option<string>)
      ensures key == if id in servers then ReadPendingKey(servers[id], now) else None
    {
      var server := GetServer(id);
      if server.None? || server.value.pendingApiKey.None? || server.value.pendingExpiresAt.None? {
        return None;
      }
      if server.value.pendingExpiresAt.value <= now {
        return None;
      }
      key := server.value.pendingApiKey;
    }

    method ExpirePendingApiKeys(now: Instant) returns (changes: nat)
      modifies this`servers
      ensures servers == SweepKeys(old(servers), now)
      ensures changes == |set id | id in old(servers) && KeyExpired(old(servers)[id], now)|
    {
      changes := 0;
      var todo := servers.Keys;
      ghost var expired: set<Id> := {};
      while todo != {}
        invariant todo <= old(servers).Keys && servers.Keys == old(servers).Keys
        invariant forall id :: id in servers ==> servers[id] == if id in todo then old(servers)[id] else ExpireRow(old(servers)[id], now)
        invariant expired == set id | id in old(servers) && id !in todo && KeyExpired(old(servers)[id], now)
        invariant changes == |expired|
        decreases |todo|
      {
        var id :| id in todo;
        if KeyExpired(servers[id], now) {
          servers := servers[id := servers[id].(pendingApiKey := None, pendingExpiresAt := None)];
          changes := changes + 1;
          expired := expired + {id};
        }
        todo := todo - {id};
      }
      assert expired == set id | id in old(servers) && KeyExpired(old(servers)[id], now);
    }

    method FindApprovedServerByApiKeyHash(hash: Digest) returns (row: Option<ServerRow>)
      requires Valid()
      ensures row == FindByHash(servers, hash)
    {
      var todo := servers.Keys;
      while todo != {}
        invariant todo <= servers.Keys
        invariant forall id :: id in servers && id !in todo ==> !Authenticates(servers[id], hash)
        decreases |todo|
      {
        var id :| id in todo;
        if servers[id].apiKeyHash == Some(hash) && servers[id].status == Approved {
          OneServerPerKey(servers, issued, hash, id);
          return Some(servers[id]);
        }
        todo := todo - {id};
      }
      row := None;
    }

    method RevokeServer(id: Id) returns (changed: bool, row: Option<ServerRow>)
      modifies this`servers
      ensures servers == Store.RevokeServer(old(servers), id)
      ensures changed == (id in old(servers) && old(servers)[id].status != Revoked)
      ensures row == if id in servers then Some(servers[id]) else None
    {
      changed := id in servers && (servers[id].status == Pending || servers[id].status == Approved);
      if changed {
        servers := servers[id := servers[id].(status := Revoked, apiKeyHash := None, pendingApiKey := None,
                                              pendingExpiresAt := None, claimHash := None)];
      }
      row := GetServer(id);
    }

    method ReissueApiKey(id: Id, hash: Digest, now: Instant) returns (changed: bool, row: Option<ServerRow>)
      modifies this`servers
      ensures servers == ReissueKey(old(servers), id, hash, now)
      ensures changed == (id in old(servers) && old(servers)[id].status != Pending)
      ensures row == if id in servers then Some(servers[id]) else None
    {
      changed := id in servers && (servers[id].status == Approved || servers[id].status == Revoked);
      if changed {
        servers := servers[id := servers[id].(status := Approved, apiKeyHash := Some(hash), pendingApiKey := None,
                                              pendingExpiresAt := None, approvedAt := Some(now))];
      }
      row := GetServer(id);
    }

    method TouchLastSeen(id: Id, now: Instant)
      modifies this`servers
      ensures servers == Store.TouchLastSeen(old(servers), id, now)
    {
      if id in servers {
        servers := servers[id := servers[id].(lastSeenAt := Some(now))];
      }
    }

    method TouchHeartbeat(id: Id, now: Instant, version: Option<string>)
      modifies this`servers
      ensures servers == Store.TouchHeartbeat(old(servers), id, now, version)
    {
      if id in servers {
        var kept := if version.Some? then version else servers[id].bravoVersion;
        servers := servers[id := servers[id].(lastHeartbeatAt := Some(now), lastSeenAt := Some(now), bravoVersion := kept)];
      }
    }

    method MarkOfflineAlerted(id: Id, at: Instant)
      modifies this`servers
      ensures servers == SetMarker(old(servers), id, Some(at))
    {
      if id in servers {
        servers := servers[id := servers[id].(offlineAlertedAt := Some(at))];
      }
    }

    method ClearOfflineAlert(id: Id)
      modifies this`servers
      ensures servers == SetMarker(old(servers), id, None)
    {
      if id in servers {
        servers := servers[id := servers[id].(offlineAlertedAt := None)];
      }
    }

    // ----- audit trail -----

    method RecordAdminAction(kind: ActionKind, serverId: Id, admin: Id, reason: Option<string>, now: Instant)
      modifies this`actions
      ensures actions == RecordAction(old(actions), kind, serverId, admin, reason, now)
    {
      actions := actions + [ActionRow(|actions| + 1, kind, serverId, admin, reason, now)];
    }

    method ListAdminActions(serverId: Id, limit: nat) returns (rows: seq<ActionRow>)
      ensures rows == ListActions(actions, serverId, limit)
    {
      var found, sorted := [], [];
      var i := 0;
      while i < |actions|
        invariant 0 <= i <= |actions|
        invariant found == ActionsOf(actions[..i], serverId) && sorted == SortNewest(found)
      {
        assert actions[..i + 1][..i] == actions[..i];
        if actions[i].serverId == serverId {
          assert (found + [actions[i]])[..|found|] == found;
          found := found + [actions[i]];
          sorted := InsertSorted(sorted, actions[i]);
        }
        i := i + 1;
      }
      assert actions[..|actions|] == actions;
      rows := if limit < |sorted| then sorted[..limit] else sorted;
    }

    // ----- events -----

    method InsertEvent(p: Post)
      modifies this`events, this`lastEventId
      ensures (events, lastEventId) == Insert(old(events), old(lastEventId), p)
    {
      var i := 0;
      while i < |events|
        invariant 0 <= i <= |events|
        invariant forall k :: 0 <= k < i ==> !SameKey(Strip(events[k]), p)
      {
        if p.eventId.Some? && events[i].serverId == p.serverId && events[i].eventId == p.eventId {
          assert SameKey(Strip(events[i]), p);
          return;
        }
        i := i + 1;
      }
      lastEventId := lastEventId + 1;
      events := events + [EventRow(lastEventId, p.serverId, p.category, p.severity, p.payload, p.createdAt, p.eventId, p.occurredAt)];
    }

    method DeleteEventsOlderThan(cutoff: Instant) returns (changes: nat)
      modifies this`events
      ensures events == DeleteOlder(old(events), cutoff)
      ensures changes == |old(events)| - |events|
    {
      var kept, i := [], 0;
      while i < |events|
        invariant 0 <= i <= |events| && events == old(events)
        invariant kept == DeleteOlder(events[..i], cutoff) && |kept| <= i
      {
        assert events[..i + 1][..i] == events[..i];
        if events[i].createdAt >= cutoff {
          kept := kept + [events[i]];
        }
        i := i + 1;
      }
      assert events[..|events|] == events;
      changes := |events| - |kept|;
      events := kept;
    }

    method ListRecentEvents(serverId: Id, limit: nat) returns (rows: seq<EventRow>)
      ensures AreRecent(rows, events, serverId, limit)
    {
      var found, sorted := [], [];
      var i := 0;
      while i < |events|
        invariant 0 <= i <= |events|
        invariant found == EventsOf(events[..i], serverId) && sorted == SortRecent(found)
      {
        assert events[..i + 1][..i] == events[..i];
        if events[i].serverId == serverId {
          assert (found + [events[i]])[..|found|] == found;
          found := found + [events[i]];
          sorted := InsertRecent(sorted, events[i]);
        }
        i := i + 1;
      }
      assert events[..|events|] == events;
      SortedIsRecent(events, serverId, limit);
      rows := if limit < |sorted| then sorted[..limit] else sorted;
    }

    /** The correlated subquery: ORDER BY created_at DESC, id DESC LIMIT 1. */
    method LatestRow(serverId: Id, category: Category) returns (row: Option<EventRow>)
      ensures row == Latest(events, serverId, category)
    {
      row := None;
      var i := 0;
      while i < |events|
        invariant 0 <= i <= |events|
        invariant row == Latest(events[..i], serverId, category)
      {
        assert events[..i + 1][..i] == events[..i];
        var e := events[i];
        if e.serverId == serverId && e.category == category
           && (row.None? || e.createdAt > row.value.createdAt || (e.createdAt == row.value.createdAt && e.id > row.value.id)) {
          row := Some(e);
        }
        i := i + 1;
      }
      assert events[..|events|] == events;
    }

    method ListLatestEventPerCategoryForAllServers() returns (rows: seq<EventRow>)
      ensures rows == LatestForAll(events, |events|)
    {
      rows := [];
      var i := 0;
      while i < |events|
        invariant 0 <= i <= |events|
        invariant rows == LatestForAll(events, i)
      {
        var latest := LatestRow(events[i].serverId, events[i].category);
        if latest.Some? && latest.value.id == events[i].id {
          rows := rows + [events[i]];
        }
        i := i + 1;
      }
    }

    method ListLatestEventPerCategory(serverId: Id) returns (rows: seq<EventRow>)
      ensures rows == LatestFor(events, serverId, |events|)
    {
      rows := [];
      var i := 0;
      while i < |events|
        invariant 0 <= i <= |events|
        invariant rows == LatestFor(events, serverId, i)
      {
        if events[i].serverId == serverId {
          var latest := LatestRow(events[i].serverId, events[i].category);
          if latest.Some? && latest.value.id == events[i].id {
            rows := rows + [events[i]];
          }
        }
        i := i + 1;
      }
    }

    // ----- accounts and sessions -----

    method GetUserByUsername(username: string) returns (user: Option<UserRow>)
      requires Valid()
      ensures user == if username in usernames then Some(users[usernames[username]]) else None
      ensures user.Some? ==> user.value.username == username
    {
      user := if username in usernames then Some(users[usernames[username]]) else None;
    }

    /** False where the INSERT breaks the primary key. */
    method CreateSession(hash: Digest, userId: Id, now: Instant, expiresAt: Instant) returns (inserted: bool)
      modifies this`sessions
      ensures inserted == (hash !in old(sessions))
      ensures sessions == if inserted then Store.CreateSession(old(sessions), hash, userId, now, expiresAt) else old(sessions)
    {
      inserted := hash !in sessions;
      if inserted {
        sessions := sessions[hash := SessionRow(userId, now, expiresAt)];
      }
    }

    method GetSessionByTokenHash(hash: Digest, now: Instant) returns (user: Option<UserRow>)
      ensures user == SessionUser(Snapshot(), hash, now)
    {
      if hash !in sessions || sessions[hash].expiresAt <= now || sessions[hash].userId !in users {
        return None;
      }
      user := Some(users[sessions[hash].userId]);
    }

    method DeleteSessionByTokenHash(hash: Digest)
      modifies this`sessions
      ensures sessions == old(sessions) - {hash}
    {
      sessions := sessions - {hash};
    }

    method DeleteExpiredSessions(now: Instant) returns (changes: nat)
      modifies this`sessions
      ensures sessions == DropExpired(old(sessions), now)
      ensures changes == |old(sessions)| - |sessions|
    {
      changes := 0;
      var todo := sessions.Keys;
      while todo != {}
        invariant todo <= sessions.Keys <= old(sessions).Keys
        invariant forall h :: h in sessions ==> sessions[h] == old(sessions)[h] && (h in todo || sessions[h].expiresAt > now)
        invariant forall h :: h in old(sessions) && h !in sessions ==> old(sessions)[h].expiresAt <= now
        invariant changes == |old(sessions)| - |sessions|
        decreases |todo|
      {
        var h :| h in todo;
        if sessions[h].expiresAt <= now {
          sessions := sessions - {h};
          changes := changes + 1;
        }
        todo := todo - {h};
      }
    }
  }
}
