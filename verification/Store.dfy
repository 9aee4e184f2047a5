/** The tables as values, and the effect of each SQL statement of `OperationsRepository` on them.
    Class Repository.OperationsRepository executes these statements row by row. */
module Store {
  import opened Base
  import opened Events

  /** How long an approved key can be polled for. */
  const PENDING_KEY_TTL_MS: int := 5 * 60 * 1000

  datatype ServerRow = ServerRow(
    id: Id, institutionCode: string, product: Product, hostname: string, status: Status,
    apiKeyHash: Option<Digest>, pendingApiKey: Option<string>, pendingExpiresAt: Option<Instant>,
    claimHash: Option<Digest>, bravoVersion: Option<string>, createdAt: Instant,
    approvedAt: Option<Instant>, lastSeenAt: Option<Instant>, lastHeartbeatAt: Option<Instant>,
    offlineAlertedAt: Option<Instant>)

  datatype UserRow = UserRow(id: Id, username: string, role: Role)

  datatype SessionRow = SessionRow(userId: Id, createdAt: Instant, expiresAt: Instant)

  datatype ActionRow = ActionRow(
    id: nat, kind: ActionKind, serverId: Id, adminUserId: Id, reason: Option<string>, createdAt: Instant)

  type Servers = map<Id, ServerRow>

  type Sessions = map<Digest, SessionRow>

  /** `usernames` is the UNIQUE index on users(username). */
  datatype Db = Db(
    servers: Servers, events: seq<EventRow>, lastEventId: nat,
    users: map<Id, UserRow>, usernames: map<string, Id>, sessions: Sessions, actions: seq<ActionRow>)

  const EMPTY: Db := Db(map[], [], 0, map[], map[], map[], [])

  // ----- servers -----

  function NewServer(id: Id, institution: string, product: Product, hostname: string, claim: Digest, now: Instant): ServerRow {
    ServerRow(id, institution, product, hostname, Pending, None, None, None, Some(claim), None, now, None, None, None, None)
  }

  /** The write of upsertPendingServer; an approved or revoked row is locked and stays. */
  function Upsert(servers: Servers, id: Id, institution: string, product: Product, hostname: string, claim: Digest, now: Instant): Servers {
    if id !in servers then servers[id := NewServer(id, institution, product, hostname, claim, now)]
    else if servers[id].status != Pending then servers
    else servers[id := servers[id].(hostname := hostname, institutionCode := institution, claimHash := Some(claim))]
  }

  function ApproveServer(servers: Servers, id: Id, key: string, hash: Digest, now: Instant): Servers {
    if id in servers && servers[id].status == Pending then
      servers[id := servers[id].(status := Approved, apiKeyHash := Some(hash), pendingApiKey := Some(key),
                                 pendingExpiresAt := Some(now + PENDING_KEY_TTL_MS), approvedAt := Some(now))]
    else servers
  }

  function RevokeServer(servers: Servers, id: Id): Servers {
    if id in servers && servers[id].status != Revoked then
      servers[id := servers[id].(status := Revoked, apiKeyHash := None, pendingApiKey := None,
                                 pendingExpiresAt := None, claimHash := None)]
    else servers
  }

  function ReissueKey(servers: Servers, id: Id, hash: Digest, now: Instant): Servers {
    if id in servers && servers[id].status != Pending then
      servers[id := servers[id].(status := Approved, apiKeyHash := Some(hash), pendingApiKey := None,
                                 pendingExpiresAt := None, approvedAt := Some(now))]
    else servers
  }

  function TouchLastSeen(servers: Servers, id: Id, now: Instant): Servers {
    if id in servers then servers[id := servers[id].(lastSeenAt := Some(now))] else servers
  }

  function TouchHeartbeat(servers: Servers, id: Id, now: Instant, version: Option<string>): Servers {
    if id in servers then
      servers[id := servers[id].(lastHeartbeatAt := Some(now), lastSeenAt := Some(now),
                                 bravoVersion := if version.Some? then version else servers[id].bravoVersion)]
    else servers
  }

  function SetMarker(servers: Servers, id: Id, marker: Option<Instant>): Servers {
    if id in servers then servers[id := servers[id].(offlineAlertedAt := marker)] else servers
  }

  /** The key a poll may reveal: check-on-read of the TTL. */
  function ReadPendingKey(row: ServerRow, now: Instant): Option<string> {
    if row.pendingApiKey.None? || row.pendingExpiresAt.None? then None
    else if row.pendingExpiresAt.value <= now then None
    else row.pendingApiKey
  }

  predicate KeyExpired(row: ServerRow, now: Instant) {
    row.pendingApiKey.Some? && row.pendingExpiresAt.Some? && row.pendingExpiresAt.value <= now
  }

  function ExpireRow(row: ServerRow, now: Instant): ServerRow {
    if KeyExpired(row, now) then row.(pendingApiKey := None, pendingExpiresAt := None) else row
  }

  /** expirePendingApiKeys: the sweep. */
  function SweepKeys(servers: Servers, now: Instant): Servers {
    map id | id in servers :: ExpireRow(servers[id], now)
  }

  predicate Authenticates(row: ServerRow, hash: Digest) {
    row.apiKeyHash == Some(hash) && row.status == Approved
  }

  /** findApprovedServerByApiKeyHash: some matching row, if there is one. No index makes it unique;
      `ServersInv` does. */
  ghost function FindByHash(servers: Servers, hash: Digest): (r: Option<ServerRow>)
    ensures r.Some? <==> exists id :: id in servers && Authenticates(servers[id], hash)
    ensures r.Some? ==> Authenticates(r.value, hash) && exists id :: id in servers && servers[id] == r.value
  {
    if exists id :: id in servers && Authenticates(servers[id], hash) then
      var id :| id in servers && Authenticates(servers[id], hash);
      Some(servers[id])
    else None
  }

  /** listServers: every row once, newest enrollment first. */
  ghost predicate IsListing(rows: seq<ServerRow>, servers: Servers) {
    && (forall r :: r in rows ==> r.id in servers && servers[r.id] == r)
    && (forall id :: id in servers ==> exists r :: r in rows && r.id == id)
    && (forall i, j :: 0 <= i < j < |rows| ==> rows[i].id != rows[j].id && rows[i].createdAt >= rows[j].createdAt)
  }

  // ----- sessions -----

  function CreateSession(sessions: Sessions, hash: Digest, userId: Id, now: Instant, expiresAt: Instant): Sessions {
    sessions[hash := SessionRow(userId, now, expiresAt)]
  }

  /** getUserByUsername. */
  function LookupUser(db: Db, username: string): Option<UserRow> {
    if username in db.usernames && db.usernames[username] in db.users then Some(db.users[db.usernames[username]]) else None
  }

  /** getSessionByTokenHash: the join with users, expired rows treated as absent. */
  function SessionUser(db: Db, hash: Digest, now: Instant): Option<UserRow> {
    if hash in db.sessions && db.sessions[hash].expiresAt > now && db.sessions[hash].userId in db.users then
      Some(db.users[db.sessions[hash].userId])
    else None
  }

  function DropExpired(sessions: Sessions, now: Instant): Sessions {
    map h | h in sessions && sessions[h].expiresAt > now :: sessions[h]
  }

  // ----- audit trail -----

  function RecordAction(actions: seq<ActionRow>, kind: ActionKind, serverId: Id, admin: Id, reason: Option<string>, now: Instant): seq<ActionRow> {
    actions + [ActionRow(|actions| + 1, kind, serverId, admin, reason, now)]
  }

  /** One server's rows, oldest first. */
  function ActionsOf(actions: seq<ActionRow>, id: Id): seq<ActionRow> {
    if actions == [] then []
    else
      ActionsOf(actions[..|actions| - 1], id) +
      if actions[|actions| - 1].serverId == id then [actions[|actions| - 1]] else []
  }

  /** ORDER BY created_at DESC, id DESC puts `a` before `b`. */
  predicate Later(a: ActionRow, b: ActionRow) {
    a.createdAt > b.createdAt || (a.createdAt == b.createdAt && a.id > b.id)
  }

  function InsertSorted(rows: seq<ActionRow>, a: ActionRow): seq<ActionRow> {
    if rows == [] || Later(a, rows[0]) then [a] + rows else [rows[0]] + InsertSorted(rows[1..], a)
  }

  function SortNewest(rows: seq<ActionRow>): seq<ActionRow> {
    if rows == [] then [] else InsertSorted(SortNewest(rows[..|rows| - 1]), rows[|rows| - 1])
  }

  function Take<T>(s: seq<T>, n: nat): seq<T> { if n < |s| then s[..n] else s }

  /** listAdminActions. */
  function ListActions(actions: seq<ActionRow>, id: Id, limit: nat): seq<ActionRow> {
    Take(SortNewest(ActionsOf(actions, id)), limit)
  }

  // ----- what every operation keeps -----

  ghost predicate RowInv(row: ServerRow, issued: set<string>) {
    && (row.apiKeyHash.Some? <==> row.status == Approved)
    && (row.apiKeyHash.Some? ==> row.approvedAt.Some? && row.apiKeyHash.value.secret in issued)
    && (row.pendingApiKey.Some? <==> row.pendingExpiresAt.Some?)
    && (row.pendingApiKey.Some? ==>
          row.status == Approved && row.apiKeyHash == Some(HashSecret(row.pendingApiKey.value))
          && row.pendingExpiresAt == Some(row.approvedAt.value + PENDING_KEY_TTL_MS))
    && (row.status == Revoked ==> row.claimHash.None?)
    && (row.claimHash.Some? ==> row.claimHash.value.secret in issued)
  }

  /** `issued` collects every token ever generated. */
  ghost predicate ServersInv(servers: Servers, issued: set<string>) {
    && (forall id :: id in servers ==> servers[id].id == id && RowInv(servers[id], issued))
    && (forall a, b :: a in servers && b in servers && a != b && servers[a].apiKeyHash.Some? ==>
          servers[a].apiKeyHash != servers[b].apiKeyHash)
  }

  ghost predicate SessionsInv(db: Db, issued: set<string>) {
    && (forall h :: h in db.sessions ==> h.secret in issued && db.sessions[h].userId in db.users)
    && (forall u :: u in db.users ==> db.users[u].id == u)
    && (forall name :: name in db.usernames ==>
          db.usernames[name] in db.users && db.users[db.usernames[name]].username == name)
  }

  /** Foreign keys to servers(id), and the ids AUTOINCREMENT gives a table nothing is deleted from. */
  ghost predicate ActionsInv(db: Db) {
    && (forall i :: 0 <= i < |db.actions| ==> db.actions[i].id == i + 1 && db.actions[i].serverId in db.servers)
    && (forall e :: e in db.events ==> e.serverId in db.servers)
  }

  ghost predicate Inv(db: Db, issued: set<string>) {
    ServersInv(db.servers, issued) && SessionsInv(db, issued) && ActionsInv(db) && EventsInv(db.events, db.lastEventId)
  }

  lemma OneServerPerKey(servers: Servers, issued: set<string>, hash: Digest, id: Id)
    requires ServersInv(servers, issued) && id in servers && Authenticates(servers[id], hash)
    ensures FindByHash(servers, hash) == Some(servers[id])
  {
  }
}
