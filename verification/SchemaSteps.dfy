/** The seven shipped migrations, as guarded DDL over tables with rows, and their convergence from
    every schema an earlier release can have left behind. */
module SchemaSteps {
  import opened Base
  import opened Migrations

  type Row = map<string, Option<string>>

  datatype Table = Table(columns: seq<string>, rows: seq<Row>)

  /** `unique` names the column whose presence makes a row subject to a unique index. */
  datatype Index = Index(table: string, key: seq<string>, unique: Option<string>)

  datatype Tables = Tables(tables: map<string, Table>, indexes: map<string, Index>)

  const NO_TABLES: Tables := Tables(map[], map[])

  /** Every statement carries its guard: IF NOT EXISTS, or the look at table_info before ALTER TABLE. */
  datatype Ddl =
    | CreateTable(table: string, columns: seq<string>)
    | AddColumn(table: string, column: string)
    | CreateIndex(index: string, table: string, key: seq<string>)
    | CreateUniqueIndex(index: string, table: string, key: seq<string>, present: string)

  const UNIQUE_EVENTS: string := "idx_events_server_eventid_unique"

  function Statements(version: nat): seq<Ddl> {
    match version
    case 1 => [
      CreateTable("servers", ["id", "institution_code", "product_type", "hostname", "status", "api_key_hash",
        "pending_api_key", "bravo_version", "created_at", "approved_at", "last_seen_at", "last_heartbeat_at"]),
      CreateTable("events", ["id", "server_id", "category", "severity", "payload", "created_at"]),
      CreateIndex("idx_events_server_created", "events", ["server_id", "created_at"]),
      CreateIndex("idx_events_created", "events", ["created_at"])]
    case 2 => [
      CreateTable("users", ["id", "username", "password_hash", "role", "created_at"]),
      CreateTable("sessions", ["token_hash", "user_id", "created_at", "expires_at"]),
      CreateIndex("idx_sessions_expires", "sessions", ["expires_at"])]
    case 3 => [AddColumn("servers", "offline_alerted_at")]
    case 4 => [CreateIndex("idx_events_server_category_created", "events", ["server_id", "category", "created_at", "id"])]
    case 5 => [AddColumn("servers", "enrollment_claim_hash"), AddColumn("servers", "pending_api_key_expires_at")]
    case 6 => [
      CreateTable("admin_actions", ["id", "action", "server_id", "admin_user_id", "reason", "created_at"]),
      CreateIndex("idx_admin_actions_server_created", "admin_actions", ["server_id", "created_at"])]
    case 7 => [
      AddColumn("events", "event_id"), AddColumn("events", "occurred_at"),
      CreateUniqueIndex(UNIQUE_EVENTS, "events", ["server_id", "event_id"], "event_id")]
    case _ => []
  }

  const LATEST: nat := 7

  // ----- effect on the schema -----

  datatype Shape = Shape(columns: map<string, seq<string>>, indexes: map<string, Index>)

  const NO_SHAPE: Shape := Shape(map[], map[])

  function ShapeOf(c: Tables): Shape {
    Shape(map t | t in c.tables :: c.tables[t].columns, c.indexes)
  }

  predicate HasColumns(s: Shape, table: string, key: seq<string>) {
    table in s.columns && forall i :: 0 <= i < |key| ==> key[i] in s.columns[table]
  }

  /** The statement's guard finds its work done. */
  predicate Done(s: Shape, d: Ddl) {
    match d
    case CreateTable(table, _) => table in s.columns
    case AddColumn(table, column) => table in s.columns && column in s.columns[table]
    case CreateIndex(index, _, _) => index in s.indexes
    case CreateUniqueIndex(index, _, _, _) => index in s.indexes
  }

  /** The schema after one statement; None where SQLite refuses it. */
  function ExecShape(s: Shape, d: Ddl): Option<Shape> {
    if Done(s, d) then Some(s)
    else
      match d
      case CreateTable(table, columns) => Some(s.(columns := s.columns[table := columns]))
      case AddColumn(table, column) =>
        if table in s.columns then Some(s.(columns := s.columns[table := s.columns[table] + [column]])) else None
      case CreateIndex(index, table, key) =>
        if HasColumns(s, table, key) then Some(s.(indexes := s.indexes[index := Index(table, key, None)])) else None
      case CreateUniqueIndex(index, table, key, present) =>
        if HasColumns(s, table, key) then Some(s.(indexes := s.indexes[index := Index(table, key, Some(present))])) else None
  }

  /** The first `n` statements. */
  function ExecShapes(s: Shape, ds: seq<Ddl>, n: nat): Option<Shape>
    requires n <= |ds|
  {
    if n == 0 then Some(s)
    else match ExecShapes(s, ds, n - 1) case None => None case Some(t) => ExecShape(t, ds[n - 1])
  }

  function StepShape(s: Shape, version: nat): Option<Shape> {
    ExecShapes(s, Statements(version), |Statements(version)|)
  }

  function ShapeFrom(steps: nat -> seq<Ddl>, k: nat): Option<Shape> {
    if k == 0 then Some(NO_SHAPE)
    else match ShapeFrom(steps, k - 1) case None => None case Some(s) => ExecShapes(s, steps(k), |steps(k)|)
  }

  /** The schema an installation of release `k` has: the first `k` steps from nothing. */
  function ShapeAfter(k: nat): Option<Shape> { ShapeFrom(Statements, k) }

  // ----- effect on the rows -----

  predicate Clash(rows: seq<Row>, key: seq<string>, present: string) {
    exists i, j :: 0 <= i < j < |rows|
      && present in rows[i] && rows[i][present].Some?
      && forall k :: 0 <= k < |key| ==> key[k] in rows[i] && key[k] in rows[j] && rows[i][key[k]] == rows[j][key[k]]
  }

  function WithColumn(rows: seq<Row>, column: string): seq<Row> {
    seq(|rows|, i requires 0 <= i < |rows| => rows[i][column := None])
  }

  /** The tables after one statement. A unique index is refused over rows that already clash. */
  function Exec(c: Tables, d: Ddl): Option<Tables> {
    if ExecShape(ShapeOf(c), d).None? then None
    else if Done(ShapeOf(c), d) then Some(c)
    else
      match d
      case CreateTable(table, columns) => Some(c.(tables := c.tables[table := Table(columns, [])]))
      case AddColumn(table, column) =>
        var t := c.tables[table];
        Some(c.(tables := c.tables[table := Table(t.columns + [column], WithColumn(t.rows, column))]))
      case CreateIndex(index, table, key) => Some(c.(indexes := c.indexes[index := Index(table, key, None)]))
      case CreateUniqueIndex(index, table, key, present) =>
        if Clash(c.tables[table].rows, key, present) then None
        else Some(c.(indexes := c.indexes[index := Index(table, key, Some(present))]))
  }

  function ExecAll(c: Tables, ds: seq<Ddl>, n: nat): Option<Tables>
    requires n <= |ds|
  {
    if n == 0 then Some(c)
    else match ExecAll(c, ds, n - 1) case None => None case Some(b) => Exec(b, ds[n - 1])
  }

  /** `up` of one shipped migration. */
  function Up(c: Tables, version: nat): Option<Tables> {
    ExecAll(c, Statements(version), |Statements(version)|)
  }

  function Shipped(): seq<Migration<Tables>> {
    seq(LATEST, i requires 0 <= i < LATEST => Migration(i + 1, c => Up(c, i + 1)))
  }

  predicate WellFormed(c: Tables) {
    forall t :: t in c.tables ==> forall i :: 0 <= i < |c.tables[t].rows| ==>
      c.tables[t].rows[i].Keys == set x | x in c.tables[t].columns
  }

  predicate RowKept(was: Row, now: Row) {
    (forall x :: x in was ==> x in now && now[x] == was[x]) && (forall x :: x in now && x !in was ==> now[x].None?)
  }

  /** Every table and row is still there, old columns as they were and new ones NULL. */
  predicate Preserves(a: Tables, b: Tables) {
    forall t :: t in a.tables ==>
      t in b.tables && |b.tables[t].rows| == |a.tables[t].rows|
      && forall i :: 0 <= i < |a.tables[t].rows| ==> RowKept(a.tables[t].rows[i], b.tables[t].rows[i])
  }

  /** Until the unique index exists, no event carries an event_id. */
  predicate NoEventIds(c: Tables) {
    UNIQUE_EVENTS !in c.indexes && "events" in c.tables ==>
      forall i :: 0 <= i < |c.tables["events"].rows| ==>
        var r := c.tables["events"].rows[i]; "event_id" in r ==> r["event_id"].None?
  }

  lemma PreservesTransitive(a: Tables, b: Tables, c: Tables)
    requires Preserves(a, b) && Preserves(b, c)
    ensures Preserves(a, c)
  {
    forall t | t in a.tables
      ensures t in c.tables && |c.tables[t].rows| == |a.tables[t].rows|
      ensures forall i :: 0 <= i < |a.tables[t].rows| ==> RowKept(a.tables[t].rows[i], c.tables[t].rows[i])
    {
      assert t in b.tables;
      forall i | 0 <= i < |a.tables[t].rows| ensures RowKept(a.tables[t].rows[i], c.tables[t].rows[i]) {
        assert RowKept(a.tables[t].rows[i], b.tables[t].rows[i]);
        assert RowKept(b.tables[t].rows[i], c.tables[t].rows[i]);
      }
    }
  }

  // ----- one statement -----

  lemma DoneAfter(s: Shape, d: Ddl, e: Ddl)
    requires ExecShape(s, d).Some?
    ensures Done(ExecShape(s, d).value, d)
    ensures Done(s, e) ==> Done(ExecShape(s, d).value, e)
  {
  }

  lemma ExecKeeps(c: Tables, d: Ddl)
    requires WellFormed(c) && NoEventIds(c) && ExecShape(ShapeOf(c), d).Some?
    requires d.CreateUniqueIndex? ==> d == CreateUniqueIndex(UNIQUE_EVENTS, "events", ["server_id", "event_id"], "event_id")
    ensures Exec(c, d).Some? && ShapeOf(Exec(c, d).value) == ExecShape(ShapeOf(c), d).value
    ensures WellFormed(Exec(c, d).value) && NoEventIds(Exec(c, d).value) && Preserves(c, Exec(c, d).value)
  {
    if !Done(ShapeOf(c), d) {
      if d.AddColumn? {
        AddColumnKeeps(c, d);
      } else if d.CreateUniqueIndex? {
        assert !Clash(c.tables["events"].rows, d.key, d.present);
      }
    }
  }

  lemma AddColumnKeeps(c: Tables, d: Ddl)
    requires WellFormed(c) && NoEventIds(c) && d.AddColumn? && d.table in c.tables && d.column !in c.tables[d.table].columns
    ensures Exec(c, d).Some? && ShapeOf(Exec(c, d).value) == ExecShape(ShapeOf(c), d).value
    ensures WellFormed(Exec(c, d).value) && NoEventIds(Exec(c, d).value) && Preserves(c, Exec(c, d).value)
  {
    var t, n := c.tables[d.table], Exec(c, d).value.tables[d.table];
    forall i | 0 <= i < |t.rows|
      ensures RowKept(t.rows[i], n.rows[i]) && n.rows[i].Keys == set x | x in n.columns
    {
      assert n.rows[i].Keys == t.rows[i].Keys + {d.column};
    }
  }

  predicate OnlyEventsUnique(ds: seq<Ddl>) {
    forall i :: 0 <= i < |ds| && ds[i].CreateUniqueIndex? ==>
      ds[i] == CreateUniqueIndex(UNIQUE_EVENTS, "events", ["server_id", "event_id"], "event_id")
  }

  lemma {:induction false} ExecAllKeeps(c: Tables, ds: seq<Ddl>, n: nat)
    requires n <= |ds| && WellFormed(c) && NoEventIds(c) && ExecShapes(ShapeOf(c), ds, n).Some? && OnlyEventsUnique(ds)
    ensures ExecAll(c, ds, n).Some? && ShapeOf(ExecAll(c, ds, n).value) == ExecShapes(ShapeOf(c), ds, n).value
    ensures WellFormed(ExecAll(c, ds, n).value) && NoEventIds(ExecAll(c, ds, n).value) && Preserves(c, ExecAll(c, ds, n).value)
  {
    if n == 0 {
    } else {
      ExecAllKeeps(c, ds, n - 1);
      var b := ExecAll(c, ds, n - 1).value;
      ExecKeeps(b, ds[n - 1]);
      PreservesTransitive(c, b, Exec(b, ds[n - 1]).value);
    }
  }

  // ----- re-running a step that is already there -----

  predicate AllDone(s: Shape, ds: seq<Ddl>, n: nat)
    requires n <= |ds|
  {
    forall i :: 0 <= i < n ==> Done(s, ds[i])
  }

  lemma {:induction false} DoneChangesNothing(s: Shape, ds: seq<Ddl>, n: nat)
    requires n <= |ds| && AllDone(s, ds, n)
    ensures ExecShapes(s, ds, n) == Some(s)
  {
    if n == 0 {
    } else {
      DoneChangesNothing(s, ds, n - 1);
    }
  }

  lemma {:induction false} DoneStays(s: Shape, ds: seq<Ddl>, n: nat, e: Ddl)
    requires n <= |ds| && ExecShapes(s, ds, n).Some? && Done(s, e)
    ensures Done(ExecShapes(s, ds, n).value, e)
  {
    if n == 0 {
    } else {
      DoneStays(s, ds, n - 1, e);
      DoneAfter(ExecShapes(s, ds, n - 1).value, ds[n - 1], e);
    }
  }

  lemma {:induction false} ExecutedIsDone(s: Shape, ds: seq<Ddl>, n: nat)
    requires n <= |ds| && ExecShapes(s, ds, n).Some?
    ensures AllDone(ExecShapes(s, ds, n).value, ds, n)
  {
    if n == 0 {
    } else {
      ExecutedIsDone(s, ds, n - 1);
      var t := ExecShapes(s, ds, n - 1).value;
      forall i | 0 <= i < n ensures Done(ExecShapes(s, ds, n).value, ds[i]) {
        DoneAfter(t, ds[n - 1], ds[i]);
      }
    }
  }

  /** What is done at release `i` stays done at every later one. */
  lemma {:induction false} StatementStays(steps: nat -> seq<Ddl>, d: Ddl, i: nat, k: nat)
    requires i <= k && ShapeFrom(steps, i).Some? && ShapeFrom(steps, k).Some? && Done(ShapeFrom(steps, i).value, d)
    ensures Done(ShapeFrom(steps, k).value, d)
    decreases k
  {
    if i == k {
    } else {
      StatementStays(steps, d, i, k - 1);
      DoneStays(ShapeFrom(steps, k - 1).value, steps(k), |steps(k)|, d);
    }
  }

  lemma {:induction false} EarlierShapes(steps: nat -> seq<Ddl>, i: nat, k: nat)
    requires i <= k && ShapeFrom(steps, k).Some?
    ensures ShapeFrom(steps, i).Some?
    decreases k
  {
    if i == k {
    } else {
      EarlierShapes(steps, i, k - 1);
    }
  }

  lemma RepeatedStep(steps: nat -> seq<Ddl>, i: nat, k: nat)
    requires 1 <= i <= k && ShapeFrom(steps, k).Some?
    ensures ExecShapes(ShapeFrom(steps, k).value, steps(i), |steps(i)|) == ShapeFrom(steps, k)
  {
    var ds, s := steps(i), ShapeFrom(steps, k).value;
    EarlierShapes(steps, i, k);
    ExecutedIsDone(ShapeFrom(steps, i - 1).value, ds, |ds|);
    forall j | 0 <= j < |ds| ensures Done(s, ds[j]) {
      StatementStays(steps, ds[j], i, k);
    }
    DoneChangesNothing(s, ds, |ds|);
  }

  /** Running an earlier step once more changes nothing. */
  lemma EarlierStepsDone(i: nat, k: nat)
    requires 1 <= i <= k && ShapeAfter(k).Some?
    ensures StepShape(ShapeAfter(k).value, i) == ShapeAfter(k)
  {
    RepeatedStep(Statements, i, k);
  }

  // ----- the schema of every release -----

  const SERVERS: seq<string> := ["id", "institution_code", "product_type", "hostname", "status", "api_key_hash",
    "pending_api_key", "bravo_version", "created_at", "approved_at", "last_seen_at", "last_heartbeat_at"]
  const EVENTS: seq<string> := ["id", "server_id", "category", "severity", "payload", "created_at"]
  const USERS: seq<string> := ["id", "username", "password_hash", "role", "created_at"]
  const SESSIONS: seq<string> := ["token_hash", "user_id", "created_at", "expires_at"]
  const ADMIN_ACTIONS: seq<string> := ["id", "action", "server_id", "admin_user_id", "reason", "created_at"]

  function ServersOf(release: nat): seq<string> {
    if release < 3 then SERVERS
    else if release < 5 then SERVERS + ["offline_alerted_at"]
    else SERVERS + ["offline_alerted_at", "enrollment_claim_hash", "pending_api_key_expires_at"]
  }

  function EventsOf(release: nat): seq<string> {
    if release < 7 then EVENTS else EVENTS + ["event_id", "occurred_at"]
  }

  /** The tables of a release, column by column, in the order SQLite lists them. */
  function TablesOf(release: nat): map<string, seq<string>> {
    if release == 0 then map[]
    else if release == 1 then map["servers" := ServersOf(1), "events" := EventsOf(1)]
    else if release < 6 then
      map["servers" := ServersOf(release), "events" := EventsOf(release), "users" := USERS, "sessions" := SESSIONS]
    else
      map["servers" := ServersOf(release), "events" := EventsOf(release), "users" := USERS, "sessions" := SESSIONS,
          "admin_actions" := ADMIN_ACTIONS]
  }

  function IndexesOf(release: nat): map<string, Index> {
    if release == 0 then map[]
    else if release == 1 then
      map["idx_events_server_created" := Index("events", ["server_id", "created_at"], None),
          "idx_events_created" := Index("events", ["created_at"], None)]
    else if release < 4 then
      IndexesOf(1)["idx_sessions_expires" := Index("sessions", ["expires_at"], None)]
    else if release < 6 then
      IndexesOf(2)["idx_events_server_category_created" := Index("events", ["server_id", "category", "created_at", "id"], None)]
    else if release == 6 then
      IndexesOf(4)["idx_admin_actions_server_created" := Index("admin_actions", ["server_id", "created_at"], None)]
    else IndexesOf(6)[UNIQUE_EVENTS := Index("events", ["server_id", "event_id"], Some("event_id"))]
  }

  function SchemaOf(release: nat): Shape { Shape(TablesOf(release), IndexesOf(release)) }

  function Then(s: Option<Shape>, d: Ddl): Option<Shape> {
    match s case None => None case Some(t) => ExecShape(t, d)
  }

  lemma Unroll(s: Shape, ds: seq<Ddl>)
    requires 1 <= |ds| <= 4
    ensures ExecShapes(s, ds, |ds|) ==
            if |ds| == 1 then ExecShape(s, ds[0])
            else if |ds| == 2 then Then(ExecShape(s, ds[0]), ds[1])
            else if |ds| == 3 then Then(Then(ExecShape(s, ds[0]), ds[1]), ds[2])
            else Then(Then(Then(ExecShape(s, ds[0]), ds[1]), ds[2]), ds[3])
  {
    assert ExecShapes(s, ds, 0) == Some(s);
    assert ExecShapes(s, ds, 1) == ExecShape(s, ds[0]);
    if |ds| > 1 { assert ExecShapes(s, ds, 2) == Then(ExecShape(s, ds[0]), ds[1]); }
    if |ds| > 2 { assert ExecShapes(s, ds, 3) == Then(Then(ExecShape(s, ds[0]), ds[1]), ds[2]); }
  }

  lemma Step1()
    ensures StepShape(NO_SHAPE, 1) == Some(SchemaOf(1))
  {
    var ds := Statements(1);
    Unroll(NO_SHAPE, ds);
    var a := ExecShape(NO_SHAPE, ds[0]).value;
    var b := ExecShape(a, ds[1]).value;
    assert EVENTS[1] == "server_id" && EVENTS[5] == "created_at";
    assert b.columns == TablesOf(1);
  }

  lemma Step2()
    ensures StepShape(SchemaOf(1), 2) == Some(SchemaOf(2))
  {
    var ds := Statements(2);
    Unroll(SchemaOf(1), ds);
    assert SESSIONS[3] == "expires_at";
  }

  lemma Step3()
    ensures StepShape(SchemaOf(2), 3) == Some(SchemaOf(3))
  {
    Unroll(SchemaOf(2), Statements(3));
    assert "offline_alerted_at" !in ServersOf(2);
    assert TablesOf(2)["servers" := ServersOf(3)] == TablesOf(3);
  }

  lemma Step4()
    ensures StepShape(SchemaOf(3), 4) == Some(SchemaOf(4))
  {
    Unroll(SchemaOf(3), Statements(4));
    assert EVENTS[0] == "id" && EVENTS[1] == "server_id" && EVENTS[2] == "category" && EVENTS[5] == "created_at";
  }

  /** Two columns added to one table, in this order. */
  lemma AddTwo(s: Shape, table: string, x: string, y: string)
    requires table in s.columns && x !in s.columns[table] && y !in s.columns[table] && x != y
    ensures Then(ExecShape(s, AddColumn(table, x)), AddColumn(table, y)) ==
            Some(s.(columns := s.columns[table := s.columns[table] + [x, y]]))
  {
    var cs := s.columns[table];
    assert cs + [x] + [y] == cs + [x, y];
    assert s.columns[table := cs + [x]][table := cs + [x, y]] == s.columns[table := cs + [x, y]];
  }

  lemma Step5()
    ensures StepShape(SchemaOf(4), 5) == Some(SchemaOf(5))
  {
    var s := SchemaOf(4);
    Unroll(s, Statements(5));
    NewServerColumns();
    AddTwo(s, "servers", "enrollment_claim_hash", "pending_api_key_expires_at");
    assert ServersOf(4) + ["enrollment_claim_hash", "pending_api_key_expires_at"] == ServersOf(5);
    assert s.columns["servers" := ServersOf(5)] == TablesOf(5);
  }

  lemma NewServerColumns()
    ensures "enrollment_claim_hash" !in ServersOf(4) && "pending_api_key_expires_at" !in ServersOf(4)
  {
  }

  lemma Step6()
    ensures StepShape(SchemaOf(5), 6) == Some(SchemaOf(6))
  {
    Unroll(SchemaOf(5), Statements(6));
    assert ADMIN_ACTIONS[2] == "server_id" && ADMIN_ACTIONS[5] == "created_at";
  }

  lemma EventEnvelope()
    ensures Then(ExecShape(SchemaOf(6), AddColumn("events", "event_id")), AddColumn("events", "occurred_at")) ==
            Some(Shape(TablesOf(7), IndexesOf(6)))
  {
    var s := SchemaOf(6);
    AddTwo(s, "events", "event_id", "occurred_at");
    assert EventsOf(6) + ["event_id", "occurred_at"] == EventsOf(7);
    assert s.columns["events" := EventsOf(7)] == TablesOf(7);
  }

  lemma Step7()
    ensures StepShape(SchemaOf(6), 7) == Some(SchemaOf(7))
  {
    Unroll(SchemaOf(6), Statements(7));
    EventEnvelope();
    assert EventsOf(7)[1] == "server_id" && EventsOf(7)[6] == "event_id";
  }

  /** The first `k` shipped steps, from nothing, give exactly the tables, columns and indexes of release `k`. */
  lemma {:induction false} ReleaseSchemas(k: nat)
    requires k <= LATEST
    ensures ShapeAfter(k) == Some(SchemaOf(k))
  {
    if k == 0 {
    } else {
      ReleaseSchemas(k - 1);
      match k
      case 1 => Step1();
      case 2 => Step2();
      case 3 => Step3();
      case 4 => Step4();
      case 5 => Step5();
      case 6 => Step6();
      case _ => Step7();
    }
  }

  /** A fresh install has every column the repository's statements name, and the partial unique index that
      ON CONFLICT (server_id, event_id) needs. */
  lemma InstallServesRepository()
    ensures ShapeAfter(LATEST).Some?
    ensures var s := ShapeAfter(LATEST).value;
            && HasColumns(s, "servers", ["id", "institution_code", "product_type", "hostname", "status", "api_key_hash",
                 "pending_api_key", "pending_api_key_expires_at", "enrollment_claim_hash", "bravo_version", "created_at",
                 "approved_at", "last_seen_at", "last_heartbeat_at", "offline_alerted_at"])
            && HasColumns(s, "events", ["id", "server_id", "category", "severity", "payload", "created_at", "event_id", "occurred_at"])
            && HasColumns(s, "users", ["id", "username", "password_hash", "role", "created_at"])
            && HasColumns(s, "sessions", ["token_hash", "user_id", "created_at", "expires_at"])
            && HasColumns(s, "admin_actions", ["id", "action", "server_id", "admin_user_id", "reason", "created_at"])
            && exists i :: i in s.indexes && s.indexes[i] == Index("events", ["server_id", "event_id"], Some("event_id"))
  {
    ReleaseSchemas(LATEST);
    var c := ServersOf(7);
    assert c[..12] == SERVERS && c[12] == "offline_alerted_at" && c[13] == "enrollment_claim_hash" && c[14] == "pending_api_key_expires_at";
    assert forall i :: 0 <= i < 12 ==> c[i] == SERVERS[i];
    assert EventsOf(7)[6] == "event_id" && EventsOf(7)[7] == "occurred_at";
    assert UNIQUE_EVENTS in IndexesOf(7);
  }

  /** Creating the unique index is refused exactly over two rows of one server that carry one event_id; rows
      without an event_id never stand in its way. */
  lemma UniqueIndexExact(c: Tables)
    requires WellFormed(c) && UNIQUE_EVENTS !in c.indexes && HasColumns(ShapeOf(c), "events", ["server_id", "event_id"])
    ensures var rows := c.tables["events"].rows;
            Exec(c, CreateUniqueIndex(UNIQUE_EVENTS, "events", ["server_id", "event_id"], "event_id")).None? <==>
            exists i, j :: 0 <= i < j < |rows| && "event_id" in rows[i] && rows[i]["event_id"].Some?
              && "event_id" in rows[j] && rows[j]["event_id"] == rows[i]["event_id"]
              && "server_id" in rows[i] && "server_id" in rows[j] && rows[j]["server_id"] == rows[i]["server_id"]
  {
    var rows, key := c.tables["events"].rows, ["server_id", "event_id"];
    assert key[0] == "server_id" && key[1] == "event_id";
    if Clash(rows, key, "event_id") {
      var i, j :| 0 <= i < j < |rows| && "event_id" in rows[i] && rows[i]["event_id"].Some?
        && forall k :: 0 <= k < |key| ==> key[k] in rows[i] && key[k] in rows[j] && rows[i][key[k]] == rows[j][key[k]];
      assert rows[j][key[1]] == rows[i][key[1]] && rows[j][key[0]] == rows[i][key[0]];
    }
  }

  // ----- convergence -----

  /** A database of release `k`, whatever its rows, whose stamp is `j`: the runner may have stamped it,
      or it may predate the runner and still carry 0. */
  predicate LeftBy(file: File<Tables>, k: nat, j: nat) {
    j <= k <= LATEST && file.version == j && Some(ShapeOf(file.data)) == ShapeAfter(k) && WellFormed(file.data)
  }

  lemma OnlyEvents(version: nat)
    ensures OnlyEventsUnique(Statements(version))
  {
  }

  lemma NextShape(k: nat, version: nat)
    requires 1 <= version <= LATEST && k <= LATEST && version <= k + 1
    ensures ShapeAfter(k).Some? && StepShape(ShapeAfter(k).value, version).Some?
    ensures StepShape(ShapeAfter(k).value, version) == ShapeAfter(if version <= k then k else version)
  {
    ReleaseSchemas(k);
    if version <= k { EarlierStepsDone(version, k); } else { ReleaseSchemas(version); }
  }

  lemma StepConverges(c: Tables, k: nat, version: nat)
    requires 1 <= version <= LATEST && k <= LATEST && WellFormed(c) && NoEventIds(c)
    requires version <= k + 1 && Some(ShapeOf(c)) == ShapeAfter(k)
    ensures Up(c, version).Some? && WellFormed(Up(c, version).value) && NoEventIds(Up(c, version).value)
    ensures Preserves(c, Up(c, version).value)
    ensures Some(ShapeOf(Up(c, version).value)) == ShapeAfter(if version <= k then k else version)
  {
    NextShape(k, version);
    OnlyEvents(version);
    var ds := Statements(version);
    ExecAllKeeps(c, ds, |ds|);
  }

  lemma NothingToClash(file: File<Tables>, k: nat, j: nat)
    requires LeftBy(file, k, j)
    ensures NoEventIds(file.data)
  {
    ReleaseSchemas(k);
    var c := file.data;
    if UNIQUE_EVENTS !in c.indexes && "events" in c.tables {
      assert "event_id" !in ShapeOf(c).columns["events"];
    }
  }

  ghost predicate ConvergedTo(file: File<Tables>, o: Outcome<Tables>, k: nat, n: nat) {
    && o.failed.None? && o.file.version == (if n > file.version then n else file.version)
    && WellFormed(o.file.data) && NoEventIds(o.file.data) && Preserves(file.data, o.file.data)
    && Some(ShapeOf(o.file.data)) == ShapeAfter(if n <= k then k else n)
  }

  lemma ShippedStep(c: Tables, n: nat, version: int)
    requires 1 <= n <= LATEST && Up(c, n).Some?
    ensures Attempt(File(c, version), Shipped()[n - 1]) == Outcome(File(Up(c, n).value, n), None)
  {
  }

  lemma ConvergedStep(file: File<Tables>, o: Outcome<Tables>, k: nat, j: nat, n: nat)
    requires LeftBy(file, k, j) && j < n <= LATEST && ConvergedTo(file, o, k, n - 1)
    ensures ConvergedTo(file, Attempt(o.file, Shipped()[n - 1]), k, n)
  {
    var c := o.file.data;
    StepConverges(c, if n - 1 <= k then k else n - 1, n);
    ShippedStep(c, n, o.file.version);
    PreservesTransitive(file.data, c, Up(c, n).value);
  }

  lemma {:induction false} FirstStepsConverge(file: File<Tables>, k: nat, j: nat, n: nat)
    requires LeftBy(file, k, j) && n <= LATEST
    ensures ConvergedTo(file, Execute(file, Shipped()[..n], j), k, n)
  {
    if n == 0 {
      NothingToClash(file, k, j);
    } else {
      FirstStepsConverge(file, k, j, n - 1);
      var ms := Shipped()[..n];
      assert ms[..|ms| - 1] == Shipped()[..n - 1] && ms[|ms| - 1] == Shipped()[n - 1] && ms[|ms| - 1].version == n;
      if n > j { ConvergedStep(file, Execute(file, Shipped()[..n - 1], j), k, j, n); }
    }
  }

  lemma ShippedIsSorted()
    ensures Distinct(Shipped()) && Sorted(Shipped()) == Shipped()
  {
    SortedFacts(Shipped());
    AscendingIsUnique(Sorted(Shipped()), Shipped());
  }

  /** Convergence: from the schema of any release, stamped with any version up to it, the runner ends in
      the schema and stamp of a fresh install, with every row of every table kept and new columns NULL. */
  lemma Converges(file: File<Tables>, k: nat, j: nat)
    requires LeftBy(file, k, j)
    ensures var o, install := Run(file, Shipped()), Run(File(NO_TABLES, 0), Shipped());
            && o.failed.None? && install.failed.None?
            && ShapeOf(o.file.data) == ShapeOf(install.file.data) == SchemaOf(7) && o.file.version == install.file.version == 7
            && Preserves(file.data, o.file.data)
  {
    ShippedIsSorted();
    assert Shipped()[..LATEST] == Shipped();
    FirstStepsConverge(file, k, j, LATEST);
    assert ShapeOf(NO_TABLES) == NO_SHAPE;
    FirstStepsConverge(File(NO_TABLES, 0), 0, 0, LATEST);
    ReleaseSchemas(LATEST);
  }
}
