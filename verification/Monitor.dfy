/** The offline monitor. A tick takes a snapshot, then awaits one send per transition; other requests,
    and ticks that overlap it, run at every await. The dedup marker is written only after a send is
    acknowledged. */
module Monitor {
  import opened Base
  import opened Store
  import opened Routes

  datatype Kind = WentOffline | Recovered

  datatype Transition = Transition(id: Id, kind: Kind)

  /** One server's transition at `now`, if it has one. */
  function TransitionOf(row: ServerRow, now: Instant, cfg: Config): Option<Kind> {
    if row.status != Approved then None
    else if !IsOnline(row, now, cfg) && row.offlineAlertedAt.None? then Some(WentOffline)
    else if IsOnline(row, now, cfg) && row.offlineAlertedAt.Some? then Some(Recovered)
    else None
  }

  /** computeOfflineTransitions: in listing order. */
  function Transitions(rows: seq<ServerRow>, now: Instant, cfg: Config): seq<Transition> {
    if rows == [] then []
    else
      var row := rows[|rows| - 1];
      Transitions(rows[..|rows| - 1], now, cfg) +
      match TransitionOf(row, now, cfg)
      case None => []
      case Some(kind) => [Transition(row.id, kind)]
  }

  /** The write after an acknowledged send. */
  function Acknowledge(t: Transition, now: Instant): Request {
    if t.kind == WentOffline then MarkOffline(t.id, now) else ClearOffline(t.id)
  }

  // ----- small steps -----

  datatype Tick = Tick(now: Instant, pending: seq<Transition>)

  datatype State = State(db: Db, ticks: seq<Tick>)

  datatype Event =
    | Env(step: Step)
    | Start(now: Instant, rows: seq<ServerRow>)
    | Reply(tick: nat, ok: bool)

  const INITIAL: State := State(EMPTY, [])

  predicate Awaited(s: State, e: Event) { e.Reply? && e.tick < |s.ticks| && s.ticks[e.tick].pending != [] }

  ghost function Next(cfg: Config, s: State, e: Event): State {
    match e
    case Env(step) => s.(db := Apply(cfg, s.db, step).0)
    case Start(now, rows) => s.(ticks := s.ticks + [Tick(now, Transitions(rows, now, cfg))])
    case Reply(i, ok) =>
      if !Awaited(s, e) then s
      else
        var t := s.ticks[i];
        State(if ok then Apply(cfg, s.db, Step(t.now, Acknowledge(t.pending[0], t.now))).0 else s.db,
              s.ticks[i := Tick(t.now, t.pending[1..])])
  }

  /** The alert an event acknowledges, if any. */
  function Ack(s: State, e: Event): Option<Transition> {
    if Awaited(s, e) && e.ok then Some(s.ticks[e.tick].pending[0]) else None
  }

  ghost function StateAfter(cfg: Config, es: seq<Event>): State {
    if es == [] then INITIAL else Next(cfg, StateAfter(cfg, es[..|es| - 1]), es[|es| - 1])
  }

  /** Only the monitor writes the marker, and a tick's snapshot is the table it was taken from. */
  ghost predicate Possible(s: State, e: Event) {
    && (e.Env? ==> !e.step.req.MarkOffline? && !e.step.req.ClearOffline?)
    && (e.Start? ==> IsListing(e.rows, s.db.servers))
  }

  ghost predicate IsMonitorRun(cfg: Config, es: seq<Event>) {
    es == [] || (IsMonitorRun(cfg, es[..|es| - 1]) && Possible(StateAfter(cfg, es[..|es| - 1]), es[|es| - 1]))
  }

  /** The acknowledged alerts about server `id`, oldest first. */
  ghost function Acks(cfg: Config, es: seq<Event>, id: Id): seq<Kind> {
    if es == [] then []
    else
      var a := Ack(StateAfter(cfg, es[..|es| - 1]), es[|es| - 1]);
      Acks(cfg, es[..|es| - 1], id) + if a.Some? && a.value.id == id then [a.value.kind] else []
  }

  // ----- the marker -----

  lemma EnvLeavesMarkers(cfg: Config, db: Db, step: Step, id: Id)
    requires !step.req.MarkOffline? && !step.req.ClearOffline?
    ensures var db' := Apply(cfg, db, step).0;
            && (id in db.servers ==> id in db'.servers && db'.servers[id].offlineAlertedAt == db.servers[id].offlineAlertedAt)
            && (id !in db.servers && id in db'.servers ==> db'.servers[id].offlineAlertedAt.None?)
  {
    if NeedsAdmin(step.req) {
      AdminLeavesMarkers(db, step.now, step.req, id);
    }
  }

  lemma AdminLeavesMarkers(db: Db, now: Instant, req: Request, id: Id)
    requires NeedsAdmin(req)
    ensures var db' := GuardedAdminRoute(db, now, req).0;
            && (id in db.servers ==> id in db'.servers && db'.servers[id].offlineAlertedAt == db.servers[id].offlineAlertedAt)
            && (id !in db.servers ==> id !in db'.servers)
  {
  }

  predicate Marked(s: State, id: Id) { id in s.db.servers && s.db.servers[id].offlineAlertedAt.Some? }

  predicate KnownTicks(s: State) {
    forall i :: 0 <= i < |s.ticks| ==> forall j :: 0 <= j < |s.ticks[i].pending| ==> s.ticks[i].pending[j].id in s.db.servers
  }

  /** What a transition means: an approved server without a marker that was never heard from or not for
      longer than the missed intervals, or one with a marker that was. */
  lemma TransitionMeans(row: ServerRow, now: Instant, cfg: Config, kind: Kind)
    ensures TransitionOf(row, now, cfg) == Some(kind) <==>
            var heard := row.lastHeartbeatAt.Some? &&
                         now - row.lastHeartbeatAt.value <= cfg.expectedIntervalMinutes * cfg.missedThreshold * 60_000;
            row.status == Approved &&
            match kind
            case WentOffline => !heard && row.offlineAlertedAt.None?
            case Recovered => heard && row.offlineAlertedAt.Some?
  {
  }

  lemma {:induction false} TransitionsExact(rows: seq<ServerRow>, now: Instant, cfg: Config)
    ensures forall t :: t in Transitions(rows, now, cfg) <==>
                        exists r :: r in rows && r.id == t.id && TransitionOf(r, now, cfg) == Some(t.kind)
  {
    if rows == [] {
    } else {
      var n := |rows| - 1;
      TransitionsExact(rows[..n], now, cfg);
      assert rows == rows[..n] + [rows[n]];
    }
  }

  lemma StepKeepsKnownTicks(cfg: Config, s: State, e: Event)
    requires KnownTicks(s) && Possible(s, e)
    ensures KnownTicks(Next(cfg, s, e))
    ensures s.db.servers.Keys <= Next(cfg, s, e).db.servers.Keys
  {
    match e
    case Env(step) => RowsStay(cfg, s.db, step);
    case Start(now, rows) => TransitionsExact(rows, now, cfg);
    case Reply(_, _) =>
  }

  lemma {:induction false} TicksAreKnown(cfg: Config, es: seq<Event>)
    requires IsMonitorRun(cfg, es)
    ensures KnownTicks(StateAfter(cfg, es))
  {
    if es == [] {
    } else {
      TicksAreKnown(cfg, es[..|es| - 1]);
      StepKeepsKnownTicks(cfg, StateAfter(cfg, es[..|es| - 1]), es[|es| - 1]);
    }
  }

  lemma StepMoves(cfg: Config, s: State, e: Event, id: Id)
    requires KnownTicks(s) && Possible(s, e)
    ensures var a := Ack(s, e);
            Marked(Next(cfg, s, e), id) <==> if a.Some? && a.value.id == id then a.value.kind == WentOffline else Marked(s, id)
  {
    if e.Env? { EnvLeavesMarkers(cfg, s.db, e.step, id); }
  }

  /** In every run, overlapping ticks and failing sends included, the marker is set exactly when the
      last acknowledged alert about the server says it went offline. */
  lemma {:induction false} MarkerIsLastAck(cfg: Config, es: seq<Event>, id: Id)
    requires IsMonitorRun(cfg, es)
    ensures var acks := Acks(cfg, es, id);
            Marked(StateAfter(cfg, es), id) <==> acks != [] && acks[|acks| - 1] == WentOffline
  {
    if es == [] {
    } else {
      var rest := es[..|es| - 1];
      MarkerIsLastAck(cfg, rest, id);
      TicksAreKnown(cfg, rest);
      StepMoves(cfg, StateAfter(cfg, rest), es[|es| - 1], id);
    }
  }

  // ----- alternation -----

  predicate Idle(s: State) { forall i :: 0 <= i < |s.ticks| ==> s.ticks[i].pending == [] }

  /** A tick starts only when the previous one has finished. */
  ghost predicate NoOverlap(cfg: Config, es: seq<Event>) {
    es == [] ||
    (NoOverlap(cfg, es[..|es| - 1]) && (es[|es| - 1].Start? ==> Idle(StateAfter(cfg, es[..|es| - 1]))))
  }

  predicate Alternates(acks: seq<Kind>) {
    forall i :: 0 <= i < |acks| ==> acks[i] == if i % 2 == 0 then WentOffline else Recovered
  }

  /** What a tick still has to send agrees with the markers. */
  predicate UpToDate(s: State, pending: seq<Transition>) {
    && (forall i :: 0 <= i < |pending| ==> (pending[i].kind == WentOffline <==> !Marked(s, pending[i].id)))
    && (forall i, j :: 0 <= i < j < |pending| ==> pending[i].id != pending[j].id)
  }

  predicate OneTick(s: State) {
    && (forall i :: 0 <= i < |s.ticks| ==> UpToDate(s, s.ticks[i].pending))
    && (forall i, j :: 0 <= i < j < |s.ticks| ==> s.ticks[i].pending == [] || s.ticks[j].pending == [])
  }

  lemma {:induction false} SnapshotIsUpToDate(rows: seq<ServerRow>, now: Instant, cfg: Config, s: State)
    requires forall r :: r in rows ==> r.id in s.db.servers && s.db.servers[r.id] == r
    requires forall i, j :: 0 <= i < j < |rows| ==> rows[i].id != rows[j].id
    ensures UpToDate(s, Transitions(rows, now, cfg))
  {
    if rows == [] {
    } else {
      var n := |rows| - 1;
      SnapshotIsUpToDate(rows[..n], now, cfg, s);
      TransitionsExact(rows[..n], now, cfg);
      assert rows[n] in rows;
      var earlier := Transitions(rows[..n], now, cfg);
      forall i | 0 <= i < |earlier| ensures earlier[i].id != rows[n].id {
        assert earlier[i] in earlier;
      }
    }
  }

  lemma StepKeepsOneTick(cfg: Config, s: State, e: Event)
    requires OneTick(s) && KnownTicks(s) && Possible(s, e) && (e.Start? ==> Idle(s))
    ensures OneTick(Next(cfg, s, e))
  {
    var s' := Next(cfg, s, e);
    forall id ensures var a := Ack(s, e);
      Marked(s', id) <==> if a.Some? && a.value.id == id then a.value.kind == WentOffline else Marked(s, id)
    {
      StepMoves(cfg, s, e, id);
    }
    match e
    case Env(_) =>
      assert forall i :: 0 <= i < |s'.ticks| ==> UpToDate(s, s.ticks[i].pending);
    case Start(now, rows) =>
      SnapshotIsUpToDate(rows, now, cfg, s);
    case Reply(i, ok) =>
      if Awaited(s, e) {
        assert UpToDate(s, s.ticks[i].pending);
        assert UpToDate(s', s.ticks[i].pending[1..]);
        forall k | 0 <= k < |s'.ticks| ensures UpToDate(s', s'.ticks[k].pending) {
          if k != i { assert s'.ticks[k].pending == []; }
        }
      }
  }

  lemma {:induction false} NoOverlapKeepsOneTick(cfg: Config, es: seq<Event>)
    requires IsMonitorRun(cfg, es) && NoOverlap(cfg, es)
    ensures OneTick(StateAfter(cfg, es))
  {
    if es == [] {
    } else {
      var rest := es[..|es| - 1];
      NoOverlapKeepsOneTick(cfg, rest);
      TicksAreKnown(cfg, rest);
      StepKeepsOneTick(cfg, StateAfter(cfg, rest), es[|es| - 1]);
    }
  }

  lemma AckSeesMarker(s: State, e: Event)
    requires OneTick(s)
    ensures var a := Ack(s, e); a.Some? ==> (a.value.kind == WentOffline <==> !Marked(s, a.value.id))
  {
    if Awaited(s, e) { assert UpToDate(s, s.ticks[e.tick].pending); }
  }

  /** When ticks do not overlap, acknowledged alerts about a server strictly alternate, beginning with
      went-offline, however other requests interleave and whichever sends fail. */
  lemma {:induction false} AlertsAlternate(cfg: Config, es: seq<Event>, id: Id)
    requires IsMonitorRun(cfg, es) && NoOverlap(cfg, es)
    ensures Alternates(Acks(cfg, es, id))
  {
    if es == [] {
    } else {
      var rest, e := es[..|es| - 1], es[|es| - 1];
      var s := StateAfter(cfg, rest);
      AlertsAlternate(cfg, rest, id);
      MarkerIsLastAck(cfg, rest, id);
      NoOverlapKeepsOneTick(cfg, rest);
      AckSeesMarker(s, e);
      var a := Ack(s, e);
      if a.Some? && a.value.id == id { AlternatesAppend(Acks(cfg, rest, id), a.value.kind); }
    }
  }

  /** Without that assumption: an acknowledgement continues the alternation exactly when the marker
      still is what the tick's snapshot saw. */
  lemma AckAlternatesIff(cfg: Config, es: seq<Event>, e: Event, id: Id)
    requires IsMonitorRun(cfg, es) && Alternates(Acks(cfg, es, id))
    requires Ack(StateAfter(cfg, es), e).Some? && Ack(StateAfter(cfg, es), e).value.id == id
    ensures Alternates(Acks(cfg, es + [e], id)) <==>
            (Ack(StateAfter(cfg, es), e).value.kind == WentOffline <==> !Marked(StateAfter(cfg, es), id))
  {
    Extend(cfg, es, e, id);
    MarkerIsLastAck(cfg, es, id);
    AlternatesAppend(Acks(cfg, es, id), Ack(StateAfter(cfg, es), e).value.kind);
  }

  lemma AlternatesAppend(acks: seq<Kind>, kind: Kind)
    requires Alternates(acks)
    ensures Alternates(acks + [kind]) <==> (kind == WentOffline <==> !(acks != [] && acks[|acks| - 1] == WentOffline))
  {
    var all := acks + [kind];
    assert Alternates(all) <==> all[|acks|] == if |acks| % 2 == 0 then WentOffline else Recovered;
  }

  lemma Extend(cfg: Config, es: seq<Event>, e: Event, id: Id)
    ensures StateAfter(cfg, es + [e]) == Next(cfg, StateAfter(cfg, es), e)
    ensures IsMonitorRun(cfg, es + [e]) <==> IsMonitorRun(cfg, es) && Possible(StateAfter(cfg, es), e)
    ensures var a := Ack(StateAfter(cfg, es), e);
            Acks(cfg, es + [e], id) == Acks(cfg, es, id) + if a.Some? && a.value.id == id then [a.value.kind] else []
  {
    assert (es + [e])[..|es|] == es;
  }

  /** A store in which server "s" has been enrolled and approved by a signed-in admin. */
  lemma OneApprovedServer(cfg: Config) returns (es: seq<Event>, row: ServerRow)
    requires cfg.sessionTtlHours > 0
    ensures IsMonitorRun(cfg, es) && Acks(cfg, es, "s") == []
    ensures StateAfter(cfg, es).ticks == [] && StateAfter(cfg, es).db.servers == map["s" := row]
    ensures row.id == "s" && row.status == Approved && row.lastHeartbeatAt.None? && row.offlineAlertedAt.None?
  {
    var enroll := Env(Step(0, PostEnroll("s", "i", Lims, "h", "claim")));
    var user := Env(Step(0, CreateUser("u", "admin", Admin)));
    var login := Env(Step(0, Login("admin", true, "session")));
    var approve := Env(Step(0, PostApprove(Some("session"), "s", "key")));
    es := [];
    Extend(cfg, es, enroll, "s");
    es := es + [enroll];
    Extend(cfg, es, user, "s");
    es := es + [user];
    Extend(cfg, es, login, "s");
    es := es + [login];
    var db := StateAfter(cfg, es).db;
    assert SignedIn(db, Some("session"), 0) == Some(UserRow("u", "admin", Admin));
    Extend(cfg, es, approve, "s");
    es := es + [approve];
    row := StateAfter(cfg, es).db.servers["s"];
  }

  /** A tick at `now` has taken its snapshot and awaits its first send. */
  lemma OneSnapshot(cfg: Config, before: seq<Event>, row: ServerRow, now: Instant) returns (es: seq<Event>)
    requires IsMonitorRun(cfg, before) && StateAfter(cfg, before).db.servers == map["s" := row]
    requires row.id == "s" && row.status == Approved && row.lastHeartbeatAt.None? && row.offlineAlertedAt.None?
    ensures IsMonitorRun(cfg, es) && Acks(cfg, es, "s") == Acks(cfg, before, "s")
    ensures StateAfter(cfg, es).db == StateAfter(cfg, before).db
    ensures StateAfter(cfg, es).ticks == StateAfter(cfg, before).ticks + [Tick(now, [Transition("s", WentOffline)])]
  {
    var start := Start(now, [row]);
    assert Transitions([row], now, cfg) == [Transition("s", WentOffline)] by { assert [row][..0] == []; }
    Extend(cfg, before, start, "s");
    es := before + [start];
  }

  /** The send that tick `i` awaits succeeds. */
  lemma Acknowledged(cfg: Config, before: seq<Event>, i: nat) returns (es: seq<Event>)
    requires IsMonitorRun(cfg, before) && i < |StateAfter(cfg, before).ticks|
    requires StateAfter(cfg, before).ticks[i].pending == [Transition("s", WentOffline)]
    ensures IsMonitorRun(cfg, es) && Acks(cfg, es, "s") == Acks(cfg, before, "s") + [WentOffline]
    ensures var ticks := StateAfter(cfg, before).ticks; StateAfter(cfg, es).ticks == ticks[i := Tick(ticks[i].now, [])]
  {
    var reply := Reply(i, true);
    Extend(cfg, before, reply, "s");
    es := before + [reply];
    assert [Transition("s", WentOffline)][1..] == [];
  }

  /** Ticks that overlap can send the same alert twice: when the first send is still awaited after
      `interval`, the next tick's snapshot is taken before it is acknowledged. */
  lemma OverlapRepeatsAlert(cfg: Config, interval: nat)
    requires cfg.sessionTtlHours > 0
    ensures exists es :: IsMonitorRun(cfg, es) && Acks(cfg, es, "s") == [WentOffline, WentOffline]
                         && |StateAfter(cfg, es).ticks| == 2
                         && StateAfter(cfg, es).ticks[1].now == StateAfter(cfg, es).ticks[0].now + interval
  {
    var es, row := OneApprovedServer(cfg);
    es := OneSnapshot(cfg, es, row, 1);
    es := OneSnapshot(cfg, es, row, 1 + interval);
    es := Acknowledged(cfg, es, 0);
    es := Acknowledged(cfg, es, 1);
  }

  // ----- one whole tick -----

  /** The rest of runOfflineCheck: every transition in turn, the sends to servers in `ok` succeeding. */
  ghost function Process(cfg: Config, db: Db, ts: seq<Transition>, now: Instant, ok: set<Id>): Db {
    if ts == [] then db
    else
      var t := ts[|ts| - 1];
      var before := Process(cfg, db, ts[..|ts| - 1], now, ok);
      if t.id in ok then Apply(cfg, before, Step(now, Acknowledge(t, now))).0 else before
  }

  function Failed(ts: seq<Transition>, ok: set<Id>): seq<Transition> {
    if ts == [] then []
    else Failed(ts[..|ts| - 1], ok) + if ts[|ts| - 1].id in ok then [] else [ts[|ts| - 1]]
  }

  /** The marker `id` has once the transitions have been processed. */
  function MarkerAfter(ts: seq<Transition>, now: Instant, ok: set<Id>, id: Id, was: Option<Instant>): Option<Instant> {
    if ts == [] then was
    else
      var t := ts[|ts| - 1];
      if t.id == id && id in ok then (if t.kind == WentOffline then Some(now) else None)
      else MarkerAfter(ts[..|ts| - 1], now, ok, id, was)
  }

  lemma {:induction false} ProcessWritesMarkers(cfg: Config, db: Db, ts: seq<Transition>, now: Instant, ok: set<Id>)
    ensures Process(cfg, db, ts, now, ok).servers.Keys == db.servers.Keys
    ensures forall id :: id in db.servers ==>
              Process(cfg, db, ts, now, ok).servers[id] ==
              db.servers[id].(offlineAlertedAt := MarkerAfter(ts, now, ok, id, db.servers[id].offlineAlertedAt))
  {
    if ts == [] {
    } else {
      var rest, t := ts[..|ts| - 1], ts[|ts| - 1];
      ProcessWritesMarkers(cfg, db, rest, now, ok);
      var before := Process(cfg, db, rest, now, ok);
      WriteMarker(cfg, before, t, now);
      forall id | id in db.servers
        ensures Process(cfg, db, ts, now, ok).servers[id] ==
                db.servers[id].(offlineAlertedAt := MarkerAfter(ts, now, ok, id, db.servers[id].offlineAlertedAt))
      {
        assert before.servers[id].(offlineAlertedAt := None) == db.servers[id].(offlineAlertedAt := None);
      }
    }
  }

  lemma WriteMarker(cfg: Config, db: Db, t: Transition, now: Instant)
    ensures Apply(cfg, db, Step(now, Acknowledge(t, now))).0.servers ==
            SetMarker(db.servers, t.id, if t.kind == WentOffline then Some(now) else None)
  {
  }

  lemma ProcessNext(cfg: Config, db: Db, ts: seq<Transition>, i: nat, now: Instant, ok: set<Id>)
    requires i < |ts|
    ensures var before := Process(cfg, db, ts[..i], now, ok);
            Process(cfg, db, ts[..i + 1], now, ok) ==
            if ts[i].id !in ok then before
            else before.(servers := SetMarker(before.servers, ts[i].id, if ts[i].kind == WentOffline then Some(now) else None))
  {
    assert ts[..i + 1][..i] == ts[..i];
  }

  /** The next `n` replies to tick `i`, with nothing in between. */
  ghost function Drain(cfg: Config, s: State, i: nat, ok: set<Id>, n: nat): State {
    if n == 0 then s
    else
      var p := Drain(cfg, s, i, ok, n - 1);
      if i < |p.ticks| && p.ticks[i].pending != [] then Next(cfg, p, Reply(i, p.ticks[i].pending[0].id in ok)) else p
  }

  lemma {:induction false} DrainIsProcess(cfg: Config, s: State, i: nat, ok: set<Id>, n: nat)
    requires i < |s.ticks| && n <= |s.ticks[i].pending|
    ensures var t, d := s.ticks[i], Drain(cfg, s, i, ok, n);
            && d.db == Process(cfg, s.db, t.pending[..n], t.now, ok)
            && d.ticks == s.ticks[i := Tick(t.now, t.pending[n..])]
  {
    var t := s.ticks[i];
    if n == 0 {
    } else {
      DrainIsProcess(cfg, s, i, ok, n - 1);
      assert t.pending[..n][..n - 1] == t.pending[..n - 1];
      assert t.pending[n - 1..][1..] == t.pending[n..];
    }
  }

  /** A tick that nothing interleaves with, run through the small steps, is `Process`; and it ends. */
  lemma {:induction false} WholeTick(cfg: Config, s: State, now: Instant, rows: seq<ServerRow>, ok: set<Id>)
    ensures var ts := Transitions(rows, now, cfg);
            var end := Drain(cfg, Next(cfg, s, Start(now, rows)), |s.ticks|, ok, |ts|);
            end.db == Process(cfg, s.db, ts, now, ok) && end.ticks == s.ticks + [Tick(now, [])]
  {
    var ts := Transitions(rows, now, cfg);
    var started := Next(cfg, s, Start(now, rows));
    assert started.ticks == s.ticks + [Tick(now, ts)];
    DrainIsProcess(cfg, started, |s.ticks|, ok, |ts|);
    assert ts[..|ts|] == ts && ts[|ts|..] == [];
  }

  lemma {:induction false} MarkerUntouched(ts: seq<Transition>, now: Instant, ok: set<Id>, id: Id, was: Option<Instant>)
    requires forall t :: t in ts ==> t.id != id
    ensures MarkerAfter(ts, now, ok, id, was) == was
  {
    if ts == [] {
    } else {
      assert ts[|ts| - 1] in ts;
      MarkerUntouched(ts[..|ts| - 1], now, ok, id, was);
    }
  }

  /** The row a server has in the next snapshot. */
  function Refresh(row: ServerRow, ts: seq<Transition>, now: Instant, ok: set<Id>): ServerRow {
    row.(offlineAlertedAt := MarkerAfter(ts, now, ok, row.id, row.offlineAlertedAt))
  }

  lemma {:induction false} RowTransition(rows: seq<ServerRow>, i: nat, now: Instant, cfg: Config, ok: set<Id>)
    requires i < |rows| && forall i, j :: 0 <= i < j < |rows| ==> rows[i].id != rows[j].id
    ensures var ts := Transitions(rows, now, cfg);
            TransitionOf(Refresh(rows[i], ts, now, ok), now, cfg) ==
            if rows[i].id in ok then None else TransitionOf(rows[i], now, cfg)
  {
    var n := |rows| - 1;
    if i < n {
      RowTransition(rows[..n], i, now, cfg, ok);
      assert rows[i].id != rows[n].id;
      LastOtherRow(rows, now, cfg, ok, rows[i].id, rows[i].offlineAlertedAt);
    } else {
      LastRowTransition(rows, now, cfg, ok);
    }
  }

  lemma LastRowTransition(rows: seq<ServerRow>, now: Instant, cfg: Config, ok: set<Id>)
    requires rows != [] && forall i, j :: 0 <= i < j < |rows| ==> rows[i].id != rows[j].id
    ensures var row, ts := rows[|rows| - 1], Transitions(rows, now, cfg);
            TransitionOf(Refresh(row, ts, now, ok), now, cfg) == if row.id in ok then None else TransitionOf(row, now, cfg)
  {
    var n := |rows| - 1;
    var row := rows[n];
    var earlier := Transitions(rows[..n], now, cfg);
    TransitionsExact(rows[..n], now, cfg);
    forall t | t in earlier ensures t.id != row.id {
      var r :| r in rows[..n] && r.id == t.id;
    }
    MarkerUntouched(earlier, now, ok, row.id, row.offlineAlertedAt);
    match TransitionOf(row, now, cfg)
    case None =>
      assert Transitions(rows, now, cfg) == earlier;
    case Some(kind) =>
      var ts := earlier + [Transition(row.id, kind)];
      assert Transitions(rows, now, cfg) == ts && ts[..|ts| - 1] == earlier;
      assert MarkerAfter(ts, now, ok, row.id, row.offlineAlertedAt) ==
             if row.id in ok then (if kind == WentOffline then Some(now) else None) else row.offlineAlertedAt;
  }

  lemma LastOtherRow(rows: seq<ServerRow>, now: Instant, cfg: Config, ok: set<Id>, id: Id, was: Option<Instant>)
    requires rows != [] && rows[|rows| - 1].id != id
    ensures MarkerAfter(Transitions(rows, now, cfg), now, ok, id, was) ==
            MarkerAfter(Transitions(rows[..|rows| - 1], now, cfg), now, ok, id, was)
  {
    var ts := Transitions(rows, now, cfg);
    var earlier := Transitions(rows[..|rows| - 1], now, cfg);
    if ts != earlier { assert ts[..|ts| - 1] == earlier; }
  }

  lemma {:induction false} FailedRows(before: seq<ServerRow>, after: seq<ServerRow>, now: Instant, cfg: Config, ok: set<Id>)
    requires |before| == |after|
    requires forall i :: 0 <= i < |before| ==> after[i].id == before[i].id
    requires forall i :: 0 <= i < |before| ==>
               TransitionOf(after[i], now, cfg) == if before[i].id in ok then None else TransitionOf(before[i], now, cfg)
    ensures Transitions(after, now, cfg) == Failed(Transitions(before, now, cfg), ok)
  {
    if before == [] {
    } else {
      var n := |before| - 1;
      FailedRows(before[..n], after[..n], now, cfg, ok);
      var ts := Transitions(before, now, cfg);
      var earlier := Transitions(before[..n], now, cfg);
      if ts != earlier { assert ts[..|ts| - 1] == earlier; }
    }
  }

  function RefreshAll(rows: seq<ServerRow>, ts: seq<Transition>, now: Instant, ok: set<Id>): seq<ServerRow> {
    seq(|rows|, i requires 0 <= i < |rows| => Refresh(rows[i], ts, now, ok))
  }

  lemma {:induction false} CountedOnce<T>(s: seq<T>, x: T)
    requires forall i, j :: 0 <= i < j < |s| ==> s[i] != s[j]
    ensures multiset(s)[x] == if x in s then 1 else 0
  {
    if s == [] {
    } else {
      var n := |s| - 1;
      CountedOnce(s[..n], x);
      assert s == s[..n] + [s[n]];
    }
  }

  lemma SameMembers<T>(a: seq<T>, b: seq<T>)
    requires forall i, j :: 0 <= i < j < |a| ==> a[i] != a[j]
    requires forall i, j :: 0 <= i < j < |b| ==> b[i] != b[j]
    requires forall x :: x in a <==> x in b
    ensures multiset(a) == multiset(b)
  {
    forall x ensures multiset(a)[x] == multiset(b)[x] {
      CountedOnce(a, x);
      CountedOnce(b, x);
    }
  }

  predicate DistinctIds(ts: seq<Transition>) { forall i, j :: 0 <= i < j < |ts| ==> ts[i].id != ts[j].id }

  lemma {:induction false} TransitionsDistinct(rows: seq<ServerRow>, now: Instant, cfg: Config)
    requires forall i, j :: 0 <= i < j < |rows| ==> rows[i].id != rows[j].id
    ensures DistinctIds(Transitions(rows, now, cfg))
  {
    if rows == [] {
    } else {
      var n := |rows| - 1;
      TransitionsDistinct(rows[..n], now, cfg);
      TransitionsExact(rows[..n], now, cfg);
      var earlier := Transitions(rows[..n], now, cfg);
      forall i | 0 <= i < |earlier| ensures earlier[i].id != rows[n].id {
        assert earlier[i] in earlier;
        var r :| r in rows[..n] && r.id == earlier[i].id;
      }
    }
  }

  /** Whatever order the query returns, a transition is listed exactly when the stored row has it. */
  lemma ListedTransition(rows: seq<ServerRow>, servers: Servers, t: Transition, now: Instant, cfg: Config)
    requires IsListing(rows, servers)
    ensures t in Transitions(rows, now, cfg) <==> t.id in servers && TransitionOf(servers[t.id], now, cfg) == Some(t.kind)
  {
    TransitionsExact(rows, now, cfg);
    if t.id in servers {
      var row :| row in rows && row.id == t.id;
      assert row == servers[t.id];
    }
  }

  /** The same without its computation: approved, and heard from within the missed intervals or not, against
      the marker. */
  lemma SnapshotTransition(rows: seq<ServerRow>, servers: Servers, t: Transition, now: Instant, cfg: Config)
    requires IsListing(rows, servers)
    ensures t in Transitions(rows, now, cfg) <==>
            t.id in servers && servers[t.id].status == Approved &&
            var row := servers[t.id];
            var heard := row.lastHeartbeatAt.Some? &&
                         now - row.lastHeartbeatAt.value <= cfg.expectedIntervalMinutes * cfg.missedThreshold * 60_000;
            if t.kind == WentOffline then !heard && row.offlineAlertedAt.None? else heard && row.offlineAlertedAt.Some?
  {
    ListedTransition(rows, servers, t, now, cfg);
    if t.id in servers { TransitionMeans(servers[t.id], now, cfg, t.kind); }
  }

  lemma ListingsAgree(a: seq<ServerRow>, b: seq<ServerRow>, servers: Servers, now: Instant, cfg: Config)
    requires IsListing(a, servers) && IsListing(b, servers)
    ensures multiset(Transitions(a, now, cfg)) == multiset(Transitions(b, now, cfg))
  {
    TransitionsDistinct(a, now, cfg);
    TransitionsDistinct(b, now, cfg);
    forall t ensures t in Transitions(a, now, cfg) <==> t in Transitions(b, now, cfg) {
      ListedTransition(a, servers, t, now, cfg);
      ListedTransition(b, servers, t, now, cfg);
    }
    SameMembers(Transitions(a, now, cfg), Transitions(b, now, cfg));
  }

  lemma RefreshedTransitions(cfg: Config, db: Db, rows: seq<ServerRow>, now: Instant, ok: set<Id>)
    requires IsListing(rows, db.servers)
    ensures var ts := Transitions(rows, now, cfg);
            var again := RefreshAll(rows, ts, now, ok);
            && IsListing(again, Process(cfg, db, ts, now, ok).servers)
            && Transitions(again, now, cfg) == Failed(ts, ok)
  {
    var ts := Transitions(rows, now, cfg);
    var again := RefreshAll(rows, ts, now, ok);
    ProcessWritesMarkers(cfg, db, ts, now, ok);
    forall i | 0 <= i < |rows|
      ensures TransitionOf(again[i], now, cfg) == if rows[i].id in ok then None else TransitionOf(rows[i], now, cfg)
    {
      RowTransition(rows, i, now, cfg, ok);
    }
    FailedRows(rows, again, now, cfg, ok);
    RefreshedListing(db.servers, rows, ts, now, ok, Process(cfg, db, ts, now, ok).servers);
  }

  /** Retry fixpoint: after a tick nothing interleaved with, computing transitions again at the same
      instant, from whatever listing the query then returns, gives exactly the ones whose send failed. */
  lemma RetryFixpoint(cfg: Config, db: Db, rows: seq<ServerRow>, now: Instant, ok: set<Id>, next: seq<ServerRow>)
    requires IsListing(rows, db.servers)
    requires IsListing(next, Process(cfg, db, Transitions(rows, now, cfg), now, ok).servers)
    ensures multiset(Transitions(next, now, cfg)) == multiset(Failed(Transitions(rows, now, cfg), ok))
  {
    var ts := Transitions(rows, now, cfg);
    RefreshedTransitions(cfg, db, rows, now, ok);
    ListingsAgree(next, RefreshAll(rows, ts, now, ok), Process(cfg, db, ts, now, ok).servers, now, cfg);
  }

  /** And in the same order, if the query returns the servers in the same order. */
  lemma {:induction false} RetryInOrder(cfg: Config, db: Db, rows: seq<ServerRow>, now: Instant, ok: set<Id>, next: seq<ServerRow>)
    requires IsListing(rows, db.servers)
    requires IsListing(next, Process(cfg, db, Transitions(rows, now, cfg), now, ok).servers)
    requires |next| == |rows| && forall i :: 0 <= i < |rows| ==> next[i].id == rows[i].id
    ensures Transitions(next, now, cfg) == Failed(Transitions(rows, now, cfg), ok)
  {
    var ts := Transitions(rows, now, cfg);
    RefreshedTransitions(cfg, db, rows, now, ok);
    SameOrder(next, RefreshAll(rows, ts, now, ok), Process(cfg, db, ts, now, ok).servers);
  }

  lemma SameOrder(a: seq<ServerRow>, b: seq<ServerRow>, servers: Servers)
    requires IsListing(a, servers) && IsListing(b, servers)
    requires |a| == |b| && forall i :: 0 <= i < |a| ==> a[i].id == b[i].id
    ensures a == b
  {
    forall i | 0 <= i < |a| ensures a[i] == b[i] {
      assert a[i] in a && b[i] in b;
    }
  }

  lemma RefreshedRow(servers: Servers, rows: seq<ServerRow>, ts: seq<Transition>, now: Instant, ok: set<Id>, servers': Servers, i: nat)
    requires IsListing(rows, servers) && servers'.Keys == servers.Keys && i < |rows|
    requires forall id :: id in servers ==>
               servers'[id] == servers[id].(offlineAlertedAt := MarkerAfter(ts, now, ok, id, servers[id].offlineAlertedAt))
    ensures var r := Refresh(rows[i], ts, now, ok); r.id in servers' && servers'[r.id] == r
  {
    assert rows[i] in rows;
  }

  lemma RefreshedListing(servers: Servers, rows: seq<ServerRow>, ts: seq<Transition>, now: Instant, ok: set<Id>, servers': Servers)
    requires IsListing(rows, servers) && servers'.Keys == servers.Keys
    requires forall id :: id in servers ==>
               servers'[id] == servers[id].(offlineAlertedAt := MarkerAfter(ts, now, ok, id, servers[id].offlineAlertedAt))
    ensures IsListing(RefreshAll(rows, ts, now, ok), servers')
  {
    var again := RefreshAll(rows, ts, now, ok);
    forall i | 0 <= i < |again| ensures again[i].id in servers' && servers'[again[i].id] == again[i] {
      RefreshedRow(servers, rows, ts, now, ok, servers', i);
    }
    forall id | id in servers' ensures exists r :: r in again && r.id == id {
      var r :| r in rows && r.id == id;
      var i :| 0 <= i < |rows| && rows[i] == r;
      assert again[i] in again && again[i].id == id;
    }
  }
}
