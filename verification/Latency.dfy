/** How late the first offline alert can be, over every run of the monitor: requests interleave at every
    await, ticks may overlap, sends may fail. */
module Latency {
  import opened Base
  import opened Store
  import opened Routes
  import opened Monitor

  /** An acknowledged alert, with the clock reading of the tick that sent it. */
  datatype Alert = Alert(kind: Kind, at: Instant)

  /** The alerts about `id` acknowledged after the first `m` events, oldest first. */
  ghost function Alerts(cfg: Config, es: seq<Event>, m: nat, id: Id): seq<Alert> {
    if |es| <= m then []
    else
      var s, e := StateAfter(cfg, es[..|es| - 1]), es[|es| - 1];
      var a := Ack(s, e);
      Alerts(cfg, es[..|es| - 1], m, id) +
      if a.Some? && a.value.id == id then [Alert(a.value.kind, s.ticks[e.tick].now)] else []
  }

  predicate FailsFor(s: State, e: Event, id: Id) { Awaited(s, e) && !e.ok && s.ticks[e.tick].pending[0].id == id }

  /** The ticks whose send about `id` failed after the first `m` events. */
  ghost function FailedTicks(cfg: Config, es: seq<Event>, m: nat, id: Id): set<nat> {
    if |es| <= m then {}
    else
      var s, e := StateAfter(cfg, es[..|es| - 1]), es[|es| - 1];
      FailedTicks(cfg, es[..|es| - 1], m, id) + if FailsFor(s, e, id) then {e.tick} else {}
  }

  /** The tick still has a transition of `id` to send, or awaits the reply. */
  predicate Waiting(t: Tick, id: Id) { exists j :: 0 <= j < |t.pending| && t.pending[j].id == id }

  /** No marker, and nothing about `id` on its way. */
  predicate Quiet(s: State, id: Id) {
    !Marked(s, id) && forall k :: 0 <= k < |s.ticks| ==> !Waiting(s.ticks[k], id)
  }

  /** A tick's snapshot shows `id` approved and last heard from at `h`; the clock does not run backwards. */
  predicate SilentSnapshot(s: State, first: nat, id: Id, h: Instant, now: Instant) {
    && id in s.db.servers && s.db.servers[id].status == Approved && s.db.servers[id].lastHeartbeatAt == Some(h)
    && forall k :: first <= k < |s.ticks| ==> s.ticks[k].now <= now
  }

  /** At every tick after the first `m` events, `first` being the next tick's number. */
  ghost predicate SilentSince(cfg: Config, es: seq<Event>, m: nat, first: nat, id: Id, h: Instant) {
    |es| <= m ||
    (SilentSince(cfg, es[..|es| - 1], m, first, id, h) &&
     (es[|es| - 1].Start? ==> SilentSnapshot(StateAfter(cfg, es[..|es| - 1]), first, id, h, es[|es| - 1].now)))
  }

  // ----- what every step keeps -----

  /** Tick `k` has alerted, was preceded by an alert, failed, or has not sent yet. */
  predicate Served(s: State, k: nat, id: Id, alerts: seq<Alert>, failed: set<nat>)
    requires k < |s.ticks|
  {
    k in failed || Waiting(s.ticks[k], id) || exists i :: 0 <= i < |alerts| && alerts[i].at <= s.ticks[k].now
  }

  predicate SentBy(s: State, first: nat, a: Alert, due: Instant) {
    a.kind == WentOffline && a.at > due && exists k :: first <= k < |s.ticks| && s.ticks[k].now == a.at
  }

  predicate OnlyOffline(t: Tick, id: Id, due: Instant) {
    forall j :: 0 <= j < |t.pending| && t.pending[j].id == id ==> t.pending[j].kind == WentOffline && t.now > due
  }

  ghost predicate OnTrack(s: State, first: nat, id: Id, due: Instant, alerts: seq<Alert>, failed: set<nat>) {
    && first <= |s.ticks|
    && (Marked(s, id) <==> alerts != [])
    && (forall i :: 0 <= i < |alerts| ==> SentBy(s, first, alerts[i], due))
    && (forall k :: 0 <= k < |s.ticks| ==> OnlyOffline(s.ticks[k], id, due) && (Waiting(s.ticks[k], id) ==> k >= first))
    && (forall k :: first <= k < |s.ticks| && s.ticks[k].now > due ==> Served(s, k, id, alerts, failed))
  }

  /** What a tick that starts in the silence has to send about `id`. */
  lemma StartSends(cfg: Config, s: State, e: Event, first: nat, id: Id, h: Instant)
    requires e.Start? && Possible(s, e) && SilentSnapshot(s, first, id, h, e.now)
    ensures var t, due := Tick(e.now, Transitions(e.rows, e.now, cfg)), h + Window(cfg);
            && (Marked(s, id) && e.now > due ==> !Waiting(t, id))
            && (!Marked(s, id) ==> OnlyOffline(t, id, due) && (Waiting(t, id) <==> e.now > due))
  {
    var due := h + Window(cfg);
    var t := Tick(e.now, Transitions(e.rows, e.now, cfg));
    forall j | 0 <= j < |t.pending| && t.pending[j].id == id
      ensures TransitionOf(s.db.servers[id], e.now, cfg) == Some(t.pending[j].kind)
    {
      assert t.pending[j] in t.pending;
      ListedTransition(e.rows, s.db.servers, t.pending[j], e.now, cfg);
    }
    if !Marked(s, id) && e.now > due {
      ListedTransition(e.rows, s.db.servers, Transition(id, WentOffline), e.now, cfg);
      var j :| 0 <= j < |t.pending| && t.pending[j] == Transition(id, WentOffline);
    }
  }

  lemma StartOnTrack(cfg: Config, s: State, e: Event, first: nat, id: Id, h: Instant, alerts: seq<Alert>, failed: set<nat>)
    requires e.Start? && Possible(s, e) && SilentSnapshot(s, first, id, h, e.now)
    requires OnTrack(s, first, id, h + Window(cfg), alerts, failed)
    ensures OnTrack(Next(cfg, s, e), first, id, h + Window(cfg), alerts, failed)
  {
    var t := Tick(e.now, Transitions(e.rows, e.now, cfg));
    StartSends(cfg, s, e, first, id, h);
    if alerts != [] { assert SentBy(s, first, alerts[0], h + Window(cfg)); }
    OneMoreTick(s, t, first, id, h + Window(cfg), alerts, failed);
  }

  lemma OneMoreTick(s: State, t: Tick, first: nat, id: Id, due: Instant, alerts: seq<Alert>, failed: set<nat>)
    requires OnTrack(s, first, id, due, alerts, failed) && OnlyOffline(t, id, due)
    requires alerts == [] && t.now > due ==> Waiting(t, id)
    requires alerts != [] ==> alerts[0].at <= t.now
    ensures OnTrack(s.(ticks := s.ticks + [t]), first, id, due, alerts, failed)
  {
    var s' := s.(ticks := s.ticks + [t]);
    forall k | first <= k < |s'.ticks| && s'.ticks[k].now > due ensures Served(s', k, id, alerts, failed) {
      if k < |s.ticks| { assert Served(s, k, id, alerts, failed); }
    }
    forall i | 0 <= i < |alerts| ensures SentBy(s', first, alerts[i], due) {
      assert SentBy(s, first, alerts[i], due);
      var k :| first <= k < |s.ticks| && s.ticks[k].now == alerts[i].at;
      assert s'.ticks[k].now == alerts[i].at;
    }
  }

  /** What is left of a tick once its first transition has been answered. */
  lemma RestOfTick(t: Tick, id: Id, due: Instant)
    requires t.pending != [] && OnlyOffline(t, id, due)
    ensures OnlyOffline(Tick(t.now, t.pending[1..]), id, due)
    ensures Waiting(Tick(t.now, t.pending[1..]), id) ==> Waiting(t, id)
    ensures Waiting(t, id) && t.pending[0].id != id ==> Waiting(Tick(t.now, t.pending[1..]), id)
  {
    var rest := Tick(t.now, t.pending[1..]);
    if j :| 0 <= j < |rest.pending| && rest.pending[j].id == id {
      assert t.pending[j + 1].id == id;
    }
    if t.pending[0].id != id {
      if j :| 0 <= j < |t.pending| && t.pending[j].id == id {
        assert rest.pending[j - 1].id == id;
      }
    }
  }

  lemma ReplyOnTrack(cfg: Config, s: State, e: Event, first: nat, id: Id, due: Instant, alerts: seq<Alert>, failed: set<nat>)
    requires Awaited(s, e) && KnownTicks(s) && Possible(s, e) && OnTrack(s, first, id, due, alerts, failed)
    ensures var a := Ack(s, e);
            OnTrack(Next(cfg, s, e), first, id, due,
                    alerts + (if a.Some? && a.value.id == id then [Alert(a.value.kind, s.ticks[e.tick].now)] else []),
                    failed + if FailsFor(s, e, id) then {e.tick} else {})
  {
    var s', i := Next(cfg, s, e), e.tick;
    var t := s.ticks[i];
    var about := t.pending[0].id == id;
    var alerts' := alerts + if e.ok && about then [Alert(t.pending[0].kind, t.now)] else [];
    var failed' := failed + if !e.ok && about then {i} else {};
    StepMoves(cfg, s, e, id);
    RestOfTick(t, id, due);
    assert s'.ticks == s.ticks[i := Tick(t.now, t.pending[1..])];
    if about { assert Waiting(t, id) && OnlyOffline(t, id, due); }
    forall k | first <= k < |s'.ticks| && s'.ticks[k].now > due ensures Served(s', k, id, alerts', failed') {
      assert Served(s, k, id, alerts, failed);
      if j :| 0 <= j < |alerts| && alerts[j].at <= s.ticks[k].now {
        assert alerts'[j].at <= s'.ticks[k].now;
      } else if k == i && about && e.ok {
        assert alerts'[|alerts|].at <= s'.ticks[k].now;
      }
    }
    forall j | 0 <= j < |alerts'| ensures SentBy(s', first, alerts'[j], due) {
      if j < |alerts| {
        assert SentBy(s, first, alerts[j], due);
        var k :| first <= k < |s.ticks| && s.ticks[k].now == alerts[j].at;
        assert s'.ticks[k].now == alerts'[j].at;
      } else {
        assert s'.ticks[i].now == alerts'[j].at;
      }
    }
  }

  lemma EnvOnTrack(cfg: Config, s: State, e: Event, first: nat, id: Id, due: Instant, alerts: seq<Alert>, failed: set<nat>)
    requires e.Env? && KnownTicks(s) && Possible(s, e) && OnTrack(s, first, id, due, alerts, failed)
    ensures OnTrack(Next(cfg, s, e), first, id, due, alerts, failed)
  {
    StepMoves(cfg, s, e, id);
    var s' := Next(cfg, s, e);
    forall k | first <= k < |s'.ticks| && s'.ticks[k].now > due ensures Served(s', k, id, alerts, failed) {
      assert Served(s, k, id, alerts, failed);
    }
    forall i | 0 <= i < |alerts| ensures SentBy(s', first, alerts[i], due) {
      assert SentBy(s, first, alerts[i], due);
    }
  }

  lemma StepOnTrack(cfg: Config, s: State, e: Event, first: nat, id: Id, h: Instant, alerts: seq<Alert>, failed: set<nat>)
    requires KnownTicks(s) && Possible(s, e) && (e.Start? ==> SilentSnapshot(s, first, id, h, e.now))
    requires OnTrack(s, first, id, h + Window(cfg), alerts, failed)
    ensures var a := Ack(s, e);
            OnTrack(Next(cfg, s, e), first, id, h + Window(cfg),
                    alerts + (if a.Some? && a.value.id == id then [Alert(a.value.kind, s.ticks[e.tick].now)] else []),
                    failed + if FailsFor(s, e, id) then {e.tick} else {})
  {
    assert alerts + [] == alerts && failed + {} == failed;
    if Awaited(s, e) {
      ReplyOnTrack(cfg, s, e, first, id, h + Window(cfg), alerts, failed);
    } else if e.Start? {
      StartOnTrack(cfg, s, e, first, id, h, alerts, failed);
    } else if e.Env? {
      EnvOnTrack(cfg, s, e, first, id, h + Window(cfg), alerts, failed);
    }
  }

  /** While `id` is silent, every alert about it says went-offline and was sent by a tick past the window;
      and every tick past the window has alerted, follows an alert, failed, or has not sent yet. */
  lemma {:induction false} SilentRun(cfg: Config, es: seq<Event>, m: nat, first: nat, id: Id, h: Instant)
    requires IsMonitorRun(cfg, es) && m <= |es| && SilentSince(cfg, es, m, first, id, h)
    requires Quiet(StateAfter(cfg, es[..m]), id) && first == |StateAfter(cfg, es[..m]).ticks|
    ensures OnTrack(StateAfter(cfg, es), first, id, h + Window(cfg), Alerts(cfg, es, m, id), FailedTicks(cfg, es, m, id))
  {
    if |es| == m {
      assert es[..m] == es;
    } else {
      var rest := es[..|es| - 1];
      assert rest[..m] == es[..m];
      SilentRun(cfg, rest, m, first, id, h);
      TicksAreKnown(cfg, rest);
      StepOnTrack(cfg, StateAfter(cfg, rest), es[|es| - 1], first, id, h, Alerts(cfg, rest, m, id), FailedTicks(cfg, rest, m, id));
    }
  }

  /** Never within the window: as long as no tick is past it, nothing about `id` is acknowledged. */
  lemma NoAlertYet(cfg: Config, es: seq<Event>, m: nat, first: nat, id: Id, h: Instant)
    requires IsMonitorRun(cfg, es) && m <= |es| && SilentSince(cfg, es, m, first, id, h)
    requires Quiet(StateAfter(cfg, es[..m]), id) && first == |StateAfter(cfg, es[..m]).ticks|
    requires forall k :: first <= k < |StateAfter(cfg, es).ticks| ==> StateAfter(cfg, es).ticks[k].now - h <= cfg.expectedIntervalMinutes * cfg.missedThreshold * 60_000
    ensures Alerts(cfg, es, m, id) == []
  {
    SilentRun(cfg, es, m, first, id, h);
    var alerts := Alerts(cfg, es, m, id);
    assert alerts != [] ==> SentBy(StateAfter(cfg, es), first, alerts[0], h + Window(cfg));
  }

  /** The first tick past the window. */
  function FirstAttempt(start: Instant, interval: nat, due: Instant): (a: nat)
    requires interval > 0
    ensures start + a * interval > due
    ensures a == 0 || start + (a - 1) * interval <= due
  {
    if start > due then 0
    else
      var q := (due - start) / interval;
      assert (due - start) == interval * q + (due - start) % interval;
      q + 1
  }

  lemma AttemptTime(start: Instant, interval: nat, due: Instant, n: nat)
    requires interval > 0 && start <= due + interval
    ensures due < start + (FirstAttempt(start, interval, due) + n) * interval <= due + (n + 1) * interval
  {
    var a := FirstAttempt(start, interval, due);
    assert (a + n) * interval == a * interval + n * interval;
    if a > 0 { assert a * interval == (a - 1) * interval + interval; }
    assert (n + 1) * interval == n * interval + interval;
    assert 0 <= n * interval;
  }

  predicate Periodic(ticks: seq<Tick>, first: nat, start: Instant, interval: nat) {
    forall k :: first <= k < |ticks| ==> ticks[k].now == start + (k - first) * interval
  }

  /** Latency: let `id` be silent since `h`, unmarked, and checked every `interval`, the first time no later
      than one interval past `due`, when its missed intervals are over. Number the ticks past `due` from 0.
      Once tick `n` has sent what it had to send about `id` and that send did not fail, went-offline has been
      acknowledged, sent after `due` and no later than due + (n + 1) * interval; so `n` failed attempts cost at
      most `n` intervals. Every alert acknowledged in the silence says went-offline and was sent after `due`. */
  lemma AlertLatency(cfg: Config, es: seq<Event>, m: nat, first: nat, id: Id, h: Instant, due: Instant, start: Instant, interval: nat, n: nat)
    requires due == h + cfg.expectedIntervalMinutes * cfg.missedThreshold * 60_000
    requires IsMonitorRun(cfg, es) && m <= |es| && SilentSince(cfg, es, m, first, id, h)
    requires Quiet(StateAfter(cfg, es[..m]), id) && first == |StateAfter(cfg, es[..m]).ticks|
    requires interval > 0 && start <= due + interval && Periodic(StateAfter(cfg, es).ticks, first, start, interval)
    requires var k, ticks := first + FirstAttempt(start, interval, due) + n, StateAfter(cfg, es).ticks;
             k < |ticks| && !Waiting(ticks[k], id) && k !in FailedTicks(cfg, es, m, id)
    ensures exists a :: a in Alerts(cfg, es, m, id) && a.at <= due + (n + 1) * interval
    ensures forall a :: a in Alerts(cfg, es, m, id) ==> a.kind == WentOffline && a.at > due
  {
    var s, alerts, failed := StateAfter(cfg, es), Alerts(cfg, es, m, id), FailedTicks(cfg, es, m, id);
    var k := first + FirstAttempt(start, interval, due) + n;
    AttemptTime(start, interval, due, n);
    assert s.ticks[k].now == start + (k - first) * interval;
    SilentRun(cfg, es, m, first, id, h);
    assert Served(s, k, id, alerts, failed);
    var i :| 0 <= i < |alerts| && alerts[i].at <= s.ticks[k].now;
    assert alerts[i] in alerts;
    AllOffline(s, first, id, due, alerts, failed);
  }

  function Kinds(alerts: seq<Alert>): seq<Kind> { seq(|alerts|, i requires 0 <= i < |alerts| => alerts[i].kind) }

  lemma {:induction false} AlertsAreAcks(cfg: Config, es: seq<Event>, m: nat, id: Id)
    requires m <= |es|
    ensures Acks(cfg, es, id) == Acks(cfg, es[..m], id) + Kinds(Alerts(cfg, es, m, id))
  {
    if |es| == m {
      assert es[..m] == es;
    } else {
      var rest := es[..|es| - 1];
      assert rest[..m] == es[..m];
      AlertsAreAcks(cfg, rest, m, id);
      var before, all := Alerts(cfg, rest, m, id), Alerts(cfg, es, m, id);
      if all != before { assert Kinds(all) == Kinds(before) + [all[|before|].kind]; }
    }
  }

  lemma OneOffline(acks: seq<Kind>, before: seq<Kind>, alerts: seq<Alert>)
    requires Alternates(acks) && acks == before + Kinds(alerts)
    requires forall i :: 0 <= i < |alerts| ==> alerts[i].kind == WentOffline
    ensures |alerts| <= 1
  {
    if alerts != [] {
      var n, k := |before|, |alerts| - 1;
      var j := if k > 0 then k - 1 else k;
      assert acks[n + j] == alerts[j].kind && acks[n + k] == alerts[k].kind;
    }
  }

  lemma AllOffline(s: State, first: nat, id: Id, due: Instant, alerts: seq<Alert>, failed: set<nat>)
    requires OnTrack(s, first, id, due, alerts, failed)
    ensures forall i :: 0 <= i < |alerts| ==> alerts[i].kind == WentOffline && alerts[i].at > due
  {
    assert forall i :: 0 <= i < |alerts| ==> SentBy(s, first, alerts[i], due);
  }

  /** When ticks do not overlap either, a silence is alerted at most once. */
  lemma OneAlert(cfg: Config, es: seq<Event>, m: nat, first: nat, id: Id, h: Instant)
    requires IsMonitorRun(cfg, es) && m <= |es| && SilentSince(cfg, es, m, first, id, h) && NoOverlap(cfg, es)
    requires Quiet(StateAfter(cfg, es[..m]), id) && first == |StateAfter(cfg, es[..m]).ticks|
    ensures |Alerts(cfg, es, m, id)| <= 1
  {
    var alerts := Alerts(cfg, es, m, id);
    SilentRun(cfg, es, m, first, id, h);
    AllOffline(StateAfter(cfg, es), first, id, h + Window(cfg), alerts, FailedTicks(cfg, es, m, id));
    AlertsAlternate(cfg, es, id);
    AlertsAreAcks(cfg, es, m, id);
    OneOffline(Acks(cfg, es, id), Acks(cfg, es[..m], id), alerts);
  }
}
