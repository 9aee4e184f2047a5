/** The login limiter: a map from "username ip" to a failure record, refined to each pair's own
    history, and the real-time bound its backoff gives. */
module Limiter {
  import opened Base

  datatype Record = Record(failures: nat, blockedUntil: Instant)

  type Attempts = map<string, Record>

  const SEPARATOR: string := " "

  function Key(username: string, ip: string): string { username + SEPARATOR + ip }

  function Pow2(n: nat): (p: nat)
    ensures p >= 1
  {
    if n == 0 then 1 else 2 * Pow2(n - 1)
  }

  function Min(a: int, b: int): int { if a < b then a else b }

  /** Backoff after failure number `failures`, one past the threshold or more. */
  function Backoff(max: nat, base: nat, failures: nat): int
    requires failures > max
  {
    Min(base * Pow2(failures - max - 1), base * 16)
  }

  function AfterFailure(max: nat, base: nat, r: Record, clock: Instant): Record {
    var n := r.failures + 1;
    Record(n, if n > max then clock + Backoff(max, base, n) else r.blockedUntil)
  }

  // ----- the history a pair's answer depends on -----

  datatype Call = Failure(username: string, ip: string, at: Instant) | Success(username: string, ip: string)

  predicate About(c: Call, username: string, ip: string) { c.username == username && c.ip == ip }

  /** When the pair failed since its last success, oldest first. */
  function FailureTimes(log: seq<Call>, username: string, ip: string): seq<Instant> {
    if log == [] then []
    else
      var c := log[|log| - 1];
      if !About(c, username, ip) then FailureTimes(log[..|log| - 1], username, ip)
      else if c.Success? then []
      else FailureTimes(log[..|log| - 1], username, ip) + [c.at]
  }

  /** When the block from these failures ends; 0 until the threshold is passed. */
  function BlockedUntil(max: nat, base: nat, times: seq<Instant>): Instant {
    if |times| > max then times[|times| - 1] + Backoff(max, base, |times|) else 0
  }

  /** The answer of msUntilAllowed, from the pair's own failures alone. */
  function HistoryWait(max: nat, base: nat, times: seq<Instant>, clock: Instant): int {
    if times == [] || BlockedUntil(max, base, times) - clock <= 0 then 0 else BlockedUntil(max, base, times) - clock
  }

  /** The same, for all calls that compose to one key: what a map entry stands for. */
  function KeyTimes(log: seq<Call>, key: string): seq<Instant> {
    if log == [] then []
    else
      var c := log[|log| - 1];
      if Key(c.username, c.ip) != key then KeyTimes(log[..|log| - 1], key)
      else if c.Success? then []
      else KeyTimes(log[..|log| - 1], key) + [c.at]
  }

  ghost predicate Reflects(max: nat, base: nat, attempts: Attempts, log: seq<Call>) {
    forall key {:trigger KeyTimes(log, key)} ::
      var times := KeyTimes(log, key);
      (key in attempts <==> times != []) &&
      (times != [] ==> attempts[key] == Record(|times|, BlockedUntil(max, base, times)))
  }

  class LoginAttemptLimiter {
    const maxAttempts: nat
    const baseWindowMs: nat
    var attempts: Attempts
    /** Every recorded call, oldest first. */
    ghost var log: seq<Call>

    ghost predicate Valid()
      reads this
    {
      Reflects(maxAttempts, baseWindowMs, attempts, log)
    }

    constructor (max: nat := 5, base: nat := 30_000)
      ensures Valid() && log == [] && maxAttempts == max && baseWindowMs == base
    {
      maxAttempts, baseWindowMs := max, base;
      attempts := map[];
      log := [];
    }

    method MsUntilAllowed(username: string, ip: string, clock: Instant) returns (ms: int)
      requires Valid()
      ensures ms == HistoryWait(maxAttempts, baseWindowMs, KeyTimes(log, Key(username, ip)), clock)
    {
      var key := Key(username, ip);
      if key !in attempts {
        return 0;
      }
      var remaining := attempts[key].blockedUntil - clock;
      ms := if remaining > 0 then remaining else 0;
    }

    method RecordFailure(username: string, ip: string, clock: Instant)
      requires Valid()
      modifies this
      ensures Valid() && log == old(log) + [Failure(username, ip, clock)]
      ensures attempts.Keys == old(attempts).Keys + {Key(username, ip)}
    {
      var key := Key(username, ip);
      var record := if key in attempts then attempts[key] else Record(0, 0);
      record := record.(failures := record.failures + 1);
      if record.failures > maxAttempts {
        var overBy := record.failures - maxAttempts - 1;
        var backoffMs := Min(baseWindowMs * Pow2(overBy), baseWindowMs * 16);
        record := record.(blockedUntil := clock + backoffMs);
      }
      attempts := attempts[key := record];
      log := log + [Failure(username, ip, clock)];
      FailureReflected(maxAttempts, baseWindowMs, old(attempts), old(log), Failure(username, ip, clock));
    }

    method RecordSuccess(username: string, ip: string)
      requires Valid()
      modifies this
      ensures Valid() && log == old(log) + [Call.Success(username, ip)]
      ensures attempts.Keys == old(attempts).Keys - {Key(username, ip)}
    {
      attempts := attempts - {Key(username, ip)};
      log := log + [Call.Success(username, ip)];
      SuccessReflected(maxAttempts, baseWindowMs, old(attempts), old(log), Call.Success(username, ip));
    }
  }

  // ----- the composed key -----

  lemma SplitAtLastSpace(s: string, u: string, i: string)
    requires s == u + " " + i && ' ' !in i
    ensures |u| < |s| && s[|u|] == ' ' && u == s[..|u|] && i == s[|u| + 1..]
    ensures forall k :: |u| < k < |s| ==> s[k] != ' '
  {
    forall k | |u| < k < |s| ensures s[k] != ' ' { assert s[k] == i[k - |u| - 1]; }
  }

  lemma KeyInjective(u: string, i: string, v: string, j: string)
    requires ' ' !in i && ' ' !in j && Key(u, i) == Key(v, j)
    ensures u == v && i == j
  {
    SplitAtLastSpace(Key(u, i), u, i);
    SplitAtLastSpace(Key(v, j), v, j);
  }

  lemma LastSpace(s: string) returns (k: nat)
    requires ' ' in s
    ensures k < |s| && s[k] == ' ' && ' ' !in s[k + 1..]
  {
    k := |s| - 1;
    while s[k] != ' '
      invariant 0 <= k < |s| && ' ' !in s[k + 1..]
      decreases k
    {
      assert s[k..] == [s[k]] + s[k + 1..];
      assert exists i :: 0 <= i < k && s[i] == ' ';
      k := k - 1;
    }
  }

  /** Exactly when a pair shares its record with no real pair (one whose address has no separator):
      when its own address has none. */
  lemma KeySeparatesIff(u: string, ip: string)
    ensures (forall v: string, j: string {:trigger Key(v, j)} :: ' ' !in j && Key(v, j) == Key(u, ip) ==> v == u && j == ip) <==> ' ' !in ip
  {
    if ' ' in ip {
      var k := LastSpace(ip);
      var v, j := u + " " + ip[..k], ip[k + 1..];
      assert ip == ip[..k] + " " + j;
      assert Key(v, j) == Key(u, ip);
      assert |j| < |ip|;
    } else {
      forall v: string, j: string | ' ' !in j && Key(v, j) == Key(u, ip) ensures v == u && j == ip {
        KeyInjective(v, j, u, ip);
      }
    }
  }

  // ----- refinement -----

  lemma OneMoreKeyedCall(log: seq<Call>, c: Call, key: string)
    ensures KeyTimes(log + [c], key) ==
            if Key(c.username, c.ip) != key then KeyTimes(log, key) else if c.Success? then [] else KeyTimes(log, key) + [c.at]
  {
    assert (log + [c])[..|log|] == log;
  }

  lemma FailureReflected(max: nat, base: nat, attempts: Attempts, log: seq<Call>, c: Call)
    requires Reflects(max, base, attempts, log) && c.Failure?
    ensures var key := Key(c.username, c.ip);
            var r := if key in attempts then attempts[key] else Record(0, 0);
            Reflects(max, base, attempts[key := AfterFailure(max, base, r, c.at)], log + [c])
  {
    forall key { OneMoreKeyedCall(log, c, key); }
    assert KeyTimes(log, Key(c.username, c.ip)) == [] <==> Key(c.username, c.ip) !in attempts;
  }

  lemma SuccessReflected(max: nat, base: nat, attempts: Attempts, log: seq<Call>, c: Call)
    requires Reflects(max, base, attempts, log) && c.Success?
    ensures Reflects(max, base, attempts - {Key(c.username, c.ip)}, log + [c])
  {
    forall key { OneMoreKeyedCall(log, c, key); }
  }

  lemma OneMoreCall(log: seq<Call>, c: Call, u: string, ip: string)
    ensures FailureTimes(log + [c], u, ip) ==
            if !About(c, u, ip) then FailureTimes(log, u, ip) else if c.Success? then [] else FailureTimes(log, u, ip) + [c.at]
  {
    assert (log + [c])[..|log|] == log;
  }

  /** The map refines per-pair histories: however calls about other pairs interleave, a pair's entry
      depends on that pair's failures since its last success alone, as long as no address holds the
      separator. */
  lemma {:induction false} EntryIsPairHistory(log: seq<Call>, u: string, ip: string)
    requires ' ' !in ip && forall i :: 0 <= i < |log| ==> ' ' !in log[i].ip
    ensures KeyTimes(log, Key(u, ip)) == FailureTimes(log, u, ip)
  {
    if log == [] {
    } else {
      var c := log[|log| - 1];
      EntryIsPairHistory(log[..|log| - 1], u, ip);
      if Key(c.username, c.ip) == Key(u, ip) { KeyInjective(c.username, c.ip, u, ip); }
    }
  }

  // ----- real-time bound -----

  /** The login route as the limiter sees it: a gate check, and later the recorded outcome. */
  datatype LoginEvent = Gate(username: string, ip: string, at: Instant) | Outcome(call: Call)

  function Calls(es: seq<LoginEvent>): seq<Call> {
    if es == [] then []
    else Calls(es[..|es| - 1]) + if es[|es| - 1].Outcome? then [es[|es| - 1].call] else []
  }

  function Times(es: seq<LoginEvent>, u: string, ip: string): seq<Instant> { FailureTimes(Calls(es), u, ip) }

  /** The pair has passed the gate and its outcome is still out. */
  predicate Admitted(max: nat, base: nat, es: seq<LoginEvent>, u: string, ip: string) {
    es != [] &&
    var rest, e := es[..|es| - 1], es[|es| - 1];
    match e
    case Gate(v, j, at) =>
      if v == u && j == ip && HistoryWait(max, base, Times(rest, u, ip), at) == 0 then true
      else Admitted(max, base, rest, u, ip)
    case Outcome(c) => if About(c, u, ip) then false else Admitted(max, base, rest, u, ip)
  }

  predicate TimedBy(e: LoginEvent, now: Instant) {
    match e
    case Gate(_, _, at) => at <= now
    case Outcome(c) => c.Failure? ==> c.at <= now
  }

  /** The pair's attempts go one at a time, each through the gate, on a clock that does not run back. */
  predicate OneAtATime(max: nat, base: nat, es: seq<LoginEvent>, u: string, ip: string) {
    es == [] ||
    var rest, e := es[..|es| - 1], es[|es| - 1];
    && OneAtATime(max, base, rest, u, ip)
    && (e.Outcome? && About(e.call, u, ip) ==> Admitted(max, base, rest, u, ip))
    && (e.Outcome? && e.call.Failure? ==> forall i :: 0 <= i < |rest| ==> TimedBy(rest[i], e.call.at))
  }

  lemma OneMoreOutcome(max: nat, base: nat, es: seq<LoginEvent>, c: Call)
    requires OneAtATime(max, base, es, c.username, c.ip) && Admitted(max, base, es, c.username, c.ip)
    requires c.Failure? ==> forall e :: e in es ==> TimedBy(e, c.at)
    ensures OneAtATime(max, base, es + [Outcome(c)], c.username, c.ip)
  {
    assert (es + [Outcome(c)])[..|es|] == es;
  }

  lemma TimesStep(es: seq<LoginEvent>, u: string, ip: string)
    requires es != []
    ensures var rest, e := es[..|es| - 1], es[|es| - 1];
            Times(es, u, ip) ==
            if e.Gate? || !About(e.call, u, ip) then Times(rest, u, ip)
            else if e.call.Success? then [] else Times(rest, u, ip) + [e.call.at]
  {
    var rest, e := es[..|es| - 1], es[|es| - 1];
    if e.Outcome? { OneMoreCall(Calls(rest), e.call, u, ip); } else { assert Calls(es) == Calls(rest); }
  }

  lemma {:induction false} AdmittedIsUnblocked(max: nat, base: nat, es: seq<LoginEvent>, u: string, ip: string, now: Instant)
    requires Admitted(max, base, es, u, ip) && forall i :: 0 <= i < |es| ==> TimedBy(es[i], now)
    ensures Times(es, u, ip) == [] || BlockedUntil(max, base, Times(es, u, ip)) <= now
  {
    var rest, e := es[..|es| - 1], es[|es| - 1];
    TimesStep(es, u, ip);
    assert TimedBy(e, now);
    if !(e.Gate? && e.username == u && e.ip == ip && HistoryWait(max, base, Times(rest, u, ip), e.at) == 0) {
      forall i | 0 <= i < |rest| ensures TimedBy(rest[i], now) { assert rest[i] == es[i]; }
      AdmittedIsUnblocked(max, base, rest, u, ip, now);
    }
  }

  /** Past the threshold, each failure waits out the backoff of the one before it. */
  ghost predicate Spaced(max: nat, base: nat, times: seq<Instant>) {
    forall i :: max < i < |times| ==> times[i] >= times[i - 1] + Backoff(max, base, i)
  }

  // ----- attempts that pass the gate together -----

  /** A gate asked at `at` would let the pair through. */
  predicate Open(max: nat, base: nat, times: seq<Instant>, at: Instant) {
    |times| > max ==> BlockedUntil(max, base, times) <= at
  }

  lemma OpenIsZeroWait(max: nat, base: nat, times: seq<Instant>, at: Instant)
    requires at >= 0
    ensures Open(max, base, times, at) <==> HistoryWait(max, base, times, at) == 0
  {
  }

  /** Every failure since the pair's last success was recorded at an instant at which the gate, asked
      again, would still have let the pair through. */
  predicate RecordedOpen(max: nat, base: nat, es: seq<LoginEvent>, u: string, ip: string) {
    es == [] ||
    var rest, e := es[..|es| - 1], es[|es| - 1];
    if e.Gate? || !About(e.call, u, ip) then RecordedOpen(max, base, rest, u, ip)
    else e.call.Success? || (RecordedOpen(max, base, rest, u, ip) && Open(max, base, Times(rest, u, ip), e.call.at))
  }

  lemma SpacedOneMore(max: nat, base: nat, times: seq<Instant>, at: Instant)
    ensures Spaced(max, base, times + [at]) <==> Spaced(max, base, times) && Open(max, base, times, at)
  {
    var more := times + [at];
    if Spaced(max, base, more) {
      forall i | max < i < |times| ensures times[i] >= times[i - 1] + Backoff(max, base, i) {
        assert more[i] >= more[i - 1] + Backoff(max, base, i);
      }
      if |times| > max { assert more[|times|] >= more[|times| - 1] + Backoff(max, base, |times|); }
    }
  }

  /** Exactly when a pair's failures are spaced, for any events whatever: attempts may pass the gate
      together, and outcomes may come without one. */
  lemma {:induction false} SpacedIff(max: nat, base: nat, es: seq<LoginEvent>, u: string, ip: string)
    ensures Spaced(max, base, Times(es, u, ip)) <==> RecordedOpen(max, base, es, u, ip)
  {
    if es == [] {
    } else {
      var rest, e := es[..|es| - 1], es[|es| - 1];
      SpacedIff(max, base, rest, u, ip);
      TimesStep(es, u, ip);
      if e.Outcome? && About(e.call, u, ip) && e.call.Failure? {
        SpacedOneMore(max, base, Times(rest, u, ip), e.call.at);
      }
    }
  }

  lemma {:induction false} OneAtATimeIsOpen(max: nat, base: nat, es: seq<LoginEvent>, u: string, ip: string)
    requires OneAtATime(max, base, es, u, ip)
    ensures RecordedOpen(max, base, es, u, ip)
  {
    if es == [] {
    } else {
      var rest, e := es[..|es| - 1], es[|es| - 1];
      OneAtATimeIsOpen(max, base, rest, u, ip);
      if e.Outcome? && About(e.call, u, ip) && e.call.Failure? {
        AdmittedIsUnblocked(max, base, rest, u, ip, e.call.at);
      }
    }
  }

  lemma FailuresAreSpaced(max: nat, base: nat, es: seq<LoginEvent>, u: string, ip: string)
    requires OneAtATime(max, base, es, u, ip)
    ensures Spaced(max, base, Times(es, u, ip))
  {
    OneAtATimeIsOpen(max, base, es, u, ip);
    SpacedIff(max, base, es, u, ip);
  }

  /** How many of the pair's attempts have passed the gate and not been answered. */
  function InFlight(max: nat, base: nat, es: seq<LoginEvent>, u: string, ip: string): int {
    if es == [] then 0
    else
      var rest, e := es[..|es| - 1], es[|es| - 1];
      var before := InFlight(max, base, rest, u, ip);
      match e
      case Gate(v, j, at) => if v == u && j == ip && HistoryWait(max, base, Times(rest, u, ip), at) == 0 then before + 1 else before
      case Outcome(c) => if About(c, u, ip) then before - 1 else before
  }

  /** All the route guarantees: every outcome of the pair belongs to an attempt that passed the gate. */
  predicate Gated(max: nat, base: nat, es: seq<LoginEvent>, u: string, ip: string) {
    es == [] ||
    var rest, e := es[..|es| - 1], es[|es| - 1];
    Gated(max, base, rest, u, ip) && (e.Outcome? && About(e.call, u, ip) ==> InFlight(max, base, rest, u, ip) > 0)
  }

  /** `n` attempts pass the gate at instant `t`, before any is answered ... */
  lemma {:induction false} TogetherThroughTheGate(max: nat, base: nat, u: string, ip: string, t: Instant, n: nat) returns (es: seq<LoginEvent>)
    ensures Gated(max, base, es, u, ip) && InFlight(max, base, es, u, ip) == n && Times(es, u, ip) == []
    ensures forall e :: e in es ==> TimedBy(e, t)
  {
    if n == 0 {
      es := [];
    } else {
      var rest := TogetherThroughTheGate(max, base, u, ip, t, n - 1);
      es := rest + [Gate(u, ip, t)];
      assert es[..|es| - 1] == rest;
      TimesStep(es, u, ip);
    }
  }

  /** ... and then `n` of them fail, all at `t`. */
  lemma {:induction false} TogetherFailing(max: nat, base: nat, u: string, ip: string, t: Instant, m: nat, n: nat) returns (es: seq<LoginEvent>)
    requires n <= m
    ensures Gated(max, base, es, u, ip) && InFlight(max, base, es, u, ip) == m - n && Times(es, u, ip) == seq(n, _ => t)
    ensures forall e :: e in es ==> TimedBy(e, t)
  {
    if n == 0 {
      es := TogetherThroughTheGate(max, base, u, ip, t, m);
    } else {
      var rest := TogetherFailing(max, base, u, ip, t, m, n - 1);
      es := rest + [Outcome(Failure(u, ip, t))];
      assert es[..|es| - 1] == rest;
      TimesStep(es, u, ip);
    }
  }

  /** The route does not hold attempts apart: for any threshold (the shipped 5 included) and any positive
      window, max+2 attempts that pass the gate before the first of them is answered can all fail at
      one instant, and none waits out the block that failure max+1 set. */
  lemma ConcurrentAttemptsAreNotSpaced(max: nat, base: nat, u: string, ip: string, t: Instant)
    requires base > 0
    ensures exists es :: Gated(max, base, es, u, ip) && (forall e :: e in es ==> TimedBy(e, t))
                         && |Times(es, u, ip)| == max + 2 && Times(es, u, ip)[max + 1] == Times(es, u, ip)[max]
                         && !Spaced(max, base, Times(es, u, ip))
  {
    var es := TogetherFailing(max, base, u, ip, t, max + 2, max + 2);
    var times := Times(es, u, ip);
    assert times[max + 1] == t && times[max] == t;
    assert Pow2(0) == 1 && Backoff(max, base, max + 1) == base;
  }

  /** Sum of the first `k` backoffs in units of the base window: 1 + 2 + 4 + 8 + 16, then 16 each. */
  function Windows(k: nat): nat { if k <= 5 then Pow2(k) - 1 else 31 + 16 * (k - 5) }

  lemma Doubling(k: nat)
    ensures k >= 4 ==> Pow2(k) >= 16
  {
  }

  lemma NextWindow(max: nat, base: nat, k: nat)
    ensures base * Windows(k + 1) == base * Windows(k) + Backoff(max, base, max + 1 + k)
  {
    Doubling(k);
    if k <= 4 {
      assert Windows(k + 1) == Windows(k) + Pow2(k);
      assert Pow2(0) == 1 && Pow2(1) == 2 && Pow2(2) == 4 && Pow2(3) == 8 && Pow2(4) == 16;
      assert Pow2(k) <= 16;
      assert base * Pow2(k) <= base * 16;
      assert base * (Windows(k) + Pow2(k)) == base * Windows(k) + base * Pow2(k);
    } else {
      assert Pow2(5) == 32 by { assert Pow2(4) == 16; }
      assert Windows(k + 1) == Windows(k) + 16;
      assert base * Pow2(k) >= base * 16;
      assert base * (Windows(k) + 16) == base * Windows(k) + base * 16;
    }
  }

  lemma {:induction false} SpacedGrows(max: nat, base: nat, times: seq<Instant>, k: nat)
    requires Spaced(max, base, times) && max + k < |times|
    ensures times[max + k] >= times[max] + base * Windows(k)
  {
    if k == 0 {
      assert Windows(0) == 0;
    } else {
      SpacedGrows(max, base, times, k - 1);
      NextWindow(max, base, k - 1);
    }
  }

  /** Backoff has a real time bound wherever failures are recorded open, concurrent attempts or not:
      failure max+1+k since the pair's last success comes at least base * (2^k - 1) ms after failure
      max+1 for k <= 5, and base * (31 + 16 (k - 5)) ms beyond. */
  lemma OpenBound(max: nat, base: nat, es: seq<LoginEvent>, u: string, ip: string, k: nat)
    requires RecordedOpen(max, base, es, u, ip) && max + k < |Times(es, u, ip)|
    ensures var times := Times(es, u, ip);
            times[max + k] - times[max] >= base * if k <= 5 then Pow2(k) - 1 else 31 + 16 * (k - 5)
  {
    SpacedIff(max, base, es, u, ip);
    SpacedGrows(max, base, Times(es, u, ip), k);
  }

  /** The same for a pair whose attempts go through the gate one at a time, however other pairs' logins
      interleave. */
  lemma BackoffBound(max: nat, base: nat, es: seq<LoginEvent>, u: string, ip: string, k: nat)
    requires OneAtATime(max, base, es, u, ip) && max + k < |Times(es, u, ip)|
    ensures var times := Times(es, u, ip);
            times[max + k] - times[max] >= base * if k <= 5 then Pow2(k) - 1 else 31 + 16 * (k - 5)
  {
    OneAtATimeIsOpen(max, base, es, u, ip);
    OpenBound(max, base, es, u, ip, k);
  }

  /** Nobody is wedged out: the remaining block never exceeds 16 windows, and the first `max` failures
      do not block at all. */
  lemma BlockIsBounded(max: nat, base: nat, times: seq<Instant>, clock: Instant)
    requires times != [] ==> times[|times| - 1] <= clock
    requires clock >= 0
    ensures 0 <= HistoryWait(max, base, times, clock) <= 16 * base
    ensures |times| <= max ==> HistoryWait(max, base, times, clock) == 0
  {
  }

  /** A refused caller is told exactly how long: asked again at any later instant, the gate is open from the
      announced moment on and not before. */
  lemma WaitIsExact(max: nat, base: nat, times: seq<Instant>, clock: Instant, later: Instant)
    requires 0 <= clock <= later
    ensures HistoryWait(max, base, times, later) == 0 <==> later >= clock + HistoryWait(max, base, times, clock)
  {
  }

  /** When the block ends: after the first `max` failures there is none; failure max+1+k blocks for 1, 2, 4, 8
      and then always 16 windows from its own instant. */
  lemma BlockEndsAt(max: nat, base: nat, times: seq<Instant>, clock: Instant, k: nat)
    requires clock >= 0 && |times| == max + 1 + k
    ensures HistoryWait(max, base, times, clock) == 0 <==>
            clock >= times[max + k] + base * (if k == 0 then 1 else if k == 1 then 2 else if k == 2 then 4 else if k == 3 then 8 else 16)
  {
    Doubling(k);
    assert Pow2(0) == 1 && Pow2(1) == 2 && Pow2(2) == 4 && Pow2(3) == 8;
    assert Backoff(max, base, |times|) == Min(base * Pow2(k), base * 16);
    if k >= 4 { assert base * Pow2(k) >= base * 16; }
  }

  /** The shipped defaults: the sixth failure blocks for half a minute, no block exceeds eight minutes. */
  lemma DefaultWindows(times: seq<Instant>)
    requires |times| > 5
    ensures |times| == 6 ==> BlockedUntil(5, 30_000, times) == times[5] + 30_000
    ensures |times| >= 10 ==> BlockedUntil(5, 30_000, times) == times[|times| - 1] + 480_000
  {
    Doubling(|times| - 6);
    assert Pow2(0) == 1;
  }
}
