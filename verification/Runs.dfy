/** Whole runs from the empty store, and the credential life of a server as a function of what the
    requests were answered: claims, polls, keys. */
module Runs {
  import opened Base
  import opened Events
  import opened Store
  import opened Routes

  type History = seq<Step>

  function Front(h: History): History
    requires h != []
  {
    h[..|h| - 1]
  }

  function Last(h: History): Step
    requires h != []
  {
    h[|h| - 1]
  }

  ghost function After(cfg: Config, h: History): Db {
    if h == [] then EMPTY else Apply(cfg, After(cfg, Front(h)), Last(h)).0
  }

  /** The answer the last request of `h` got. */
  ghost function LastAnswer(cfg: Config, h: History): Answer
    requires h != []
  {
    Apply(cfg, After(cfg, Front(h)), Last(h)).1
  }

  function Issued(h: History): set<string> {
    if h == [] then {} else Issued(Front(h)) + Generated(Last(h).req)
  }

  /** The clock does not run backwards before `now`. */
  predicate NotBefore(h: History, now: Instant) { h == [] || Last(h).now <= now }

  /** Clock readings do not decrease and generated tokens are fresh; nothing else is assumed. */
  predicate IsRun(h: History) {
    h == [] || (IsRun(Front(h)) && NotBefore(Front(h), Last(h).now) && Fresh(Last(h).req, Issued(Front(h))))
  }

  lemma {:induction false} RunKeepsInv(cfg: Config, h: History)
    requires IsRun(h)
    ensures Inv(After(cfg, h), Issued(h))
  {
    if h == [] {
      EmptyInv();
    } else {
      RunKeepsInv(cfg, Front(h));
      StepKeepsInv(cfg, After(cfg, Front(h)), Issued(Front(h)), Last(h));
    }
  }

  lemma Append(cfg: Config, h: History, step: Step)
    ensures var more := h + [step];
            && Front(more) == h && Last(more) == step
            && After(cfg, more) == Apply(cfg, After(cfg, h), step).0
            && (IsRun(h) && NotBefore(h, step.now) && Fresh(step.req, Issued(h)) ==> IsRun(more))
            && Issued(more) == Issued(h) + Generated(step.req)
  {
    assert (h + [step])[..|h|] == h;
  }

  // ----- what a request did to one server, read off its answer -----

  datatype Effect = Nothing | ClaimSet(claim: string) | KeyApproved(key: string) | KeyReissued(key: string) | KeyRevoked

  /** A claim and a reissued key are what the answer carried; an approved key is in no answer, only in later
      polls, so it is the generated one. */
  function EffectOf(req: Request, answer: Answer, id: Id): Effect {
    match req
    case PostEnroll(i, _, _, _, _) => if i == id && answer.ClaimReply? then ClaimSet(answer.claim) else Nothing
    case PostApprove(_, i, key) => if i == id && answer.StatusReply? then KeyApproved(key) else Nothing
    case PostRevoke(_, i, _) => if i == id && answer.StatusReply? then KeyRevoked else Nothing
    case PostReissue(_, i, _, _) => if i == id && answer.KeyReply? then KeyReissued(answer.issuedKey) else Nothing
    case _ => Nothing
  }

  ghost function LastEffect(cfg: Config, h: History, id: Id): Effect
    requires h != []
  {
    EffectOf(Last(h).req, LastAnswer(cfg, h), id)
  }

  /** The claim the most recent accepted POST /enroll returned. */
  ghost function LatestClaim(cfg: Config, h: History, id: Id): Option<string> {
    if h == [] then None
    else
      var e := LastEffect(cfg, h, id);
      if e.ClaimSet? then Some(e.claim) else LatestClaim(cfg, Front(h), id)
  }

  ghost predicate EverRevoked(cfg: Config, h: History, id: Id) {
    h != [] && (LastEffect(cfg, h, id).KeyRevoked? || EverRevoked(cfg, Front(h), id))
  }

  datatype Grant = Grant(key: string, at: Instant, viaApproval: bool)

  /** The key handed out for the server by the most recent approve or reissue, unless revoked since. */
  ghost function LiveGrant(cfg: Config, h: History, id: Id): Option<Grant> {
    if h == [] then None
    else
      match LastEffect(cfg, h, id)
      case KeyApproved(key) => Some(Grant(key, Last(h).now, true))
      case KeyReissued(key) => Some(Grant(key, Last(h).now, false))
      case KeyRevoked => None
      case _ => LiveGrant(cfg, Front(h), id)
  }

  // ----- one step, one server -----

  lemma AdminStepEffect(db: Db, now: Instant, req: Request, id: Id)
    requires NeedsAdmin(req)
    ensures var (db', a) := GuardedAdminRoute(db, now, req);
            var e := EffectOf(req, a, id);
            && (e.Nothing? ==> (id in db.servers <==> id in db'.servers) && (id in db.servers ==> db'.servers[id] == db.servers[id]))
            && (!e.Nothing? ==> id == req.id && id in db.servers)
            && (e.KeyApproved? ==> e.key == req.key && db.servers[id].status == Pending
                                   && db'.servers == ApproveServer(db.servers, id, e.key, HashSecret(e.key), now))
            && (e.KeyRevoked? ==> db.servers[id].status != Revoked && db'.servers == RevokeServer(db.servers, id))
            && (e.KeyReissued? ==> e.key == req.key && db.servers[id].status != Pending
                                   && db'.servers == ReissueKey(db.servers, id, HashSecret(e.key), now))
            && !e.ClaimSet?
  {
  }

  /** A server's row only changes its credential columns when an answer says so, or when the sweep
      drops an expired key. */
  lemma StepWithoutEffect(cfg: Config, db: Db, step: Step, id: Id)
    requires EffectOf(step.req, Apply(cfg, db, step).1, id).Nothing?
    ensures var db' := Apply(cfg, db, step).0;
            && (id in db.servers <==> id in db'.servers)
            && (id in db.servers ==> SameCredentials(db.servers[id], db'.servers[id])
                                     || SameCredentials(ExpireRow(db.servers[id], step.now), db'.servers[id]))
  {
    if NeedsAdmin(step.req) {
      AdminStepEffect(db, step.now, step.req, id);
    } else if LeavesCredentials(step.req) {
      QuietStep(cfg, db, step);
    }
  }

  /** The row columns that `grant`, `claim` and `revoked` account for. */
  ghost predicate RowReflects(row: ServerRow, claim: string, revoked: bool, grant: Option<Grant>, now: Instant) {
    && row.status == (if grant.Some? then Approved else if revoked then Revoked else Pending)
    && row.apiKeyHash == (if grant.Some? then Some(HashSecret(grant.value.key)) else None)
    && row.claimHash == (if revoked then None else Some(HashSecret(claim)))
    && if row.pendingApiKey.Some? then
         grant.Some? && grant.value.viaApproval && row.pendingApiKey == Some(grant.value.key)
         && row.pendingExpiresAt == Some(grant.value.at + PENDING_KEY_TTL_MS)
       else
         row.pendingExpiresAt.None?
         && (grant.Some? && grant.value.viaApproval ==> grant.value.at + PENDING_KEY_TTL_MS <= now)
  }

  ghost predicate Reflected(cfg: Config, h: History, id: Id, now: Instant) {
    var servers := After(cfg, h).servers;
    && (id in servers <==> LatestClaim(cfg, h, id).Some?)
    && (id in servers ==>
          RowReflects(servers[id], LatestClaim(cfg, h, id).value, EverRevoked(cfg, h, id), LiveGrant(cfg, h, id), now))
    && (id !in servers ==> LiveGrant(cfg, h, id).None? && !EverRevoked(cfg, h, id))
  }

  lemma ReflectionSteps(cfg: Config, h: History, id: Id)
    requires h != [] && Reflected(cfg, Front(h), id, Last(h).now)
    ensures Reflected(cfg, h, id, Last(h).now)
  {
    var db, step := After(cfg, Front(h)), Last(h);
    var e := LastEffect(cfg, h, id);
    if e.Nothing? {
      StepWithoutEffect(cfg, db, step, id);
    } else if e.ClaimSet? {
      assert After(cfg, h).servers[id].claimHash == Some(HashSecret(e.claim));
    } else {
      AdminStepEffect(db, step.now, step.req, id);
    }
  }

  /** In every run, a server's credential columns are what the answered requests say they are. */
  lemma {:induction false} RowIsHistory(cfg: Config, h: History, id: Id, now: Instant)
    requires IsRun(h) && NotBefore(h, now)
    ensures Reflected(cfg, h, id, now)
  {
    if h == [] {
    } else {
      RowIsHistory(cfg, Front(h), id, Last(h).now);
      ReflectionSteps(cfg, h, id);
    }
  }

  // ----- polls -----

  /** How long after its approval a key may be revealed, in milliseconds. */
  const FIVE_MINUTES: int := 300_000

  /** What GET /enroll/:id should answer, from the answered requests alone. */
  ghost function HistoryPoll(cfg: Config, h: History, id: Id, presented: Option<string>, now: Instant): Answer {
    if !Present(presented) || EverRevoked(cfg, h, id) || LatestClaim(cfg, h, id) != presented then NotFound
    else
      match LiveGrant(cfg, h, id)
      case None => PollReply(Pending, None)
      case Some(g) =>
        PollReply(Approved, if g.viaApproval && now < g.at + FIVE_MINUTES then Some(g.key) else None)
  }

  /** Poll answers are a function of history. A poll avoids 404 exactly when the server enrolled, was
      never revoked (even if reissued later), and the claim is the one last returned; it reveals the
      key of the approval for exactly five minutes. */
  lemma PollIsHistory(cfg: Config, h: History, id: Id, presented: Option<string>, now: Instant)
    requires IsRun(h) && NotBefore(h, now)
    ensures PollRoute(After(cfg, h), now, id, presented) == HistoryPoll(cfg, h, id, presented, now)
  {
    RowIsHistory(cfg, h, id, now);
  }

  // ----- the life of a key -----

  /** What each request of `h` did to server `id`. */
  ghost function EffectsOn(cfg: Config, h: History, id: Id): (es: seq<Effect>)
    ensures |es| == |h|
  {
    if h == [] then [] else EffectsOn(cfg, Front(h), id) + [LastEffect(cfg, h, id)]
  }

  /** Request `i` handed out `key`. */
  predicate Issues(es: seq<Effect>, i: nat, key: string) {
    i < |es| && (es[i] == KeyApproved(key) || es[i] == KeyReissued(key))
  }

  /** Request `i` revoked the key or replaced it. */
  predicate Ends(es: seq<Effect>, i: nat) {
    i < |es| && (es[i].KeyRevoked? || es[i].KeyReissued? || es[i].KeyApproved?)
  }

  predicate LiveSince(es: seq<Effect>, i: nat, key: string) {
    Issues(es, i, key) && forall j :: i < j < |es| ==> !Ends(es, j)
  }

  function LastKey(es: seq<Effect>): Option<string> {
    if es == [] then None
    else
      match es[|es| - 1]
      case KeyApproved(key) => Some(key)
      case KeyReissued(key) => Some(key)
      case KeyRevoked => None
      case _ => LastKey(es[..|es| - 1])
  }

  lemma {:induction false} LastKeyInterval(es: seq<Effect>, key: string)
    ensures LastKey(es) == Some(key) <==> exists i :: LiveSince(es, i, key)
  {
    if es == [] {
    } else {
      var n: nat := |es| - 1;
      var rest := es[..n];
      LastKeyInterval(rest, key);
      if Ends(es, n) {
        if Issues(es, n, key) { assert LiveSince(es, n, key); }
      } else {
        assert forall j: nat :: j < n ==> (Ends(es, j) <==> Ends(rest, j));
        forall i: nat ensures LiveSince(es, i, key) <==> LiveSince(rest, i, key) {
          assert Issues(es, i, key) <==> Issues(rest, i, key);
        }
      }
    }
  }

  lemma {:induction false} GrantIsLastKey(cfg: Config, h: History, id: Id)
    ensures LastKey(EffectsOn(cfg, h, id)) ==
            match LiveGrant(cfg, h, id) case None => None case Some(g) => Some(g.key)
  {
    if h == [] {
    } else {
      GrantIsLastKey(cfg, Front(h), id);
      var es := EffectsOn(cfg, h, id);
      assert es[..|es| - 1] == EffectsOn(cfg, Front(h), id);
    }
  }

  lemma {:induction false} PrefixEffects(cfg: Config, h: History, id: Id, n: nat)
    requires n <= |h|
    ensures EffectsOn(cfg, h[..n], id) == EffectsOn(cfg, h, id)[..n]
  {
    if n == |h| {
      assert h[..n] == h;
    } else {
      PrefixEffects(cfg, Front(h), id, n);
      assert h[..n] == Front(h)[..n];
    }
  }

  lemma {:induction false} PrefixIsRun(h: History, n: nat)
    requires IsRun(h) && n <= |h|
    ensures IsRun(h[..n]) && Issued(h[..n]) <= Issued(h)
  {
    if n == |h| {
      assert h[..n] == h;
    } else {
      PrefixIsRun(Front(h), n);
      assert h[..n] == Front(h)[..n];
    }
  }

  lemma IssuedGrows(h: History, i: nat, j: nat)
    requires IsRun(h) && i <= j <= |h|
    ensures Issued(h[..i]) <= Issued(h[..j])
  {
    PrefixIsRun(h, j);
    PrefixIsRun(h[..j], i);
    assert h[..j][..i] == h[..i];
  }

  lemma IssuingRequest(cfg: Config, db: Db, step: Step, id: Id, key: string)
    requires var e := EffectOf(step.req, Apply(cfg, db, step).1, id); e == KeyApproved(key) || e == KeyReissued(key)
    ensures Generated(step.req) == {key} && NeedsAdmin(step.req) && step.req.id == id
  {
    AdminStepEffect(db, step.now, step.req, id);
  }

  lemma LastIssue(cfg: Config, p: History, id: Id, key: string)
    requires p != [] && IsRun(p) && Issues(EffectsOn(cfg, p, id), |p| - 1, key)
    ensures key in Generated(Last(p).req) && key !in Issued(Front(p)) && key in Issued(p) && key != ""
    ensures NeedsAdmin(Last(p).req) && Last(p).req.id == id
  {
    IssuingRequest(cfg, After(cfg, Front(p)), Last(p), id, key);
  }

  lemma IssuedKeys(cfg: Config, h: History, i: nat, id: Id, key: string)
    requires IsRun(h) && Issues(EffectsOn(cfg, h, id), i, key)
    ensures key in Generated(h[i].req) && key !in Issued(h[..i]) && key in Issued(h[..i + 1]) && key != ""
    ensures NeedsAdmin(h[i].req) && h[i].req.id == id
  {
    PrefixIsRun(h, i + 1);
    PrefixEffects(cfg, h, id, i + 1);
    var p := h[..i + 1];
    assert Front(p) == h[..i] && Last(p) == h[i];
    LastIssue(cfg, p, id, key);
  }

  /** A key is handed out once, for one server. */
  lemma IssuedOnce(cfg: Config, h: History, i: nat, id: Id, j: nat, other: Id, key: string)
    requires IsRun(h) && Issues(EffectsOn(cfg, h, id), i, key) && Issues(EffectsOn(cfg, h, other), j, key)
    ensures i == j && id == other
  {
    IssuedKeys(cfg, h, i, id, key);
    IssuedKeys(cfg, h, j, other, key);
    if i < j { IssuedGrows(h, i + 1, j); }
    if j < i { IssuedGrows(h, j + 1, i); }
  }

  lemma GrantInterval(cfg: Config, h: History, id: Id, key: string, es: seq<Effect>)
    requires es == EffectsOn(cfg, h, id)
    ensures (LiveGrant(cfg, h, id).Some? && LiveGrant(cfg, h, id).value.key == key) <==> exists i :: LiveSince(es, i, key)
  {
    GrantIsLastKey(cfg, h, id);
    LastKeyInterval(es, key);
  }

  /** Each issued key has one contiguous life: after any run, presenting `key` authenticates as `id`
      exactly when some approve or reissue of `id` handed it out and no approve, revoke or reissue of
      `id` was answered since. */
  lemma KeyLife(cfg: Config, h: History, id: Id, key: string)
    requires IsRun(h)
    ensures (exists row :: AuthenticatedServer(After(cfg, h), Some(key)) == Some(row) && row.id == id)
       <==> exists i :: LiveSince(EffectsOn(cfg, h, id), i, key)
  {
    var db, es := After(cfg, h), EffectsOn(cfg, h, id);
    RunKeepsInv(cfg, h);
    RowIsHistory(cfg, h, id, if h == [] then 0 else Last(h).now);
    GrantInterval(cfg, h, id, key, es);
    if i :| LiveSince(es, i, key) {
      IssuedKeys(cfg, h, i, id, key);
      OneServerPerKey(db.servers, Issued(h), HashSecret(key), id);
      assert AuthenticatedServer(db, Some(key)) == Some(db.servers[id]);
    }
  }

  /** The lookup is single-valued although no unique index exists: two rows never hold one key. */
  lemma KeyHashesDistinct(cfg: Config, h: History, a: Id, b: Id, hash: Digest)
    requires IsRun(h)
    requires a in After(cfg, h).servers && After(cfg, h).servers[a].apiKeyHash == Some(hash)
    requires b in After(cfg, h).servers && After(cfg, h).servers[b].apiKeyHash == Some(hash)
    ensures a == b
  {
    RunKeepsInv(cfg, h);
  }

  /** A poll only ever reveals a key that authenticates, as the polled server, at that moment. */
  lemma RevealedKeyIsLive(cfg: Config, h: History, id: Id, presented: Option<string>, now: Instant, key: string)
    requires IsRun(h) && NotBefore(h, now)
    requires PollRoute(After(cfg, h), now, id, presented) == PollReply(Approved, Some(key))
    ensures id in After(cfg, h).servers && AuthenticatedServer(After(cfg, h), Some(key)) == Some(After(cfg, h).servers[id])
  {
    var db := After(cfg, h);
    RunKeepsInv(cfg, h);
    RowIsHistory(cfg, h, id, now);
    var es := EffectsOn(cfg, h, id);
    GrantInterval(cfg, h, id, key, es);
    var i :| LiveSince(es, i, key);
    IssuedKeys(cfg, h, i, id, key);
    OneServerPerKey(db.servers, Issued(h), HashSecret(key), id);
  }

  lemma GrantedIsLocked(cfg: Config, h: History, id: Id)
    requires h != [] && IsRun(h) && LiveGrant(cfg, Front(h), id).Some?
    ensures !LastEffect(cfg, h, id).ClaimSet?
  {
    RowIsHistory(cfg, Front(h), id, Last(h).now);
  }

  /** The part of the run after `h` does not end the key of `id`. */
  ghost predicate Undisturbed(cfg: Config, h: History, g: History, id: Id) {
    forall j :: |h| <= j < |h + g| ==> !Ends(EffectsOn(cfg, h + g, id), j)
  }

  lemma {:induction false} GrantStays(cfg: Config, h: History, g: History, id: Id)
    requires IsRun(h + g) && LiveGrant(cfg, h, id).Some? && Undisturbed(cfg, h, g, id)
    ensures LiveGrant(cfg, h + g, id) == LiveGrant(cfg, h, id)
    ensures LatestClaim(cfg, h + g, id) == LatestClaim(cfg, h, id)
    ensures EverRevoked(cfg, h + g, id) == EverRevoked(cfg, h, id)
  {
    if g == [] {
      assert h + g == h;
    } else {
      var hg := h + g;
      var rest := Front(hg);
      assert rest == h + Front(g);
      var es := EffectsOn(cfg, hg, id);
      assert es == EffectsOn(cfg, rest, id) + [LastEffect(cfg, hg, id)];
      forall j | |h| <= j < |rest| ensures !Ends(EffectsOn(cfg, rest, id), j) { assert !Ends(es, j); }
      GrantStays(cfg, h, Front(g), id);
      GrantedIsLocked(cfg, hg, id);
      assert !Ends(es, |rest|);
    }
  }

  /** Repeated polls: as long as no admin action on the server intervenes, the same claim keeps
      revealing the same key, up to the instant the window closes and not after. */
  lemma RepeatedPolls(cfg: Config, h: History, g: History, id: Id, presented: Option<string>, now: Instant, later: Instant, key: string)
    requires IsRun(h + g) && IsRun(h) && NotBefore(h, now) && NotBefore(h + g, later)
    requires PollRoute(After(cfg, h), now, id, presented) == PollReply(Approved, Some(key))
    requires Undisturbed(cfg, h, g, id)
    ensures LiveGrant(cfg, h, id).Some? && LiveGrant(cfg, h, id).value.key == key
    ensures PollRoute(After(cfg, h + g), later, id, presented) ==
            PollReply(Approved, if later < LiveGrant(cfg, h, id).value.at + FIVE_MINUTES then Some(key) else None)
  {
    PollIsHistory(cfg, h, id, presented, now);
    GrantStays(cfg, h, g, id);
    PollIsHistory(cfg, h + g, id, presented, later);
  }
}
