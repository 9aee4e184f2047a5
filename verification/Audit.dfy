/** The audit trail explains the state: replaying a server's admin_actions gives its status. */
module Audit {
  import opened Base
  import opened Store
  import opened Routes
  import opened Runs

  /** The status an action leads to, if the lifecycle allows it. */
  function Transition(status: Status, kind: ActionKind): Option<Status> {
    match kind
    case ApproveAction => if status == Pending then Some(Approved) else None
    case RevokeAction => if status != Revoked then Some(Revoked) else None
    case ReissueAction => if status != Pending then Some(Approved) else None
  }

  /** Folds a log from `Pending`; None as soon as an action is not allowed. */
  function Replay(rows: seq<ActionRow>): Option<Status> {
    if rows == [] then Some(Pending)
    else
      match Replay(rows[..|rows| - 1])
      case None => None
      case Some(status) => Transition(status, rows[|rows| - 1].kind)
  }

  lemma OneMoreAction(actions: seq<ActionRow>, a: ActionRow, id: Id)
    ensures ActionsOf(actions + [a], id) == ActionsOf(actions, id) + if a.serverId == id then [a] else []
  {
    assert (actions + [a])[..|actions|] == actions;
  }

  function KindOf(req: Request): ActionKind
    requires NeedsAdmin(req)
  {
    match req
    case PostApprove(_, _, _) => ApproveAction
    case PostRevoke(_, _, _) => RevokeAction
    case PostReissue(_, _, _, _) => ReissueAction
  }

  function ReasonOf(req: Request): Option<string>
    requires NeedsAdmin(req)
  {
    match req
    case PostApprove(_, _, _) => None
    case PostRevoke(_, _, reason) => reason
    case PostReissue(_, _, reason, _) => reason
  }

  predicate Lifecycle(e: Effect) { e.KeyApproved? || e.KeyReissued? || e.KeyRevoked? }

  /** A lifecycle request leaves exactly one audit row, naming the signed-in admin, when it was
      answered with success, and none otherwise. */
  lemma AdminStepActions(db: Db, now: Instant, req: Request)
    requires NeedsAdmin(req)
    ensures var (db', a) := GuardedAdminRoute(db, now, req);
            if a.StatusReply? || a.KeyReply? then
              SignedIn(db, req.cookie, now).Some? && SignedIn(db, req.cookie, now).value.role == Admin
              && db'.actions == db.actions +
                   [ActionRow(|db.actions| + 1, KindOf(req), req.id, SignedIn(db, req.cookie, now).value.id, ReasonOf(req), now)]
            else db'.actions == db.actions
  {
  }

  lemma StepActions(cfg: Config, db: Db, step: Step, id: Id)
    ensures var (db', a) := Apply(cfg, db, step);
            var e := EffectOf(step.req, a, id);
            if Lifecycle(e) then
              NeedsAdmin(step.req) && ActionsOf(db'.actions, id) ==
              ActionsOf(db.actions, id) + [ActionRow(|db.actions| + 1, KindOf(step.req), id, SignedIn(db, step.req.cookie, step.now).value.id, ReasonOf(step.req), step.now)]
            else ActionsOf(db'.actions, id) == ActionsOf(db.actions, id)
  {
    var (db', a) := Apply(cfg, db, step);
    if NeedsAdmin(step.req) {
      AdminStepActions(db, step.now, step.req);
      if a.StatusReply? || a.KeyReply? {
        OneMoreAction(db.actions, db'.actions[|db.actions|], id);
      }
    } else {
      OnlyAdminsWriteActions(cfg, db, step);
    }
  }

  ghost predicate Explained(db: Db, id: Id) {
    && (id in db.servers ==> Replay(ActionsOf(db.actions, id)) == Some(db.servers[id].status))
    && (id !in db.servers ==> ActionsOf(db.actions, id) == [])
  }

  lemma ReplayOneMore(rows: seq<ActionRow>, a: ActionRow)
    requires Replay(rows).Some?
    ensures Replay(rows + [a]) == Transition(Replay(rows).value, a.kind)
  {
    assert (rows + [a])[..|rows|] == rows;
  }

  lemma LifecycleStepExplained(db: Db, now: Instant, req: Request)
    requires NeedsAdmin(req) && Explained(db, req.id)
    requires GuardedAdminRoute(db, now, req).1.StatusReply? || GuardedAdminRoute(db, now, req).1.KeyReply?
    ensures Explained(GuardedAdminRoute(db, now, req).0, req.id)
  {
    AdminStepActions(db, now, req);
    var db' := GuardedAdminRoute(db, now, req).0;
    var a := db'.actions[|db.actions|];
    OneMoreAction(db.actions, a, req.id);
    ReplayOneMore(ActionsOf(db.actions, req.id), a);
  }

  lemma ClaimStepExplained(db: Db, now: Instant, req: Request)
    requires req.PostEnroll? && Explained(db, req.id)
    requires EnrollRoute(db, now, req.id, req.institution, req.product, req.hostname, req.claim).1.ClaimReply?
    ensures Explained(EnrollRoute(db, now, req.id, req.institution, req.product, req.hostname, req.claim).0, req.id)
  {
  }

  lemma IdleStepExplained(cfg: Config, db: Db, step: Step, id: Id)
    requires Explained(db, id) && EffectOf(step.req, Apply(cfg, db, step).1, id).Nothing?
    ensures Explained(Apply(cfg, db, step).0, id)
  {
    StepActions(cfg, db, step, id);
    StepWithoutEffect(cfg, db, step, id);
  }

  lemma StepExplained(cfg: Config, db: Db, step: Step, id: Id)
    requires Explained(db, id)
    ensures Explained(Apply(cfg, db, step).0, id)
  {
    var e := EffectOf(step.req, Apply(cfg, db, step).1, id);
    if Lifecycle(e) {
      LifecycleStepExplained(db, step.now, step.req);
    } else if e.ClaimSet? {
      ClaimStepExplained(db, step.now, step.req);
    } else {
      IdleStepExplained(cfg, db, step, id);
    }
  }

  /** After every run, a server's audit rows replay, without an illegal step, to the status it has;
      a server that never enrolled has no rows. */
  lemma {:induction false} AuditReplays(cfg: Config, h: History, id: Id)
    ensures var db := After(cfg, h);
            && (id in db.servers ==> Replay(ActionsOf(db.actions, id)) == Some(db.servers[id].status))
            && (id !in db.servers ==> ActionsOf(db.actions, id) == [])
  {
    if h == [] {
    } else {
      AuditReplays(cfg, Front(h), id);
      StepExplained(cfg, After(cfg, Front(h)), Last(h), id);
    }
  }

  /** Logs that replay are exactly the words that start with approve or revoke, hold approve nowhere
      but first, and never put anything but reissue after revoke. */
  ghost predicate LifecycleWord(rows: seq<ActionRow>) {
    && (forall i :: 0 <= i < |rows| && rows[i].kind == ApproveAction ==> i == 0)
    && (forall i :: 0 < i < |rows| && rows[i - 1].kind == RevokeAction ==> rows[i].kind == ReissueAction)
    && (rows != [] ==> rows[0].kind != ReissueAction)
  }

  lemma {:induction false} ReplayIffWord(rows: seq<ActionRow>)
    ensures Replay(rows).Some? <==> LifecycleWord(rows)
    ensures Replay(rows).Some? && rows != [] ==>
              Replay(rows).value == if rows[|rows| - 1].kind == RevokeAction then Revoked else Approved
  {
    if rows == [] {
    } else {
      var n := |rows| - 1;
      var rest := rows[..n];
      ReplayIffWord(rest);
      assert rows == rest + [rows[n]];
      if LifecycleWord(rows) {
        forall i | 0 < i < |rest| && rest[i - 1].kind == RevokeAction ensures rest[i].kind == ReissueAction {
          assert rows[i - 1].kind == RevokeAction;
        }
        assert LifecycleWord(rest);
      }
    }
  }

  lemma AuditIsLifecycleWord(cfg: Config, h: History, id: Id)
    ensures LifecycleWord(ActionsOf(After(cfg, h).actions, id))
  {
    AuditReplays(cfg, h, id);
    ReplayIffWord(ActionsOf(After(cfg, h).actions, id));
  }

  // ----- the listing -----

  function Reverse<T>(s: seq<T>): seq<T> {
    if s == [] then [] else [s[|s| - 1]] + Reverse(s[..|s| - 1])
  }

  /** Appended in time order, so every row comes before all earlier rows in the listing order. */
  ghost predicate Chronological(rows: seq<ActionRow>) {
    forall i, j :: 0 <= i < j < |rows| ==> Later(rows[j], rows[i])
  }

  lemma {:induction false} ReverseContents<T>(s: seq<T>)
    ensures |Reverse(s)| == |s| && forall i :: 0 <= i < |s| ==> Reverse(s)[i] == s[|s| - 1 - i]
  {
    if s == [] {
    } else {
      ReverseContents(s[..|s| - 1]);
    }
  }

  lemma {:induction false} SortIsReverse(rows: seq<ActionRow>)
    requires Chronological(rows)
    ensures SortNewest(rows) == Reverse(rows)
  {
    if rows == [] {
    } else {
      var n := |rows| - 1;
      SortIsReverse(rows[..n]);
      ReverseContents(rows[..n]);
      if n > 0 { assert Reverse(rows[..n])[0] == rows[n - 1]; }
    }
  }

  lemma {:induction false} ActionsOfSublist(actions: seq<ActionRow>, id: Id)
    requires Chronological(actions)
    ensures Chronological(ActionsOf(actions, id))
    ensures forall a :: a in ActionsOf(actions, id) ==> a in actions && a.serverId == id
  {
    if actions == [] {
    } else {
      var n := |actions| - 1;
      ActionsOfSublist(actions[..n], id);
      var kept := ActionsOf(actions[..n], id);
      forall i | 0 <= i < |kept| ensures Later(actions[n], kept[i]) {
        assert kept[i] in actions[..n];
      }
    }
  }

  lemma {:induction false} ActionsAreChronological(cfg: Config, h: History, now: Instant)
    requires IsRun(h) && NotBefore(h, now)
    ensures LoggedBy(After(cfg, h), now)
  {
    if h == [] {
    } else {
      ActionsAreChronological(cfg, Front(h), Last(h).now);
      StepIsChronological(cfg, After(cfg, Front(h)), Last(h));
    }
  }

  ghost predicate LoggedBy(db: Db, now: Instant) {
    Chronological(db.actions) && forall i :: 0 <= i < |db.actions| ==> db.actions[i].createdAt <= now && db.actions[i].id <= |db.actions|
  }

  lemma StepIsChronological(cfg: Config, db: Db, step: Step)
    requires LoggedBy(db, step.now)
    ensures LoggedBy(Apply(cfg, db, step).0, step.now)
  {
    if NeedsAdmin(step.req) {
      AdminStepActions(db, step.now, step.req);
    } else {
      OnlyAdminsWriteActions(cfg, db, step);
    }
  }

  lemma ListingOfLog(actions: seq<ActionRow>, id: Id, limit: nat)
    requires Chronological(actions)
    ensures var rows := ActionsOf(actions, id);
            ListActions(actions, id, limit) == Reverse(rows[if limit < |rows| then |rows| - limit else 0..])
  {
    var rows := ActionsOf(actions, id);
    ActionsOfSublist(actions, id);
    SortIsReverse(rows);
    var tail := rows[if limit < |rows| then |rows| - limit else 0..];
    ReverseContents(rows);
    ReverseContents(tail);
    assert Reverse(tail) == Take(Reverse(rows), limit);
  }

  /** The detail page's listing, newest first and limited, is the reversed tail of the log. */
  lemma {:induction false} ListingIsReversedTail(cfg: Config, h: History, id: Id, limit: nat)
    requires IsRun(h)
    ensures var rows := ActionsOf(After(cfg, h).actions, id);
            ListActions(After(cfg, h).actions, id, limit) ==
            Reverse(rows[if limit < |rows| then |rows| - limit else 0..])
  {
    ActionsAreChronological(cfg, h, if h == [] then 0 else Last(h).now);
    ListingOfLog(After(cfg, h).actions, id, limit);
  }
}
