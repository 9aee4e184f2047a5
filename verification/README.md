# BRAVO Operations API: a verified model

The Operations API keeps a fleet of servers in one SQLite file. Agents enroll with a rotating claim, poll for
their API key, push events and heartbeats; admins approve, revoke and reissue; timers sweep expired keys and
sessions, delete old events, and alert about servers that went silent. This project models that backend in
Dafny and proves what it promises over whole runs.

Verify with `dafny verify dfyconfig.toml`.

## How the model is built

The store is a mutable class, `Repository.OperationsRepository`, with one method per SQL statement. Its tables
are maps and sequences; statements over many rows are loops that take the rows in whatever order the table
yields them. `Api` holds the handlers, guards and timers as methods over it. Each method is proved against the
transition function of `Routes` and `Store`, up to `Api.Handle`: any request makes exactly its step and keeps
the invariant. What the system promises is then proved about that transition function, by induction on the
history of requests, in terms of what the requests were answered.

| file | content |
|---|---|
| Base, Store, Events, Routes | tables, statements and handlers as a transition function, and the invariant every step keeps |
| Repository, Api | the same as imperative code on a mutable store, proved equal to it |
| Runs | histories; credentials, polls and the life of a key as a function of history |
| Profiles, Accounts, Audit, Ingestion | public columns, sessions, the audit trail and the events table as functions of history |
| Answers | every answer of every route as a function of the requests answered before it |
| Sweeps | the housekeeping sweeps are unobservable, and what they do remove |
| Monitor, Latency | the offline monitor as small steps with interleaving at every await; alternation, retry, latency |
| Migrations, SchemaSteps | the migration runner for any steps, and the seven shipped steps |
| Limiter | the login limiter as a class, its refinement to per-pair histories, its real-time bound |
| Cookies | the cookie parser and its round trip |
| IsoTime, TextColumns | printed timestamps, and the statements over text columns against those over instants |

## Assumptions

- `hashSecret` is injective: a digest is kept as the secret it was made from, and only ever compared.
- Generated keys, claims and session tokens are nonempty and never repeat (`Routes.Fresh`).
- Clock readings along a run do not decrease (`Runs.IsRun`).
- Runs start from the empty, migrated store.
- Handlers are synchronous over a synchronous driver, so a request is one atomic step. Two places await: the
  monitor, which is modelled as small steps, and POST /auth/login, which looks the account up, awaits the
  password check, and then writes. `Api.AuthRouter` holds the login in those two parts, and
  `Accounts.EarlierLookupSuffices` shows that, whatever runs in between, they amount to one login step at the
  later instant. A transaction commits or rolls back.
- The model starts after body validation, the bootstrap-secret check and the same-origin check.
- Instants are integers (milliseconds). Columns hold their printed form, and the SQL compares that text:
  `TextColumns.RunsAgree` shows that over every run of the years 0 to 9999 it makes no difference to any
  statement, and `IsoTime.TextOrderAgreesIff` for exactly which instants the two comparisons agree.

## Where the code does less than one might expect

- Two monitor ticks can overlap, because the interval timer does not wait, and then an alert can repeat
  (`Monitor.OverlapRepeatsAlert`); `Monitor.AckAlternatesIff` is the exact condition, and
  `Monitor.AlertsAlternate` the theorem for ticks that do not overlap.
- A retried event is absorbed only while its first copy is stored: `Ingestion.RetryAbsorbedIff` is the exact
  condition over runs, `Ingestion.RetryStoredTwice` a run that stores an event twice.
- The login backoff does not hold attempts apart that pass the gate together, which the awaited password check
  allows: `Limiter.ConcurrentAttemptsAreNotSpaced` lets max+2 of them fail at one instant, for every threshold
  and window. `Limiter.SpacedIff` is the exact condition, and the real-time bound holds under it
  (`Limiter.OpenBound`), in particular for attempts that go one at a time (`Limiter.BackoffBound`).
- The limiter's composed key separates a pair from all others exactly when its address holds no blank
  (`Limiter.KeySeparatesIff`); addresses never do.
- Beyond year 9999 stored timestamps sort the wrong way round (`IsoTime.TextOrderFailsAfter9999`).
- The comment above `MIGRATIONS` credits `user_version` gating, not `IF NOT EXISTS`, for idempotence
  (api/src/migrations.ts:3-8), and a later one explains the guards (api/src/migrations.ts:23-34). It takes both:
  the gate for a stamped database, the guards for a database that predates the stamp, as `SchemaSteps.Converges` shows.

## Model

| member | source | states |
|---|---|---|
| `Runs.RunKeepsInv` | api/src/repository.ts:131-264 | Every run from the empty store, whatever the requests and their order, keeps the invariant: a key hash exactly on approved rows, a stored plaintext key only on an approved row whose hash it matches with expiry = approval + 5 minutes, no claim on a revoked row, pairwise distinct key hashes, live foreign keys, ascending ids, no duplicate event keys |
| `Routes.StepKeepsInv` | api/src/repository.ts:131-468 | One request or timer step, from any store that satisfies the invariant, leads to a store that satisfies it, given fresh generated tokens |
| `Runs.RowIsHistory` | api/src/repository.ts:131-264 | In every run the credential columns of a row (status, key hash, claim hash, plaintext key, expiry) are determined by the answered enroll, approve, revoke and reissue requests about that server |
| `Runs.PollIsHistory` | api/src/routes/enroll.ts:72-89 | For every run, server, claim and later instant, GET /enroll/:id answers exactly what history dictates: not 404 if and only if the claim is the one last returned and the server was never revoked, even if reissued later; the key of the approval, and only of an approval, is revealed for exactly five minutes |
| `Runs.IssuedOnce` | api/src/routes/admin.ts:74-166 | No key is handed out twice, nor for two servers, in one run |
| `Runs.IssuedKeys` | api/src/routes/admin.ts:84-85 | A key that a request handed out was generated by that request, never before, and is recorded as issued from then on |
| `Runs.KeyHashesDistinct` | api/src/repository.ts:221-225 | The key-hash lookup is single-valued in every reachable store although no unique index enforces it |
| `Store.OneServerPerKey` | api/src/repository.ts:221-225 | Under the invariant, whichever matching row the engine picks is the one row that holds the key |
| `Runs.RevealedKeyIsLive` | api/src/routes/enroll.ts:83-88 | A key that a poll reveals authenticates at that instant as the polled server |
| `Runs.RepeatedPolls` | api/src/repository.ts:184-203 | Repeating a poll, with any other traffic in between but no admin action on the server, gives the same key up to the expiry instant and none from then on |
| `Runs.GrantStays` | api/src/repository.ts:146-149 | Traffic that ends no key of a server, further enrollments of it included, changes neither its live grant nor its claim nor whether it was ever revoked |
| `Runs.StepWithoutEffect` | api/src/repository.ts:131-301 | A request whose answer announces no change to a server leaves its credential columns alone, up to the expiry sweep |
| `Runs.AdminStepEffect` | api/src/routes/admin.ts:74-166 | A lifecycle request about one server changes no other row, and succeeds only from the statuses the route allows |
| `Runs.LastKeyInterval` | api/src/repository.ts:227-264 | The key last handed out is live exactly on the interval from its issue to the next ending request |
| `Profiles.PublicRowIsHistory` | api/src/repository.ts:94-107 | A server is listed exactly when an enrollment of it was accepted, and all ten public columns are a function of the answered requests: product and age from the first enrollment, name and institution from the last, contact times and version from requests that carried the key live at that moment, approval time from the last approve or reissue |
| `Profiles.KeyResolves` | api/src/auth.ts:112-127 | Which server a presented key resolves to depends only on the answered requests |
| `Profiles.AgentWrites` | api/src/repository.ts:289-301 | An accepted event moves only last_seen_at and an accepted heartbeat only last_heartbeat_at, last_seen_at and, when it carries one, the version; of the one server whose key was presented |
| `Sweeps.SweepsUnobservable` | api/src/retention.ts:24-44 | Two runs with the same requests at the same instants, with pending-key and session sweeps inserted or left out anywhere, give the same answer to every poll, key lookup, session lookup, login and admin page |
| `Sweeps.ErasingSweeps` | api/src/auth.ts:95-110 | A run and the same run without its sweeps give the same answers and end in stores that differ only by a sweep |
| `Sweeps.SweepThenStep` | api/src/repository.ts:194-219 | From every store satisfying the invariant, a sweep just before a request changes neither the answer nor, up to another sweep, the resulting store |
| `Sweeps.SweptAgain` | api/src/repository.ts:210-219 | A later sweep absorbs an earlier one, for keys and for sessions |
| `Audit.AuditReplays` | api/src/routes/admin.ts:74-166 | For every run, folding a server's audit rows from pending meets no illegal action and ends in the server's current status; a server never enrolled has no rows |
| `Audit.ReplayIffWord` | api/src/routes/admin.ts:74-166 | An action log replays if and only if approve occurs at most once and only first, reissue is not first, and revoke is followed only by reissue; its last action then fixes the status |
| `Audit.AuditIsLifecycleWord` | api/src/repository.ts:227-287 | In every reachable store each server's audit rows form such a word |
| `Audit.ListingIsReversedTail` | api/src/repository.ts:283-287 | The newest-first listing with any limit is the reversed tail of the server's log |
| `Audit.ActionsAreChronological` | api/src/repository.ts:268-287 | Over a run with a nondecreasing clock, audit rows ascend strictly by (created_at, id) |
| `Audit.AdminStepActions` | api/src/routes/admin.ts:84-90 | A lifecycle request writes exactly one audit row, naming the signed-in admin, when it succeeds, and none when it is refused |
| `Accounts.SessionIsHistory` | api/src/repository.ts:405-458 | A session cookie signs its bearer in exactly when a login returned it, as the account that login named, strictly within the configured hours, and until a logout with it is answered; session sweeps make no difference |
| `Accounts.AccountsAreHistory` | api/src/repository.ts:387-399 | The account found by a username is the one the first successful create-admin command made for it |
| `Accounts.AuditNamesAdmins` | api/src/auth.ts:65-76 | Every audit row of every run was written by an account whose role is admin |
| `Ingestion.AtMostOnce` | api/src/migrations.ts:182-188 | In every reachable store, deletions included, two stored events never share a (server, eventId) |
| `Events.InsertIsFirstOnly` | api/src/repository.ts:310-334 | One insertion advances the deduplicated log by exactly one post |
| `Events.FirstOnlyKeys` | api/src/repository.ts:303-334 | Dropping repeats loses no (server, eventId) and invents none |
| `Events.InsertKeepsInv` | api/src/repository.ts:310-334 | Insertion keeps ids ascending and bounded by the counter, and event keys unique |
| `Events.LatestIsNewest` | api/src/repository.ts:357-369 | The correlated subquery's row is in the table, matches its server and category, and no matching row is newer by (created_at, id); it is absent exactly when nothing matches |
| `Events.FleetViewIsServerView` | api/src/routes/admin.ts:22-53 | For every event table and every order of the returned rows, grouping the fleet-wide latest rows gives a server the very map the per-server query and loop build, and both are the newest event of each category |
| `Events.FleetRows` | api/src/serverStatus.ts:25-38 | Grouping is independent of row order: each server gets the newest event of each of its categories and nothing else |
| `Events.ServerRows` | api/src/routes/admin.ts:45-53 | The detail loop gives the newest event of each category of that server and nothing else |
| `Events.GroupEntry` | api/src/serverStatus.ts:25-38 | An entry of the grouped map is the status of the last row of that server and category |
| `Events.CollectEntry` | api/src/routes/admin.ts:46-53 | An entry of the detail map is the status of the last row of that category |
| `Ingestion.PagesAgree` | api/src/routes/admin.ts:22-72 | After any run, a server's overview entry and its detail page show the same public row, the same online flag and the same latest statuses |
| `Events.RetentionKeepsLatest` | api/src/repository.ts:345-383 | Deleting events older than any cutoff leaves each latest entry unchanged if it is recent enough and absent otherwise, never replaced by an older event |
| `Ingestion.RetentionIsLastCutoff` | api/src/retention.ts:9-20 | After any run the table holds, in order, every event row ever inserted that the latest retention run's cutoff does not exclude; nothing else in the run removes or changes a row |
| `Events.CutoffsCollapse` | api/src/retention.ts:9-20 | Two retention runs in a row act like one run with the later cutoff |
| `Events.DeleteOlderContents` | api/src/repository.ts:345-348 | Retention removes exactly the events created before the cutoff |
| `Monitor.AlertsAlternate` | api/src/offlineMonitor.ts:52-73 | When ticks do not overlap, the acknowledged alerts of each server strictly alternate beginning with went-offline, however other requests interleave at the awaits and whichever sends fail |
| `Monitor.MarkerIsLastAck` | api/src/offlineMonitor.ts:48-66 | In every run, overlapping ticks included, the marker is set exactly when the last acknowledged alert of the server is went-offline |
| `Monitor.AckAlternatesIff` | api/src/offlineMonitor.ts:58-66 | An acknowledgement continues the alternation if and only if the marker still is what its tick's snapshot saw |
| `Monitor.WholeTick` | api/src/offlineMonitor.ts:52-73 | Draining a tick through the small steps with nothing in between ends it and leaves the store the sequential loop computes |
| `Monitor.TransitionsExact` | api/src/offlineMonitor.ts:15-37 | A transition is listed if and only if some row of the snapshot is approved and its online state disagrees with its marker in that direction |
| `Monitor.ProcessWritesMarkers` | api/src/offlineMonitor.ts:58-66 | A tick changes nothing but markers, and those only of servers whose send succeeded |
| `Monitor.EnvLeavesMarkers` | api/src/repository.ts:461-468 | No request other than the monitor's own writes touches a marker; new rows start without one |
| `Migrations.RunIsPrefix` | api/src/migrations.ts:219-243 | A run leaves the store equal to applying exactly the ascending pending steps before the failing one (all, if none fails), stamped with the last applied version or the initial one; nothing of the failing step remains |
| `Migrations.Resume` | api/src/migrations.ts:193-243 | A run, failed or not, followed by a run of a repaired or extended list ends exactly where one uninterrupted run of that list ends, provided the steps up to the stamp were kept |
| `Migrations.RunTwice` | api/src/migrations.ts:219-243 | Running again equals running once, in stamp, contents and reported failure |
| `Migrations.InputOrderIrrelevant` | api/src/migrations.ts:221-221 | For distinct versions the order in which the steps are listed does not matter |
| `Migrations.SortedFacts` | api/src/migrations.ts:221-221 | Sorting by version is a strictly ascending rearrangement of the list |
| `Migrations.StampAfter` | api/src/migrations.ts:219-243 | The stamp never falls, stays below a failing version, covers every step before it, and is the initial stamp or the version of a listed step |
| `Migrations.Database.RunMigrations` | api/src/migrations.ts:219-243 | The loop, on the mutable database, leaves exactly the contents, stamp and failure that the gated, transactional run specifies |
| `SchemaSteps.EarlierStepsDone` | api/src/migrations.ts:96-107 | Each shipped step, run again on any later release's schema, finds its guards satisfied and changes nothing |
| `SchemaSteps.StepConverges` | api/src/migrations.ts:35-191 | A shipped step on any release's tables succeeds, keeps all rows and brings the schema to the later of that release and the step |
| `SchemaSteps.ExecAllKeeps` | api/src/migrations.ts:130-189 | A guarded statement list acts on tables with rows as on the bare schema, and preserves every row |
| `Limiter.BackoffBound` | api/src/auth.ts:159-172 | For attempts of one pair that pass the gate one at a time, with any other traffic interleaved, failure max+1+k since the last success comes at least base*(2^k - 1) ms after failure max+1 for k <= 5 and base*(31 + 16(k-5)) ms beyond |
| `Limiter.BlockIsBounded` | api/src/auth.ts:159-161 | The remaining block never exceeds sixteen windows, and the first max failures never block |
| `Limiter.DefaultWindows` | api/src/auth.ts:138-142 | With the defaults the sixth failure blocks for 30 s and from the tenth on for 8 minutes |
| `Limiter.EntryIsPairHistory` | api/src/auth.ts:136-177 | When no address holds the separator, a pair's entry depends on that pair's failures since its last success alone, for every interleaving over many pairs |
| `Limiter.KeyInjective` | api/src/auth.ts:144-146 | Composed keys of pairs whose addresses hold no blank are distinct for distinct pairs |
| `Limiter.KeySeparatesIff` | api/src/auth.ts:144-146 | A pair shares its record with no pair of a blank-free address other than itself if and only if its own address is blank-free |
| `Limiter.LoginAttemptLimiter.MsUntilAllowed` | api/src/auth.ts:150-157 | The answer is a function of the failure times recorded under the key since its last success, and of the clock |
| `Limiter.LoginAttemptLimiter.RecordFailure` | api/src/auth.ts:162-172 | Keeps the map a faithful summary of the recorded calls, extended by this failure; no other key appears or disappears |
| `Limiter.LoginAttemptLimiter.RecordSuccess` | api/src/auth.ts:174-176 | Keeps the map a faithful summary of the recorded calls, extended by this success; only this key is forgotten |
| `Cookies.DecodeEncode` | api/src/auth.ts:31-38 | decodeURIComponent inverts encodeURIComponent on every string of Unicode scalar values |
| `Cookies.ParseCookies` | api/src/auth.ts:17-42 | The loop is total on every header, absent and empty ones included, and computes the part-by-part parse the round trip is about |
| `Cookies.SplitAppend` | api/src/auth.ts:22-22 | Splitting a text with one more separated part yields the earlier parts and that part |
| `Cookies.IndexOf` | api/src/auth.ts:23-23 | The first position of the character, or -1 exactly when it does not occur |
| `IsoTime.TextOrderAgreesIff` | api/src/repository.ts:199-199 | For every pair of instants a Date can hold, comparing the stored strings agrees with comparing the instants if and only if both years are at most 9999 (and not two different years before 0), or both are beyond 9999 |
| `IsoTime.TextOrder` | api/src/repository.ts:173-173 | The exact binary order of any two printed instants |
| `IsoTime.PrintingIsInjective` | api/src/repository.ts:422-422 | No two instants print alike |
| `IsoTime.TextOrderFailsAfter9999` | api/src/repository.ts:215-215 | Two consecutive milliseconds across the end of year 9999 whose strings compare the wrong way round |
| `IsoTime.DigitsOrder` | api/src/repository.ts:364-364 | Fixed-width decimals compare as text exactly as their values do |
| `IsoTime.DateOrder` | api/src/retention.ts:11-11 | Printed month, day and clock compare as text exactly as day of year and millisecond of day do |
| `IsoTime.YearFromDay` | api/src/repository.ts:456-456 | The estimated year is the one whose days include the given day, for every day of the proleptic calendar |
| `Repository.OperationsRepository.ListServers` | api/src/repository.ts:163-165 | Every row exactly once, newest enrollment first, whatever order the table yields them in |
| `Repository.OperationsRepository.ExpirePendingApiKeys` | api/src/repository.ts:210-219 | Scanning rows in any order nulls exactly the expired keys and reports how many rows that was |
| `Repository.OperationsRepository.FindApprovedServerByApiKeyHash` | api/src/repository.ts:221-225 | Scanning rows in any order finds the one approved row with that hash, or none |
| `Repository.OperationsRepository.ListAdminActions` | api/src/repository.ts:283-287 | The scan, sort and limit give one server's newest rows |
| `Repository.OperationsRepository.InsertEvent` | api/src/repository.ts:310-334 | Appends under the next id unless a stored event has the same server and eventId; then nothing changes |
| `Repository.OperationsRepository.DeleteEventsOlderThan` | api/src/repository.ts:345-348 | Keeps the order of what remains and reports the number deleted |
| `Repository.OperationsRepository.LatestRow` | api/src/repository.ts:361-366 | The loop finds the maximum by (created_at, id) of a server and category |
| `Repository.OperationsRepository.ListLatestEventPerCategoryForAllServers` | api/src/repository.ts:357-369 | Every row that is the latest of its server and category, in table order |
| `Repository.OperationsRepository.ListLatestEventPerCategory` | api/src/repository.ts:371-383 | The same for one server |
| `Repository.OperationsRepository.DeleteExpiredSessions` | api/src/repository.ts:455-458 | Scanning in any order drops exactly the sessions expired by now and reports how many |
| `Api.Handle` | api/src/routes/admin.ts:12-168 | Any request, through guards, repository calls and answer, makes exactly the step the run theorems are about and keeps the repository valid |
| `Api.GroupLatestEventsByServer` | api/src/serverStatus.ts:25-38 | The loop builds the grouping of which each entry is the last matching row |
| `Api.ComputeOfflineTransitions` | api/src/offlineMonitor.ts:15-37 | The loop pushes the transitions in listing order |
| `Ingestion.RetryAbsorbedIff` | api/src/repository.ts:303-348 | For every run ending in an accepted event: the table stays as it was if and only if a row with the same (server, eventId) was inserted before, with anything in between, and the latest retention run's cutoff has not passed that row |
| `Ingestion.RetryStoredTwice` | api/src/retention.ts:9-20 | A run of the whole system in which one event is stored twice: posted, deleted by retention once it is old enough, posted again |
| `Monitor.OverlapRepeatsAlert` | api/src/offlineMonitor.ts:81-89 | The interval timer does not wait for the previous tick: for every interval, a run in which a tick started one interval after another, whose send is still awaited, makes went-offline acknowledged twice in a row |
| `Monitor.RetryFixpoint` | api/src/offlineMonitor.ts:15-73 | After a tick with nothing interleaved, computing transitions again at the same instant from any listing the query may return gives exactly the ones whose send failed |
| `Monitor.RetryInOrder` | api/src/offlineMonitor.ts:15-73 | And gives them in the same order when the query returns the servers in the same order |
| `Monitor.ListedTransition` | api/src/offlineMonitor.ts:15-37 | Whatever order the listing has, a transition is computed exactly when the stored row has it |
| `Latency.SilentRun` | api/src/offlineMonitor.ts:52-73 | Conservation along every such run: the marker is set exactly when an alert has been acknowledged, and each tick past the window has alerted, follows an alert, failed, or still waits |
| `Latency.OneAlert` | api/src/offlineMonitor.ts:52-73 | When ticks do not overlap, a silence is alerted at most once |
| `Limiter.SpacedIff` | api/src/auth.ts:150-172 | For any events whatever, attempts that pass the gate together included: the failures of a pair since its last success are spaced by the backoff if and only if each was recorded at an instant at which the gate, asked again, would have let the pair through |
| `Limiter.OpenBound` | api/src/auth.ts:159-172 | Wherever failures are so recorded the real-time bound of the backoff holds, concurrent attempts or not |
| `Limiter.OpenIsZeroWait` | api/src/auth.ts:150-157 | That condition is what msUntilAllowed answers 0 for |
| `Limiter.ConcurrentAttemptsAreNotSpaced` | api/src/routes/auth.ts:32-52 | For every threshold and window, events in which max+2 attempts of a pair each pass the gate, all fail at one instant, and the block set by failure max+1 delays none of them |
| `Limiter.FailuresAreSpaced` | api/src/routes/auth.ts:29-52 | When a pair's attempts go one at a time, each failure past the threshold waits out the backoff of the one before it |
| `Api.AuthRouter.BeginLogin` | api/src/routes/auth.ts:29-46 | The gate's answer depends on the failures of this pair alone, and 0 admits the attempt; the account is the one stored at that moment |
| `Api.AuthRouter.EndLogin` | api/src/routes/auth.ts:47-74 | After the awaited password check, with any requests served in between: exactly one login step on the store and exactly one outcome on the limiter, a failure exactly when the answer is 401 |
| `Api.AttemptIsOneAtATime` | api/src/routes/auth.ts:29-52 | An attempt that ends while it is the one the gate admitted keeps the pair's attempts going one at a time |
| `Api.CountedFailuresAreSpread` | api/src/routes/auth.ts:17-52 | On the router as it stands, with the shipped 5 and 30 s: the failures its limiter has counted against a pair whose attempts went one at a time are spread out by the backoff sum |
| `Accounts.EarlierLookupSuffices` | api/src/routes/auth.ts:38-52 | Looking the account up before the awaited password check, and answering after any other requests, gives the answer and effect of one login step at the later instant |
| `Accounts.AccountStays` | api/src/repository.ts:387-399 | No request of any run changes or removes an account |
| `Accounts.HeaderIsHistory` | api/src/auth.ts:48-63 | From the Cookie header to the account: a header joining any cookies signs its bearer in exactly when a login returned the token of its last session cookie, within the configured hours and before a logout |
| `Api.Authenticate` | api/src/auth.ts:48-63 | The guard on a raw header computes that account |
| `Cookies.HeaderIsLastWins` | api/src/auth.ts:17-42 | Any header of cookies with plain names parses to the last value of each name, decoded where it decodes and raw where an escape is malformed; one bad value harms no other |
| `Cookies.CookieRoundTrip` | api/src/auth.ts:17-42 | Joining any cookies with plain names and percent-encoded values as in section 4.2.1 of RFC 6265 and parsing the header back gives, for every name but `__proto__`, the last value, whatever characters it holds |
| `Cookies.MalformedEscapeKeepsRaw` | api/src/auth.ts:31-38 | Anywhere in a header, the last value of a name whose escapes are malformed is kept as sent |
| `TextColumns.RunsAgree` | api/src/repository.ts:173-456 | Over every run whose clock stays in the years 0 to 9999, the TTL check and sweep, session lookup and sweep, retention, latest-event queries and audit listing give by text comparison of the stored columns what they give by instant |
| `TextColumns.StatementsAgree` | api/src/repository.ts:194-458 | The same for every store whose time columns are in those years |
| `TextColumns.TextIsSound` | api/src/retention.ts:11-11 | Within those years SQLite's text comparison is the order of instants |
| `TextColumns.PrintableIffYear` | api/src/repository.ts:199-199 | The exact first and last millisecond of those years |
| `Repository.OperationsRepository.ListRecentEvents` | api/src/repository.ts:336-340 | The server's newest events up to the limit, none left out that is newer than one taken |
| `Api.GetFleet` | api/src/routes/admin.ts:22-36 | The array holds every server exactly once, newest enrollment first, each with the view of the run theorems |
| `Api.GetServerDetail` | api/src/routes/admin.ts:38-72 | 404 for an unknown id; else the server, its latest statuses, its twenty newest actions and its thousand newest events |
| `Api.OfflineMonitor.StartTick` | api/src/offlineMonitor.ts:52-59 | A timer firing makes exactly the snapshot step of the small-step monitor, from a complete listing; without a webhook it does nothing |
| `Api.OfflineMonitor.SendSettled` | api/src/offlineMonitor.ts:60-70 | The reply to any awaited send, of any of the suspended ticks, makes exactly the reply step: the marker if it succeeded, nothing if it failed |
| `Api.RunOfflineCheck` | api/src/offlineMonitor.ts:52-73 | The same code run through with nothing interleaved is the sequential tick |
| `Answers.AnswerIsHistory` | api/src/routes/admin.ts:12-168 | In every run, every request of every route is answered exactly what the requests answered before it dictate, success and refusal alike: 401 exactly without a live session or key, 403 exactly to viewers on lifecycle requests, 404 and 409 by the server's own history, the claim, key or token just generated, and both admin pages column by column, with the last visible status of each category and the twenty newest actions |
| `Answers.BearerIsSignedIn` | api/src/auth.ts:48-63 | Without a cookie, with an empty one, after logout or expiry nobody is signed in; otherwise the account of the login that returned the token |
| `Answers.StatusesAreShown` | api/src/serverStatus.ts:25-38 | The status of a category on either page is severity, time and payload of the last event of that category that was stored and not excluded by retention |
| `Answers.ListedActions` | api/src/routes/admin.ts:54-62 | The page's actions are the last twenty lifecycle effects, newest first, each with the acting admin, the given reason and the time |
| `Runs.KeyLife` | api/src/auth.ts:112-127 | Each issued key has one contiguous life: after any run, a key authenticates as a server if and only if some approve or reissue of that very server issued it (for a reissue: answered it) and no later approve, revoke or reissue of that server was answered |
| `Profiles.OnlineIsHistory` | api/src/serverStatus.ts:46-61 | The overview shows a server online exactly when a heartbeat carrying its live key came within expected interval times missed threshold, in minutes, whatever else happened since |
| `Profiles.FlaggedIff` | api/src/offlineMonitor.ts:15-37 | Over every run, a tick flags a server as gone offline exactly when it holds a live key, carries no marker and sent no heartbeat within the missed intervals; a server that keeps to them, or is pending or revoked, is never flagged |
| `Monitor.SnapshotTransition` | api/src/offlineMonitor.ts:24-35 | A transition is computed exactly for an approved server whose last heartbeat, measured against interval times threshold, disagrees with its marker in that direction |
| `Latency.AlertLatency` | api/src/offlineMonitor.ts:52-90 | In every run of the small-step monitor, overlapping ticks and requests at every await included: a server silent since h, unmarked at the start, checked every I, has an acknowledged alert sent no later than due + (n+1)I, with due = h + interval times threshold, once the (n+1)-th tick past due has sent without failing; every alert of the silence says went-offline and was sent strictly after due |
| `Latency.NoAlertYet` | api/src/offlineMonitor.ts:15-37 | As long as no tick is past h + interval times threshold, nothing about the server is acknowledged |
| `Ingestion.ExactlyOnce` | api/src/repository.ts:303-334 | While retention has deleted nothing, the events table after any run equals, in order and up to row ids, the accepted posts, with every field as it was sent, every repeat of a (server, eventId) dropped and every post without an eventId kept |
| `Ingestion.TableIsHistory` | api/src/repository.ts:310-348 | The events table after any run, deletions included, is a function of the answered requests: each event sent with a live key, under its server, with every field as sent and the time of its arrival, unless a spared earlier event of that server has its eventId, and unless the latest retention run excludes it |
| `Ingestion.SenderIsServer` | api/src/auth.ts:112-127 | The server an event or heartbeat is credited to is the one whose live key it carried |
| `Sweeps.SweepLeavesLiveKeys` | api/src/repository.ts:210-219 | Right after a key sweep the store holds in plaintext exactly the approved keys still within five minutes of their approval |
| `Sweeps.SweepLeavesLiveSessions` | api/src/repository.ts:455-458 | Right after a session sweep the store holds exactly the sessions that still sign their bearer in |
| `SchemaSteps.ReleaseSchemas` | api/src/migrations.ts:35-191 | The first k shipped steps give exactly the tables, columns and indexes (table, key, uniqueness) of release k, for every k |
| `SchemaSteps.InstallServesRepository` | api/src/repository.ts:131-468 | A fresh install has every column the repository's statements name and the partial unique index their conflict clause needs |
| `SchemaSteps.UniqueIndexExact` | api/src/migrations.ts:182-188 | Creating the unique index is refused exactly over two rows of one server carrying one event_id |
| `SchemaSteps.Converges` | api/src/migrations.ts:23-34 | From the schema of any release k with any rows, stamped with any version up to k (a database older than the runner is stamped 0), the runner ends in the schema and stamp of a fresh install, which is that of release 7, every row of every table kept, old columns unchanged and new ones NULL |
| `Limiter.WaitIsExact` | api/src/auth.ts:150-157 | Asked again at any later instant, the gate is open from the announced moment on and not before |
| `Limiter.BlockEndsAt` | api/src/auth.ts:159-172 | Failure max+1+k blocks for 1, 2, 4, 8 and then always 16 windows from its own instant |
| `Cookies.PiecesParse` | api/src/auth.ts:22-40 | What any header of any parts parses to: parts without '=' or without a name change nothing wherever they stand, every other part sets its name to its value, both trimmed, decoded or kept as sent |
| `Cookies.EveryHeader` | api/src/auth.ts:17-42 | Every string is a header of such parts, so the parse of every header is determined |
| `Cookies.TrimExact` | api/src/auth.ts:27-28 | Trimming removes the blanks at both ends and nothing else |
| `Cookies.DecodeExact` | api/src/auth.ts:34-38 | decodeURIComponent returns t on s if and only if s spells t, each character as itself or by escapes of its UTF-8 octets in either case; it throws exactly on strings that spell nothing |
| `IsoTime.ParseInvertsPrinting` | api/src/serverStatus.ts:55-60 | Every timestamp of the years 0 to 9999 has the fixed 24-character form, and reading it back gives the instant it was printed from |
| `IsoTime.MonthLengths` | api/src/repository.ts:173-173 | The calendar's months have their lengths, in leap years and others |
| `IsoTime.YearLength` | api/src/repository.ts:173-173 | Years have 365 days, leap years 366 |

## Left out

- Express, JSON, zod, the config loader, status texts and headers: the model starts after validation and answers with a datatype. A revoke or reissue with a malformed body (400) changes nothing in the code and has no step here.
- `requireBootstrapSecret`, the bootstrap-secret check of the enroll routes, the same-origin check, health routes, command-line prompts, backup and graceful shutdown: guards and plumbing around the modelled steps.
- Password hashing, random generation and timing behaviour: a login carries whether its password is right, and a request carries the tokens it generates.
- SQLite itself (WAL, locking, query plans, CHECK, NOT NULL, PRIMARY KEY and UNIQUE clauses of the schema steps, the DESC of an index). That an ignored INSERT may still use up an AUTOINCREMENT id is not modelled; no theorem depends on the value of an id beyond its order.
- A crash between a status update and its audit row: each handler is one step.
- JSON parsing of payloads: payloads are opaque text. The event category `heartbeat`, which the table allows and no route writes, is not represented.
- Fleet answers in the run theorems are compared as maps from server id to entry, and detail answers without the list of recent events, because the query leaves the order of equal timestamps open; `Api.GetFleet` and `Api.GetServerDetail` state the order and the list.
- Discord and message texts: a send succeeds or fails.
- All of the user interface.
- Api.RunOfflineCheck: the method is the tick with nothing interleaved; `Api.OfflineMonitor` is the same code cut at its awaits, and `Monitor.WholeTick` connects the two.
- Monitor.AlertsAlternate: assumes that ticks do not overlap, because the property fails otherwise.
- Latency.AlertLatency: an alert carries the clock reading of the tick that sent it; how long a send takes is not modelled, so the bound is on the tick and not on the reply.
- Limiter.BackoffBound: assumes attempts of the pair that go one at a time, because the bound fails for concurrent ones; `Limiter.OpenBound` needs only the exact condition. Times are integers where the code has doubles.
- Runs.KeyLife: the key is compared by hash, so the statement rests on the injective hash.
- Cookies.CookieRoundTrip: strings are sequences of Unicode scalar values, so lone surrogates, which `encodeURIComponent` refuses, do not occur; assignments to `__proto__` store nothing, as in a plain object.
- Migrations.Database.RunMigrations: the sort is a function rather than a loop, and the text of the thrown error is not modelled.
- IsoTime.ParseInvertsPrinting: reads the 24-character form only; other texts that `new Date` accepts never reach a column.
