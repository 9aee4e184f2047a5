/** The migration runner: ordered, version-gated, one transaction per step, stopping at the first failure. */
module Migrations {
  import opened Base

  /** `up` gives the migrated contents, or None where it throws. */
  datatype Migration<!S> = Migration(version: int, up: S -> Option<S>)

  datatype File<S> = File(data: S, version: int)

  /** Where a run stopped: the file, and the version of the step that failed. */
  datatype Outcome<S> = Outcome(file: File<S>, failed: Option<int>)

  // ----- ordering -----

  function InsertByVersion<S>(ms: seq<Migration<S>>, m: Migration<S>): seq<Migration<S>> {
    if ms == [] || m.version < ms[|ms| - 1].version then
      (if ms == [] then [m] else InsertByVersion(ms[..|ms| - 1], m) + [ms[|ms| - 1]])
    else ms + [m]
  }

  /** `[...migrations].sort((a, b) => a.version - b.version)`, a stable sort. */
  function Sorted<S>(ms: seq<Migration<S>>): seq<Migration<S>> {
    if ms == [] then [] else InsertByVersion(Sorted(ms[..|ms| - 1]), ms[|ms| - 1])
  }

  // ----- running -----

  /** One transaction: the step's change and its stamp together, or nothing. */
  function Attempt<S>(file: File<S>, m: Migration<S>): Outcome<S> {
    match m.up(file.data)
    case None => Outcome(file, Some(m.version))
    case Some(data) => Outcome(File(data, m.version), None)
  }

  /** The steps in the given order, those at or below `gate` skipped. */
  function Execute<S>(file: File<S>, ms: seq<Migration<S>>, gate: int): Outcome<S> {
    if ms == [] then Outcome(file, None)
    else
      var before := Execute(file, ms[..|ms| - 1], gate);
      var m := ms[|ms| - 1];
      if before.failed.Some? || m.version <= gate then before else Attempt(before.file, m)
  }

  /** runMigrations as a function of the file it is given. */
  function Run<S>(file: File<S>, ms: seq<Migration<S>>): Outcome<S> {
    Execute(file, Sorted(ms), file.version)
  }

  class Database<S(!new)> {
    var data: S
    var userVersion: int

    constructor (data: S, version: int)
      ensures Contents() == File(data, version)
    {
      this.data, userVersion := data, version;
    }

    function Contents(): File<S>
      reads this
    {
      File(data, userVersion)
    }

    method RunMigrations(migrations: seq<Migration<S>>) returns (failed: Option<int>)
      modifies this
      ensures Outcome(Contents(), failed) == Run(old(Contents()), migrations)
    {
      var currentVersion := userVersion;
      var ordered := Sorted(migrations);
      var i := 0;
      failed := None;
      while i < |ordered|
        invariant 0 <= i <= |ordered|
        invariant failed == None
        invariant Outcome(Contents(), None) == Execute(old(Contents()), ordered[..i], currentVersion)
      {
        var migration := ordered[i];
        assert ordered[..i + 1][..i] == ordered[..i];
        if migration.version > currentVersion {
          match migration.up(data) {
            case None =>
              StopAtFailure(old(Contents()), ordered, currentVersion, i);
              return Some(migration.version);
            case Some(migrated) =>
              data, userVersion := migrated, migration.version;
          }
        }
        i := i + 1;
      }
      assert ordered[..|ordered|] == ordered;
    }
  }

  lemma {:induction false} StopAtFailure<S>(file: File<S>, ms: seq<Migration<S>>, gate: int, i: nat)
    requires i < |ms| && Execute(file, ms[..i + 1], gate).failed.Some?
    ensures Execute(file, ms, gate) == Execute(file, ms[..i + 1], gate)
  {
    if i + 1 == |ms| {
      assert ms[..i + 1] == ms;
    } else {
      assert ms[..|ms| - 1][..i + 1] == ms[..i + 1];
      StopAtFailure(file, ms[..|ms| - 1], gate, i);
    }
  }

  // ----- sorting facts -----

  ghost predicate Distinct<S(!new)>(ms: seq<Migration<S>>) {
    forall i, j :: 0 <= i < j < |ms| ==> ms[i].version != ms[j].version
  }

  ghost predicate Ascending<S(!new)>(ms: seq<Migration<S>>) {
    forall i, j :: 0 <= i < j < |ms| ==> ms[i].version < ms[j].version
  }

  lemma {:induction false} InsertContents<S(!new)>(ms: seq<Migration<S>>, m: Migration<S>)
    ensures forall x :: x in InsertByVersion(ms, m) <==> x in ms || x == m
    ensures |InsertByVersion(ms, m)| == |ms| + 1
  {
    if ms == [] {
    } else {
      assert ms == ms[..|ms| - 1] + [ms[|ms| - 1]];
      if m.version < ms[|ms| - 1].version { InsertContents(ms[..|ms| - 1], m); }
    }
  }

  lemma {:induction false} InsertAscending<S(!new)>(ms: seq<Migration<S>>, m: Migration<S>)
    requires Ascending(ms) && forall x :: x in ms ==> x.version != m.version
    ensures Ascending(InsertByVersion(ms, m))
  {
    if ms != [] && m.version < ms[|ms| - 1].version {
      var rest, last := ms[..|ms| - 1], ms[|ms| - 1];
      assert forall x :: x in rest ==> x in ms;
      InsertAscending(rest, m);
      InsertContents(rest, m);
      var front := InsertByVersion(rest, m);
      forall i | 0 <= i < |front| ensures front[i].version < last.version {
        assert front[i] in front;
        if front[i] in rest { var j :| 0 <= j < |rest| && rest[j] == front[i]; assert ms[j] == rest[j]; }
      }
    } else if ms != [] {
      assert ms[|ms| - 1] in ms;
    }
  }

  lemma {:induction false} SortedFacts<S(!new)>(ms: seq<Migration<S>>)
    requires Distinct(ms)
    ensures Ascending(Sorted(ms)) && |Sorted(ms)| == |ms|
    ensures forall x :: x in Sorted(ms) <==> x in ms
  {
    if ms == [] {
    } else {
      var rest, last := ms[..|ms| - 1], ms[|ms| - 1];
      SortedFacts(rest);
      assert ms == rest + [last];
      forall x | x in Sorted(rest) ensures x.version != last.version {
        assert x in rest;
      }
      InsertAscending(Sorted(rest), last);
      InsertContents(Sorted(rest), last);
    }
  }

  lemma BelowLast<S(!new)>(a: seq<Migration<S>>, z: Migration<S>)
    requires a != [] && Ascending(a)
    ensures z in a[..|a| - 1] <==> z in a && z.version < a[|a| - 1].version
  {
    var n := |a| - 1;
    if z in a[..n] {
      var i :| 0 <= i < n && a[..n][i] == z;
      assert a[i] == z;
    }
    if z in a && z.version < a[n].version {
      var i :| 0 <= i < |a| && a[i] == z;
      assert a[..n][i] == z;
    }
  }

  lemma LastIsGreatest<S(!new)>(a: seq<Migration<S>>, b: seq<Migration<S>>)
    requires a != [] && b != [] && Ascending(a) && Ascending(b) && forall x :: x in a <==> x in b
    ensures a[|a| - 1] == b[|b| - 1]
  {
    assert a[|a| - 1] in b && b[|b| - 1] in a;
    BelowLast(b, a[|a| - 1]);
    BelowLast(a, b[|b| - 1]);
    assert b == b[..|b| - 1] + [b[|b| - 1]];
    assert a == a[..|a| - 1] + [a[|a| - 1]];
  }

  lemma {:induction false} AscendingIsUnique<S(!new)>(a: seq<Migration<S>>, b: seq<Migration<S>>)
    requires Ascending(a) && Ascending(b) && forall x :: x in a <==> x in b
    ensures a == b
  {
    if b != [] { assert b[0] in a; }
    if a != [] {
      assert a[0] in b;
      LastIsGreatest(a, b);
      var ra, rb := a[..|a| - 1], b[..|b| - 1];
      forall z ensures z in ra <==> z in rb {
        BelowLast(a, z);
        BelowLast(b, z);
      }
      AscendingIsUnique(ra, rb);
      assert a == ra + [a[|a| - 1]] && b == rb + [a[|a| - 1]];
    }
  }

  // ----- properties of a run -----

  /** The order the steps are listed in does not matter. */
  lemma InputOrderIrrelevant<S(!new)>(file: File<S>, ms: seq<Migration<S>>, ns: seq<Migration<S>>)
    requires Distinct(ms) && Distinct(ns) && forall x :: x in ms <==> x in ns
    ensures Run(file, ms) == Run(file, ns)
  {
    SortedFacts(ms);
    SortedFacts(ns);
    AscendingIsUnique(Sorted(ms), Sorted(ns));
  }

  /** All of `ms` applied in order, each stamped; None if one throws. */
  function ApplyAll<S>(file: File<S>, ms: seq<Migration<S>>): Option<File<S>> {
    if ms == [] then Some(file)
    else
      match ApplyAll(file, ms[..|ms| - 1])
      case None => None
      case Some(f) =>
        match ms[|ms| - 1].up(f.data)
        case None => None
        case Some(data) => Some(File(data, ms[|ms| - 1].version))
  }

  function Above<S>(ms: seq<Migration<S>>, gate: int): seq<Migration<S>> {
    if ms == [] then []
    else Above(ms[..|ms| - 1], gate) + if ms[|ms| - 1].version > gate then [ms[|ms| - 1]] else []
  }

  /** `o` applied exactly the first `n` pending steps, and failed at the next one if there is one. */
  ghost predicate AppliedPrefix<S(!new)>(file: File<S>, pending: seq<Migration<S>>, n: nat, o: Outcome<S>) {
    n <= |pending|
    && ApplyAll(file, pending[..n]) == Some(o.file)
    && if n == |pending| then o.failed.None? else o.failed == Some(pending[n].version) && pending[n].up(o.file.data).None?
  }

  lemma MorePending<S(!new)>(file: File<S>, pending: seq<Migration<S>>, n: nat, o: Outcome<S>, m: Migration<S>)
    requires AppliedPrefix(file, pending, n, o)
    ensures o.failed.Some? ==> AppliedPrefix(file, pending + [m], n, o)
    ensures o.failed.None? && m.up(o.file.data).None? ==> AppliedPrefix(file, pending + [m], n, Attempt(o.file, m))
    ensures o.failed.None? && m.up(o.file.data).Some? ==> AppliedPrefix(file, pending + [m], n + 1, Attempt(o.file, m))
  {
    var more := pending + [m];
    assert more[..n] == pending[..n];
    if o.failed.None? {
      assert more[..n + 1] == more && more[..|more| - 1] == pending && pending[..n] == pending;
    }
  }

  /** A run leaves exactly the ascending prefix before the failing step applied, stamped with the last
      applied version (or the initial one): nothing of the failing step, nothing after it. */
  lemma {:induction false} RunIsPrefix<S(!new)>(file: File<S>, ms: seq<Migration<S>>, gate: int)
    ensures exists n: nat :: AppliedPrefix(file, Above(ms, gate), n, Execute(file, ms, gate))
  {
    if ms == [] {
      assert AppliedPrefix(file, Above(ms, gate), 0, Execute(file, ms, gate));
    } else {
      var rest, m := ms[..|ms| - 1], ms[|ms| - 1];
      RunIsPrefix(file, rest, gate);
      var o, pending := Execute(file, rest, gate), Above(rest, gate);
      var n: nat :| AppliedPrefix(file, pending, n, o);
      if m.version > gate {
        MorePending(file, pending, n, o, m);
        assert Above(ms, gate) == pending + [m];
        var k: nat := if o.failed.None? && m.up(o.file.data).Some? then n + 1 else n;
        assert AppliedPrefix(file, Above(ms, gate), k, Execute(file, ms, gate));
      } else {
        assert Above(ms, gate) == pending;
        assert AppliedPrefix(file, Above(ms, gate), n, Execute(file, ms, gate));
      }
    }
  }

  /** Versions of the stamp a run can leave: the gate, or that of a step that was applied. */
  lemma {:induction false} StampAfter<S(!new)>(file: File<S>, ms: seq<Migration<S>>)
    requires Ascending(ms)
    ensures var r := Execute(file, ms, file.version);
            && r.file.version >= file.version
            && (r.failed.Some? ==> r.failed.value > r.file.version)
            && (forall i :: 0 <= i < |ms| && (r.failed.None? || ms[i].version < r.failed.value) ==> ms[i].version <= r.file.version)
            && (r.file.version == file.version || exists i :: 0 <= i < |ms| && ms[i].version == r.file.version)
  {
    if ms == [] {
    } else {
      var rest := ms[..|ms| - 1];
      StampAfter(file, rest);
      var r := Execute(file, rest, file.version);
      if r.failed.Some? { FailedIn(file, rest, file.version); }
      if r.file.version != file.version {
        var i :| 0 <= i < |rest| && rest[i].version == r.file.version;
        assert ms[i].version == r.file.version;
      }
      var r' := Execute(file, ms, file.version);
      if r'.failed.None? && r'.file.version != r.file.version {
        assert ms[|ms| - 1].version == r'.file.version;
      }
    }
  }

  lemma {:induction false} SkipsBelow<S(!new)>(file: File<S>, ms: seq<Migration<S>>, gate: int)
    requires forall i :: 0 <= i < |ms| ==> ms[i].version <= gate
    ensures Execute(file, ms, gate) == Outcome(file, None)
  {
    if ms == [] {
    } else {
      SkipsBelow(file, ms[..|ms| - 1], gate);
    }
  }

  /** Running again is the same as running once, whether the first run finished or failed. */
  lemma RunTwice<S(!new)>(file: File<S>, ms: seq<Migration<S>>)
    requires Distinct(ms)
    ensures Run(Run(file, ms).file, ms) == Run(file, ms)
  {
    SortedFacts(ms);
    ResumeSorted(file, Sorted(ms), Sorted(ms));
  }

  /** The repaired list keeps the steps up to the stamp; later ones may be changed, added or dropped. */
  ghost predicate Repairs<S(!new)>(ms: seq<Migration<S>>, repaired: seq<Migration<S>>, stamp: int) {
    forall x: Migration<S> :: x.version <= stamp ==> (x in ms <==> x in repaired)
  }

  /** Resume after repair: a run, failed or not, followed by a run of a repaired or extended list ends
      exactly where one uninterrupted run of that list ends. */
  lemma Resume<S(!new)>(file: File<S>, ms: seq<Migration<S>>, repaired: seq<Migration<S>>)
    requires Distinct(ms) && Distinct(repaired) && Repairs(ms, repaired, Run(file, ms).file.version)
    ensures Run(Run(file, ms).file, repaired) == Run(file, repaired)
  {
    SortedFacts(ms);
    SortedFacts(repaired);
    ResumeSorted(file, Sorted(ms), Sorted(repaired));
  }

  /** Splits an ascending list at a version. */
  lemma SplitAt<S(!new)>(ms: seq<Migration<S>>, v: int) returns (n: nat)
    requires Ascending(ms)
    ensures n <= |ms|
    ensures forall i :: 0 <= i < n ==> ms[i].version <= v
    ensures forall i :: n <= i < |ms| ==> ms[i].version > v
  {
    n := |ms|;
    while n > 0 && ms[n - 1].version > v
      invariant n <= |ms|
      invariant forall i :: n <= i < |ms| ==> ms[i].version > v
    {
      n := n - 1;
    }
  }

  lemma {:induction false} ExecuteSplit<S(!new)>(file: File<S>, ms: seq<Migration<S>>, gate: int, n: nat)
    requires n <= |ms|
    ensures var first := Execute(file, ms[..n], gate);
            Execute(file, ms, gate) == if first.failed.Some? then first else Execute(first.file, ms[n..], gate)
  {
    if n == |ms| {
      assert ms[..n] == ms && ms[n..] == [];
    } else {
      var rest := ms[..|ms| - 1];
      ExecuteSplit(file, rest, gate, n);
      assert rest[..n] == ms[..n] && ms[n..][..|ms| - n - 1] == rest[n..];
    }
  }

  lemma {:induction false} SameGate<S(!new)>(file: File<S>, ms: seq<Migration<S>>, g: int, h: int)
    requires forall i :: 0 <= i < |ms| ==> ms[i].version > g && ms[i].version > h
    ensures Execute(file, ms, g) == Execute(file, ms, h)
  {
    if ms == [] {
    } else {
      SameGate(file, ms[..|ms| - 1], g, h);
    }
  }

  /** The first pending step either fails, and nothing has happened, or leaves a stamp no smaller. */
  lemma FirstStamps<S(!new)>(file: File<S>, rest: seq<Migration<S>>, gate: int)
    requires rest != [] && Ascending(rest) && rest[0].version > gate
    ensures var r := Execute(file, rest, gate); r.file == file || r.file.version >= rest[0].version
  {
    ExecuteSplit(file, rest, gate, 1);
    var one := Execute(file, rest[..1], gate);
    assert rest[..1][..0] == [] && rest[..1][0] == rest[0];
    if one.failed.None? { LaterStamp(one.file, rest[1..], gate, rest[0].version); }
  }

  /** The steps up to the stamp a run left, run alone, give that run's file. */
  lemma StampedPrefix<S(!new)>(file: File<S>, ms: seq<Migration<S>>, n: nat)
    requires Ascending(ms) && n <= |ms|
    requires forall i :: 0 <= i < n ==> ms[i].version <= Execute(file, ms, file.version).file.version
    requires forall i :: n <= i < |ms| ==> ms[i].version > Execute(file, ms, file.version).file.version
    ensures Execute(file, ms[..n], file.version) == Outcome(Execute(file, ms, file.version).file, None)
  {
    var r := Execute(file, ms, file.version);
    var first := Execute(file, ms[..n], file.version);
    ExecuteSplit(file, ms, file.version, n);
    StampAfter(file, ms);
    StampAfter(file, ms[..n]);
    if first.failed.None? && n < |ms| {
      FirstStamps(first.file, ms[n..], file.version);
    } else if first.failed.Some? {
      FailedIn(file, ms[..n], file.version);
    }
  }

  lemma {:induction false} LaterStamp<S(!new)>(file: File<S>, ms: seq<Migration<S>>, gate: int, v: int)
    requires file.version >= v && forall i :: 0 <= i < |ms| ==> ms[i].version > v
    ensures Execute(file, ms, gate).file.version >= v
  {
    if ms == [] {
    } else {
      LaterStamp(file, ms[..|ms| - 1], gate, v);
    }
  }

  lemma {:induction false} FailedIn<S(!new)>(file: File<S>, ms: seq<Migration<S>>, gate: int)
    requires Execute(file, ms, gate).failed.Some?
    ensures exists i :: 0 <= i < |ms| && ms[i].version == Execute(file, ms, gate).failed.value
  {
    if ms == [] {
    } else {
      var rest := ms[..|ms| - 1];
      if Execute(file, rest, gate).failed.Some? {
        FailedIn(file, rest, gate);
        var i :| 0 <= i < |rest| && rest[i].version == Execute(file, rest, gate).failed.value;
        assert ms[i].version == rest[i].version;
      } else {
        assert ms[|ms| - 1].version == Execute(file, ms, gate).failed.value;
      }
    }
  }

  lemma ResumeSorted<S(!new)>(file: File<S>, ms: seq<Migration<S>>, ns: seq<Migration<S>>)
    requires Ascending(ms) && Ascending(ns) && Repairs(ms, ns, Execute(file, ms, file.version).file.version)
    ensures var r := Execute(file, ms, file.version).file;
            Execute(r, ns, r.version) == Execute(file, ns, file.version)
  {
    var o := Execute(file, ms, file.version);
    var r := o.file;
    StampAfter(file, ms);
    var n := SplitAt(ms, r.version);
    var k := SplitAt(ns, r.version);
    StampedPrefix(file, ms, n);
    forall x ensures x in ms[..n] <==> x in ns[..k] {
      Below(ms, n, r.version, x);
      Below(ns, k, r.version, x);
    }
    AscendingIsUnique(ms[..n], ns[..k]);
    ExecuteSplit(file, ns, file.version, k);
    ExecuteSplit(r, ns, r.version, k);
    SkipsBelow(r, ns[..k], r.version);
    SameGate(r, ns[k..], file.version, r.version);
  }

  lemma Below<S(!new)>(ms: seq<Migration<S>>, n: nat, v: int, x: Migration<S>)
    requires n <= |ms|
    requires forall i :: 0 <= i < n ==> ms[i].version <= v
    requires forall i :: n <= i < |ms| ==> ms[i].version > v
    ensures x in ms[..n] <==> x in ms && x.version <= v
  {
    if x in ms && x.version <= v {
      var i :| 0 <= i < |ms| && ms[i] == x;
      assert i < n;
      assert ms[..n][i] == x;
    }
  }
}
