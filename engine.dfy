/** The migration engine: bootstrapping the baseline tables, applying the
    outstanding migrations (`ApplyMigrations`) and reversing them all
    (`DownAll`), against a database and a goose layer seen only through the
    oracle operations of `Database`. */
module Engine {
  import opened Records
  import opened Legacy

  /** The baseline tables, in bootstrap order; each stands for its
      `CREATE TABLE IF NOT EXISTS` statement. */
  const Tables: seq<string> := ["routes", "apps", "calls", "logs"]

  /** What the core asks of the database and of goose, in order. */
  datatype Event =
    | Statement(table: string)
    | VersionQuery
    | LegacyQuery
    | Forward(version: int)
    | Reverse(version: int)

  /** How an entry point ends: with success, an error returned to the
      caller, the process stop of `log.Fatal`, or a slice-bounds panic. */
  datatype Outcome = Ok | Err(error: Error) | Halt | Panic

  /** The behaviour of the database and of goose. A statement, an `Up` or a
      `Down` fails exactly when its key is in the failure map; reading the
      goose version while `v` is recorded fails with `versionError(v)`, if
      that holds an error; the legacy query meets
      `legacy`; a successful `Down` of version `v` leaves `afterDown(v)` as
      the recorded version. */
  datatype Env = Env(
    execFailures: map<string, Error>,
    versionError: int -> Option<Error>,
    legacy: LegacyTable,
    upFailures: map<int, Error>,
    downFailures: map<int, Error>,
    afterDown: int -> int)

  /** The assumption under which the reversal loop terminates: every
      successful `Down` lowers the recorded version. */
  ghost predicate DownLowers(env: Env) {
    forall v :: env.afterDown(v) < v
  }

  /** A run of an entry point: its outcome, what it asked of the database,
      and the goose version recorded at the end. */
  datatype Run = Run(outcome: Outcome, events: seq<Event>, recorded: int)

  function ExecEvents(tables: seq<string>): (es: seq<Event>)
    ensures |es| == |tables| && forall i :: 0 <= i < |tables| ==> es[i] == Statement(tables[i])
  {
    seq(|tables|, i requires 0 <= i < |tables| => Statement(tables[i]))
  }

  function UpEvents(ms: seq<Migration>): (es: seq<Event>)
    ensures |es| == |ms| && forall i :: 0 <= i < |ms| ==> es[i] == Forward(ms[i].version)
  {
    seq(|ms|, i requires 0 <= i < |ms| => Forward(ms[i].version))
  }

  /** The position of the first key that fails, or `|keys|` if none does. */
  function FirstFailing<K>(keys: seq<K>, failures: map<K, Error>): (k: nat)
    ensures k <= |keys|
    ensures forall j :: 0 <= j < k ==> keys[j] !in failures
    ensures k < |keys| ==> keys[k] in failures
  {
    if keys == [] then 0
    else if keys[0] in failures then 0
    else 1 + FirstFailing(keys[1..], failures)
  }

  /** The database and the goose layer, as oracles over a recorded goose
      version. `trace` is the history of requests. */
  class Database {
    const env: Env
    var recorded: int
    var trace: seq<Event>

    constructor (env: Env, recorded: int)
      ensures this.env == env && this.recorded == recorded && trace == []
    {
      this.env := env;
      this.recorded := recorded;
      trace := [];
    }

    /** `db.ExecContext` of one bootstrap statement. */
    method ExecContext(table: string) returns (err: Option<Error>)
      modifies this`trace
      ensures trace == old(trace) + [Statement(table)]
      ensures err == if table in env.execFailures then Some(env.execFailures[table]) else None
    {
      trace := trace + [Statement(table)];
      err := if table in env.execFailures then Some(env.execFailures[table]) else None;
    }

    /** `goose.GetDBVersion`: the recorded version and the read error. */
    method GetDBVersion() returns (version: int, err: Option<Error>)
      modifies this`trace
      ensures trace == old(trace) + [VersionQuery]
      ensures version == recorded && err == env.versionError(recorded)
    {
      trace := trace + [VersionQuery];
      version, err := recorded, env.versionError(recorded);
    }

    /** The single-row query on the legacy table. */
    method QueryLegacy() returns (t: LegacyTable)
      modifies this`trace
      ensures trace == old(trace) + [LegacyQuery]
      ensures t == env.legacy
    {
      trace := trace + [LegacyQuery];
      t := env.legacy;
    }

    /** `Migration.Up`: on success the migration's version is recorded. */
    method Up(m: Migration) returns (err: Option<Error>)
      modifies this`trace, this`recorded
      ensures trace == old(trace) + [Forward(m.version)]
      ensures m.version in env.upFailures ==> err == Some(env.upFailures[m.version]) && recorded == old(recorded)
      ensures m.version !in env.upFailures ==> err == None && recorded == m.version
    {
      trace := trace + [Forward(m.version)];
      if m.version in env.upFailures {
        err := Some(env.upFailures[m.version]);
      } else {
        err := None;
        recorded := m.version;
      }
    }

    /** `Migration.Down`: on success the recorded version becomes
        `afterDown` of the migration's version. */
    method Down(m: Migration) returns (err: Option<Error>)
      modifies this`trace, this`recorded
      ensures trace == old(trace) + [Reverse(m.version)]
      ensures m.version in env.downFailures ==> err == Some(env.downFailures[m.version]) && recorded == old(recorded)
      ensures m.version !in env.downFailures ==> err == None && recorded == env.afterDown(m.version)
    {
      trace := trace + [Reverse(m.version)];
      if m.version in env.downFailures {
        err := Some(env.downFailures[m.version]);
      } else {
        err := None;
        recorded := env.afterDown(m.version);
      }
    }
  }

  // ----- reference definitions of the two entry points -----

  /** Forward actions over `left`, in order, stopping at the first failure. */
  function RunUps(env: Env, recorded: int, left: seq<Migration>): Run
    decreases |left|
  {
    if left == [] then Run(Ok, [], recorded)
    else if left[0].version in env.upFailures then
      Run(Err(env.upFailures[left[0].version]), [Forward(left[0].version)], recorded)
    else
      var rest := RunUps(env, left[0].version, left[1..]);
      Run(rest.outcome, [Forward(left[0].version)] + rest.events, rest.recorded)
  }

  /** The bootstrap succeeds and the goose version is read without an error
      other than `ErrNoNextVersion`: the legacy check is reached. */
  predicate ReachesLegacyCheck(env: Env, recorded: int) {
    FirstFailing(Tables, env.execFailures) == |Tables| &&
    (env.versionError(recorded).None? || env.versionError(recorded) == Some(ErrNoNextVersion))
  }

  /** `ApplyMigrations` on the sorted and linked registry `registry`, from
      the recorded goose version `recorded`. */
  function ApplyRun(env: Env, recorded: int, registry: seq<Migration>): Run {
    var k := FirstFailing(Tables, env.execFailures);
    if k < |Tables| then
      Run(Err(env.execFailures[Tables[k]]), ExecEvents(Tables[..k + 1]), recorded)
    else if !ReachesLegacyCheck(env, recorded) then
      Run(Err(env.versionError(recorded).value), ExecEvents(Tables) + [VersionQuery], recorded)
    else
      var pre := ExecEvents(Tables) + [VersionQuery] + [LegacyQuery];
      match ReconcileLegacy(registry, ReadLegacyVersion(env.legacy))
      case CheckFailed(e) => Run(Err(e), pre, recorded)
      case Corrupted => Run(Halt, pre, recorded)
      case SlicePanic => Run(Panic, pre, recorded)
      case Outstanding(migrateCurrent, left) =>
        if recorded < migrateCurrent then
          var ups := RunUps(env, recorded, left);
          Run(ups.outcome, pre + ups.events, ups.recorded)
        else Run(Ok, pre, recorded)
  }

  /** What one pass of the reversal loop does from the recorded version
      `recorded`: stop with a run, or continue from a new recorded version
      after the requests `events`. */
  datatype Pass = Stop(run: Run) | Continue(events: seq<Event>, next: int)

  /** One pass of the reversal loop: read the version, stop on a read error,
      on a version the registry does not hold or on version 1 or below,
      otherwise reverse the migration, stopping if that fails. */
  function DownPass(env: Env, recorded: int, registry: seq<Migration>): (p: Pass)
    ensures env.versionError(recorded).Some? ==>
      p == Stop(Run(Err(env.versionError(recorded).value), [VersionQuery], recorded))
    ensures env.versionError(recorded).None? && (IndexOf(registry, recorded).None? || recorded <= 1) ==>
      p == Stop(Run(Ok, [VersionQuery], recorded))
    ensures env.versionError(recorded).None? && IndexOf(registry, recorded).Some? && recorded > 1
      && recorded in env.downFailures
      ==> p == Stop(Run(Err(env.downFailures[recorded]), [VersionQuery, Reverse(recorded)], recorded))
    ensures p.Continue? <==>
      env.versionError(recorded).None? && IndexOf(registry, recorded).Some? && recorded > 1 &&
      recorded !in env.downFailures
    ensures p.Continue? ==> p.next == env.afterDown(recorded)
    ensures p.Continue? ==> p.events == [VersionQuery, Reverse(recorded)]
  {
    match env.versionError(recorded)
    case Some(e) => Stop(Run(Err(e), [VersionQuery], recorded))
    case None =>
      match IndexOf(registry, recorded)
      case None => Stop(Run(Ok, [VersionQuery], recorded))
      case Some(i) =>
        var v := registry[i].version;
        if v <= 1 then Stop(Run(Ok, [VersionQuery], recorded))
        else if v in env.downFailures then Stop(Run(Err(env.downFailures[v]), [VersionQuery, Reverse(v)], recorded))
        else Continue([VersionQuery, Reverse(v)], env.afterDown(v))
  }

  /** `DownAll` on the sorted and linked registry, from the recorded goose
      version `recorded`: passes until one stops. */
  function DownRun(env: Env, recorded: int, registry: seq<Migration>): Run
    requires DownLowers(env)
    decreases recorded
  {
    match DownPass(env, recorded, registry)
    case Stop(run) => run
    case Continue(es, next) => After(es, DownRun(env, next, registry))
  }

  /** The forward loop stops at the first failing migration, at position
      `k` (or `|left|` when none fails): it asks for exactly the migrations
      up to and including that one, in list order, returns that one's error,
      and leaves the last successful version recorded. */
  lemma {:induction false} RunUpsStopsAtFirstFailure(env: Env, recorded: int, left: seq<Migration>, k: nat)
    requires k <= |left|
    requires forall j :: 0 <= j < k ==> left[j].version !in env.upFailures
    requires k < |left| ==> left[k].version in env.upFailures
    ensures var run := RunUps(env, recorded, left);
      run.events == UpEvents(left[..if k < |left| then k + 1 else k]) &&
      (k < |left| ==> run.outcome == Err(env.upFailures[left[k].version])) &&
      (k == |left| ==> run.outcome == Ok) &&
      run.recorded == if k == 0 then recorded else left[k - 1].version
    decreases k
  {
    if k > 0 {
      RunUpsStopsAtFirstFailure(env, left[0].version, left[1..], k - 1);
      var n := if k < |left| then k + 1 else k;
      UpEventsCons(left, n);
    } else if left != [] {
      assert UpEvents(left[..1]) == [Forward(left[0].version)];
    }
  }

  lemma UpEventsCons(ms: seq<Migration>, n: nat)
    requires 0 < n <= |ms|
    ensures UpEvents(ms[..n]) == [Forward(ms[0].version)] + UpEvents(ms[1..][..n - 1])
  {
    assert ms[1..][..n - 1] == ms[..n][1..];
  }

  // ----- the loops of the two entry points -----

  /** The statement loop of `ApplyMigrations`: runs the bootstrap
      statements in order and stops at the first failure. */
  method Bootstrap(db: Database) returns (err: Option<Error>)
    modifies db`trace
    ensures var k := FirstFailing(Tables, db.env.execFailures);
      (err.Some? <==> k < |Tables|) &&
      (k < |Tables| ==> err == Some(db.env.execFailures[Tables[k]]) &&
                        db.trace == old(db.trace) + ExecEvents(Tables[..k + 1])) &&
      (k == |Tables| ==> db.trace == old(db.trace) + ExecEvents(Tables))
  {
    ghost var k := FirstFailing(Tables, db.env.execFailures);
    for i := 0 to |Tables|
      invariant i <= k
      invariant db.trace == old(db.trace) + ExecEvents(Tables[..i])
    {
      err := db.ExecContext(Tables[i]);
      ExecEventsSnoc(Tables, i);
      Associative(old(db.trace), ExecEvents(Tables[..i]), [Statement(Tables[i])]);
      if err.Some? {
        return;
      }
    }
    assert Tables[..|Tables|] == Tables;
    err := None;
  }

  /** The `Up` loop of `ApplyMigrations` over the outstanding list. */
  method RunForward(db: Database, left: seq<Migration>) returns (r: Outcome)
    modifies db`trace, db`recorded
    ensures var run := RunUps(db.env, old(db.recorded), left);
      r == run.outcome && db.trace == old(db.trace) + run.events && db.recorded == run.recorded
  {
    ghost var k := FirstFailing(Versions(left), db.env.upFailures);
    RunUpsStopsAtFirstFailure(db.env, db.recorded, left, k);
    for i := 0 to |left|
      invariant i <= k
      invariant db.trace == old(db.trace) + UpEvents(left[..i])
      invariant db.recorded == if i == 0 then old(db.recorded) else left[i - 1].version
    {
      var err := db.Up(left[i]);
      UpEventsSnoc(left, i);
      Associative(old(db.trace), UpEvents(left[..i]), [Forward(left[i].version)]);
      if err.Some? {
        return Err(err.value);
      }
    }
    assert left[..|left|] == left;
    return Ok;
  }

  lemma ExecEventsSnoc(ts: seq<string>, i: nat)
    requires i < |ts|
    ensures ExecEvents(ts[..i + 1]) == ExecEvents(ts[..i]) + [Statement(ts[i])]
  {
  }

  lemma UpEventsSnoc(ms: seq<Migration>, i: nat)
    requires i < |ms|
    ensures UpEvents(ms[..i + 1]) == UpEvents(ms[..i]) + [Forward(ms[i].version)]
  {
  }

  /** Appending to the trace in two steps is appending once: stated as a
      step of its own, it keeps the loop proofs small. */
  lemma Associative(a: seq<Event>, b: seq<Event>, c: seq<Event>)
    ensures (a + b) + c == a + (b + c)
  {
  }

  /** One pass of the open loop of `DownAll`. `step` is what the pass asked
      of the database. */
  method ReversePass(db: Database, registry: seq<Migration>)
    returns (stop: bool, r: Outcome, ghost step: seq<Event>)
    modifies db`trace, db`recorded
    ensures db.trace == old(db.trace) + step
    ensures stop ==> DownPass(db.env, old(db.recorded), registry) == Stop(Run(r, step, db.recorded))
    ensures !stop ==> DownPass(db.env, old(db.recorded), registry) == Continue(step, db.recorded)
  {
    var currentVersion, err := db.GetDBVersion();
    if err.Some? {
      return true, Err(err.value), [VersionQuery];
    }
    var current := Current(registry, currentVersion);
    if current.None? {
      return true, Ok, [VersionQuery];
    }
    var m := registry[current.value];
    if m.version <= 1 {
      return true, Ok, [VersionQuery];
    }
    err := db.Down(m);
    if err.Some? {
      return true, Err(err.value), [VersionQuery, Reverse(m.version)];
    }
    return false, Ok, [VersionQuery, Reverse(m.version)];
  }

  /** The open loop of `DownAll`: runs passes until one stops. */
  method ReverseLoop(db: Database, registry: seq<Migration>) returns (r: Outcome)
    requires DownLowers(db.env)
    modifies db`trace, db`recorded
    ensures var run := DownRun(db.env, old(db.recorded), registry);
      r == run.outcome && db.trace == old(db.trace) + run.events && db.recorded == run.recorded
  {
    ghost var full := DownRun(db.env, db.recorded, registry);
    ghost var done: seq<Event> := [];
    while true
      invariant db.trace == old(db.trace) + done
      invariant full == After(done, DownRun(db.env, db.recorded, registry))
      decreases db.recorded
    {
      var stop;
      ghost var step;
      stop, r, step := ReversePass(db, registry);
      Associative(old(db.trace), done, step);
      if stop {
        return;
      }
      AfterAfter(done, step, DownRun(db.env, db.recorded, registry));
      done := done + step;
    }
  }

  // ----- the package state and the two entry points -----

  /** The package-level registry `migrations`, which the entry points sort
      and link in place. */
  class Registry {
    var migrations: array<Migration>

    constructor (ms: seq<Migration>)
      ensures fresh(migrations) && migrations[..] == ms
    {
      migrations := new Migration[|ms|](i requires 0 <= i < |ms| => ms[i]);
    }

    /** `checkOldMigration`: sorts and links the registry, reads the legacy
        row and reconciles it with the sorted registry. */
    method CheckOldMigration(db: Database) returns (c: LegacyCheck, ghost sorted: seq<Migration>)
      modifies migrations, db`trace
      ensures SortedByVersion(sorted) && multiset(sorted) == old(multiset(migrations[..]))
      ensures migrations[..] == Linked(sorted)
      ensures db.trace == old(db.trace) + [LegacyQuery]
      ensures c == ReconcileLegacy(Linked(sorted), ReadLegacyVersion(db.env.legacy))
    {
      sorted := SortAndConnectMigrations(migrations);
      var t := db.QueryLegacy();
      var reading := ReadLegacyVersion(t);
      c := ReconcileLegacy(migrations[..], reading);
    }

    /** `ApplyMigrations`. `sorted` is the order the sort chose; the
        registry is sorted only if the legacy check is reached. */
    method ApplyMigrations(db: Database) returns (r: Outcome, ghost sorted: seq<Migration>)
      modifies migrations, db`trace, db`recorded
      ensures var run := ApplyRun(db.env, old(db.recorded), Linked(sorted));
        r == run.outcome && db.trace == old(db.trace) + run.events && db.recorded == run.recorded
      ensures ReachesLegacyCheck(db.env, old(db.recorded)) ==>
        SortedByVersion(sorted) && multiset(sorted) == old(multiset(migrations[..])) &&
        migrations[..] == Linked(sorted)
      ensures !ReachesLegacyCheck(db.env, old(db.recorded)) ==> migrations[..] == old(migrations[..])
    {
      sorted := [];
      ghost var recorded, trace := db.recorded, db.trace;
      ghost var k := FirstFailing(Tables, db.env.execFailures);
      var err := Bootstrap(db);
      if err.Some? {
        assert ApplyRun(db.env, recorded, Linked(sorted)) == Run(Err(err.value), ExecEvents(Tables[..k + 1]), recorded);
        return Err(err.value), sorted;
      }
      var gooseCurrent, verr := db.GetDBVersion();
      ghost var pre := ExecEvents(Tables) + [VersionQuery];
      Associative(trace, ExecEvents(Tables), [VersionQuery]);
      if verr.Some? && verr.value != ErrNoNextVersion {
        assert ApplyRun(db.env, recorded, Linked(sorted)) == Run(Err(verr.value), pre, recorded);
        return Err(verr.value), sorted;
      }
      var c;
      c, sorted := CheckOldMigration(db);
      Associative(trace, pre, [LegacyQuery]);
      pre := pre + [LegacyQuery];
      ghost var run := ApplyRun(db.env, recorded, Linked(sorted));
      match c {
        case CheckFailed(e) =>
          // the legacy reader never reports an error
          assert false;
        case Corrupted =>
          assert run == Run(Halt, pre, recorded);
          return Halt, sorted;
        case SlicePanic =>
          assert run == Run(Panic, pre, recorded);
          return Panic, sorted;
        case Outstanding(migrateCurrent, left) =>
          if gooseCurrent < migrateCurrent {
            r := RunForward(db, left);
            Associative(trace, pre, RunUps(db.env, recorded, left).events);
            assert run == After(pre, RunUps(db.env, recorded, left));
            return r, sorted;
          }
          assert run == Run(Ok, pre, recorded);
          return Ok, sorted;
      }
    }

    /** `DownAll`: sorts and links the registry, then reverses migrations
        until none is left to reverse. Requires the termination assumption. */
    method DownAll(db: Database) returns (r: Outcome, ghost sorted: seq<Migration>)
      requires DownLowers(db.env)
      modifies migrations, db`trace, db`recorded
      ensures SortedByVersion(sorted) && multiset(sorted) == old(multiset(migrations[..]))
      ensures migrations[..] == Linked(sorted)
      ensures var run := DownRun(db.env, old(db.recorded), Linked(sorted));
        r == run.outcome && db.trace == old(db.trace) + run.events && db.recorded == run.recorded
    {
      sorted := SortAndConnectMigrations(migrations);
      r := ReverseLoop(db, migrations[..]);
    }
  }

  /** `run` preceded by the requests `es`. */
  function After(es: seq<Event>, run: Run): (r: Run)
    ensures r.outcome == run.outcome && r.recorded == run.recorded && r.events == es + run.events
  {
    Run(run.outcome, es + run.events, run.recorded)
  }

  lemma AfterAfter(es: seq<Event>, fs: seq<Event>, run: Run)
    ensures After(es, After(fs, run)) == After(es + fs, run)
  {
    assert es + (fs + run.events) == (es + fs) + run.events;
  }
}
