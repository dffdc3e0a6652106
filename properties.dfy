/** What the two entry points of the migration engine guarantee, stated
    about their reference runs `ApplyRun` and `DownRun`. */
module Properties {
  import opened Records
  import opened Legacy
  import opened Engine

  /** The requests that precede the forward phase of `ApplyMigrations`. */
  function Preamble(): (es: seq<Event>)
    ensures |es| == |Tables| + 2
    ensures es[|Tables|] == VersionQuery && es[|Tables| + 1] == LegacyQuery
  {
    ExecEvents(Tables) + [VersionQuery] + [LegacyQuery]
  }

  /** No forward action is asked for. */
  predicate NoForward(es: seq<Event>) {
    forall i :: 0 <= i < |es| ==> !es[i].Forward?
  }

  /** From position `from` on, only forward actions, in ascending version
      order. */
  predicate ForwardAscendingFrom(es: seq<Event>, from: nat) {
    (forall i :: from <= i < |es| ==> es[i].Forward?) &&
    (forall i, j :: from <= i < j < |es| && es[i].Forward? && es[j].Forward? ==>
      es[i].version <= es[j].version)
  }

  /** From position `from` on, the forward actions of `first`, `first + 1`, and
      so on. */
  predicate ForwardRunFrom(es: seq<Event>, from: nat, first: int) {
    forall i :: from <= i < |es| ==> es[i] == Forward(first + i - from)
  }

  /** Only version reads and reversals. */
  predicate ReadsAndReversals(es: seq<Event>) {
    forall i :: 0 <= i < |es| ==> es[i].VersionQuery? || es[i].Reverse?
  }

  /** Every reversed version lies above 1 and at or below `top`, and the
      registry holds it. */
  predicate ReversalsWithin(es: seq<Event>, registry: seq<Migration>, top: int) {
    forall i :: 0 <= i < |es| && es[i].Reverse? ==>
      1 < es[i].version <= top && IndexOf(registry, es[i].version).Some?
  }

  /** The reversals come in strictly descending version order. */
  predicate ReversalsDescending(es: seq<Event>) {
    forall i, j :: 0 <= i < j < |es| && es[i].Reverse? && es[j].Reverse? ==> es[j].version < es[i].version
  }

  /** Every version from 2 up to `top` is reversed. */
  predicate ReversesDownToTwo(es: seq<Event>, top: int) {
    forall w :: 1 < w <= top ==> Reverse(w) in es
  }

  // ----- ApplyMigrations -----

  /** The first failing bootstrap statement ends the run: its error is
      returned, only the statements up to it were issued, and the goose
      version is never read. */
  lemma ApplyBootstrapFailure(env: Env, recorded: int, registry: seq<Migration>)
    requires FirstFailing(Tables, env.execFailures) < |Tables|
    ensures var k := FirstFailing(Tables, env.execFailures);
      var run := ApplyRun(env, recorded, registry);
      run.outcome == Err(env.execFailures[Tables[k]]) && run.recorded == recorded &&
      run.events == ExecEvents(Tables[..k + 1]) && VersionQuery !in run.events && NoForward(run.events)
  {
  }

  /** Every baseline statement is issued, in order, before anything else. */
  lemma {:induction false} ApplyBootstrapsFirst(env: Env, recorded: int, registry: seq<Migration>)
    requires FirstFailing(Tables, env.execFailures) == |Tables|
    ensures var run := ApplyRun(env, recorded, registry);
      |run.events| > |Tables| && run.events[..|Tables|] == ExecEvents(Tables) &&
      run.events[|Tables|] == VersionQuery
  {
    var run := ApplyRun(env, recorded, registry);
    assert run.events[..|Tables| + 1] == ExecEvents(Tables) + [VersionQuery];
    assert run.events[..|Tables|] == run.events[..|Tables| + 1][..|Tables|];
  }

  /** A version read error other than `ErrNoNextVersion` is returned right
      after the bootstrap; `ErrNoNextVersion` is not an error. */
  lemma ApplyVersionError(env: Env, recorded: int, registry: seq<Migration>)
    requires FirstFailing(Tables, env.execFailures) == |Tables|
    ensures var e := env.versionError(recorded); e.Some? && e != Some(ErrNoNextVersion) ==>
      ApplyRun(env, recorded, registry) == Run(Err(e.value), ExecEvents(Tables) + [VersionQuery], recorded)
    ensures var e := env.versionError(recorded);
      e.Some? && e != Some(ErrNoNextVersion) <==> !ReachesLegacyCheck(env, recorded)
  {
  }

  /** A dirty legacy row stops the process after the legacy query: no
      migration runs and the goose version is left as it was. */
  lemma ApplyDirtyHalts(env: Env, recorded: int, registry: seq<Migration>)
    requires ReachesLegacyCheck(env, recorded)
    requires env.legacy.Row? && env.legacy.dirty
    ensures ApplyRun(env, recorded, registry) == Run(Halt, Preamble(), recorded)
  {
  }

  /** The legacy check never returns an error, so once it is reached an
      error can only come from the forward phase: the last request is the
      forward action of a failing migration, and its error is returned. */
  lemma {:induction false} ApplyNeverFailsAtLegacyCheck(env: Env, recorded: int, registry: seq<Migration>)
    requires ReachesLegacyCheck(env, recorded)
    ensures var run := ApplyRun(env, recorded, registry);
      |run.events| >= |Preamble()| && run.events[..|Preamble()|] == Preamble() &&
      (run.outcome.Err? ==> FailedForward(env, run.events, run.outcome.error))
  {
    ReconcileNeverFailsOnRead(registry, env.legacy);
    var run := ApplyRun(env, recorded, registry);
    var pre := Preamble();
    assert run.events[..|pre|] == pre;
    var c := ReconcileLegacy(registry, ReadLegacyVersion(env.legacy));
    if run.outcome.Err? {
      var ups := RunUps(env, recorded, c.left);
      RunUpsErrorIsLast(env, recorded, c.left);
      LastAfter(pre, ups.events, env, ups.outcome.error);
    }
  }

  /** The last request is the forward action of a migration whose `Up`
      fails with `e`. */
  predicate FailedForward(env: Env, es: seq<Event>, e: Error) {
    |es| > 0 && es[|es| - 1].Forward? &&
    es[|es| - 1].version in env.upFailures && env.upFailures[es[|es| - 1].version] == e
  }

  /** A forward loop that ends in an error ends with the failing forward
      action, whose error it returns. */
  lemma {:induction false} RunUpsErrorIsLast(env: Env, recorded: int, left: seq<Migration>)
    ensures var ups := RunUps(env, recorded, left);
      ups.outcome.Err? ==> FailedForward(env, ups.events, ups.outcome.error)
    decreases |left|
  {
    if left != [] && left[0].version !in env.upFailures {
      RunUpsErrorIsLast(env, left[0].version, left[1..]);
      var rest := RunUps(env, left[0].version, left[1..]);
      if rest.outcome.Err? {
        LastAfter([Forward(left[0].version)], rest.events, env, rest.outcome.error);
      }
    }
  }

  lemma LastAfter(pre: seq<Event>, es: seq<Event>, env: Env, e: Error)
    requires FailedForward(env, es, e)
    ensures FailedForward(env, pre + es, e)
  {
    assert (pre + es)[|pre + es| - 1] == es[|es| - 1];
  }

  /** The gate: when the goose version is not below the legacy version,
      nothing runs and the run succeeds. */
  lemma ApplyGateClosed(env: Env, recorded: int, registry: seq<Migration>)
    requires ReachesLegacyCheck(env, recorded)
    requires var c := ReconcileLegacy(registry, ReadLegacyVersion(env.legacy));
      c.Outstanding? && recorded >= c.current
    ensures ApplyRun(env, recorded, registry) == Run(Ok, Preamble(), recorded)
  {
  }

  /** Without a legacy row the legacy version is -1, so a goose version of
      -1 or more keeps the gate closed: no forward action is ever run. */
  lemma NoLegacyRowRunsNothing(env: Env, recorded: int, registry: seq<Migration>)
    requires !env.legacy.Row? && recorded >= -1
    ensures var run := ApplyRun(env, recorded, registry);
      run.recorded == recorded && (run.outcome.Ok? || run.outcome.Err?) && NoForward(run.events)
  {
    ReconcileNeverFailsOnRead(registry, env.legacy);
  }

  /** The forward phase, once the gate opens: the outstanding migrations are
      asked for in list order up to and including the first that fails; its
      error is returned and no later one is asked for; the recorded version
      is that of the last one applied. */
  lemma {:induction false} ApplyForwardPhase(env: Env, recorded: int, registry: seq<Migration>)
    requires ReachesLegacyCheck(env, recorded)
    requires var c := ReconcileLegacy(registry, ReadLegacyVersion(env.legacy));
      c.Outstanding? && recorded < c.current
    ensures var left := ReconcileLegacy(registry, ReadLegacyVersion(env.legacy)).left;
      var k := FirstFailing(Versions(left), env.upFailures);
      var run := ApplyRun(env, recorded, registry);
      run.events == Preamble() + UpEvents(left[..if k < |left| then k + 1 else k]) &&
      (k < |left| ==> run.outcome == Err(env.upFailures[left[k].version])) &&
      (k == |left| ==> run.outcome == Ok) &&
      run.recorded == (if k == 0 then recorded else left[k - 1].version)
  {
    var c := ReconcileLegacy(registry, ReadLegacyVersion(env.legacy));
    var k := FirstFailing(Versions(c.left), env.upFailures);
    RunUpsStopsAtFirstFailure(env, recorded, c.left, k);
  }

  /** On a version-sorted registry the forward actions come in ascending
      version order. */
  lemma ApplyForwardAscending(env: Env, recorded: int, registry: seq<Migration>)
    requires ReachesLegacyCheck(env, recorded) && SortedByVersion(registry)
    requires var c := ReconcileLegacy(registry, ReadLegacyVersion(env.legacy));
      c.Outstanding? && recorded < c.current
    ensures ForwardAscendingFrom(ApplyRun(env, recorded, registry).events, |Preamble()|)
  {
    var left := ReconcileLegacy(registry, ReadLegacyVersion(env.legacy)).left;
    ApplyForwardShape(env, recorded, registry);
    OutstandingIsSuffix(registry, ReadLegacyVersion(env.legacy));
    SuffixSorted(registry, left);
    RunUpsAscending(env, recorded, left);
  }

  /** Once the gate opens, the run is the preamble followed by the forward
      loop over the outstanding list. */
  lemma ApplyForwardShape(env: Env, recorded: int, registry: seq<Migration>)
    requires ReachesLegacyCheck(env, recorded)
    requires var c := ReconcileLegacy(registry, ReadLegacyVersion(env.legacy));
      c.Outstanding? && recorded < c.current
    ensures ApplyRun(env, recorded, registry).events ==
      Preamble() + RunUps(env, recorded, ReconcileLegacy(registry, ReadLegacyVersion(env.legacy)).left).events
  {
  }

  /** The forward loop over a sorted list, after the preamble, asks only for
      forward actions in ascending version order. */
  lemma RunUpsAscending(env: Env, recorded: int, left: seq<Migration>)
    requires SortedByVersion(left)
    ensures ForwardAscendingFrom(Preamble() + RunUps(env, recorded, left).events, |Preamble()|)
  {
    var k := FirstFailing(Versions(left), env.upFailures);
    var n := if k < |left| then k + 1 else k;
    RunUpsStopsAtFirstFailure(env, recorded, left, k);
    PrefixAscending(left, n, RunUps(env, recorded, left).events);
  }

  /** The forward actions of a prefix of a sorted list, after the preamble,
      are in ascending version order. */
  lemma PrefixAscending(left: seq<Migration>, n: nat, ups: seq<Event>)
    requires SortedByVersion(left) && n <= |left| && ups == UpEvents(left[..n])
    ensures ForwardAscendingFrom(Preamble() + ups, |Preamble()|)
  {
    assert left == left[..n] + left[n..];
    PrefixSorted(left, left[..n]);
    UpEventsAscending(left[..n]);
    AscendingAfter(Preamble(), ups);
  }

  /** The list the legacy check leaves outstanding is a suffix of the
      registry. */
  lemma OutstandingIsSuffix(registry: seq<Migration>, reading: LegacyReading)
    requires ReconcileLegacy(registry, reading).Outstanding?
    ensures exists p :: registry == p + ReconcileLegacy(registry, reading).left
  {
    var left := ReconcileLegacy(registry, reading).left;
    if reading.version > 0 {
      assert registry == registry[..reading.version] + left;
    } else {
      assert registry == [] + left;
    }
  }

  lemma PrefixSorted(s: seq<Migration>, p: seq<Migration>)
    requires SortedByVersion(s)
    requires exists q :: s == p + q
    ensures SortedByVersion(p)
  {
    var q :| s == p + q;
    forall i, j | 0 <= i < j < |p| ensures p[i].version <= p[j].version {
      assert p[i] == s[i] && p[j] == s[j];
    }
  }

  lemma UpEventsAscending(ms: seq<Migration>)
    requires SortedByVersion(ms)
    ensures ForwardAscendingFrom(UpEvents(ms), 0)
  {
  }

  lemma AscendingAfter(pre: seq<Event>, es: seq<Event>)
    requires ForwardAscendingFrom(es, 0)
    ensures ForwardAscendingFrom(pre + es, |pre|)
  {
    var all := pre + es;
    forall i | |pre| <= i < |all| ensures all[i].Forward? {
      assert all[i] == es[i - |pre|];
    }
    forall i, j | |pre| <= i < j < |all| && all[i].Forward? && all[j].Forward?
      ensures all[i].version <= all[j].version
    {
      assert all[i] == es[i - |pre|] && all[j] == es[j - |pre|];
    }
  }

  /** The list the legacy check leaves outstanding is a suffix of the
      registry, so it keeps the registry's order. */
  lemma SuffixSorted(registry: seq<Migration>, left: seq<Migration>)
    requires SortedByVersion(registry)
    requires exists p :: registry == p + left
    ensures SortedByVersion(left)
  {
    var p :| registry == p + left;
    forall i, j | 0 <= i < j < |left| ensures left[i].version <= left[j].version {
      assert left[i] == registry[|p| + i] && left[j] == registry[|p| + j];
    }
  }

  /** The bridge on a registry holding exactly the versions 1..n, with a
      clean legacy row at version `v` and a goose version below `v`: the
      migrations above `v` are applied, each once, in ascending order, and
      the recorded version ends at the highest one. */
  lemma {:induction false} ApplyLegacyBridge(env: Env, recorded: int, registry: seq<Migration>, v: int)
    requires forall i :: 0 <= i < |registry| ==> registry[i].version == i + 1
    requires ReachesLegacyCheck(env, recorded) && env.legacy == Row(v, false)
    requires 0 < v <= |registry| && recorded < v
    requires forall w :: w in env.upFailures ==> w <= v
    ensures ApplyRun(env, recorded, registry).outcome == Ok
    ensures |ApplyRun(env, recorded, registry).events| == |Preamble()| + |registry| - v
    ensures ForwardRunFrom(ApplyRun(env, recorded, registry).events, |Preamble()|, v + 1)
    ensures ApplyRun(env, recorded, registry).recorded == if v < |registry| then |registry| else recorded
  {
    var left := registry[v..];
    assert ReconcileLegacy(registry, ReadLegacyVersion(env.legacy)) == Outstanding(v, left);
    ContiguousTailSucceeds(registry, v, env.upFailures);
    ApplyForwardPhase(env, recorded, registry);
    assert left[..|left|] == left;
    var run := ApplyRun(env, recorded, registry);
    assert run.events == Preamble() + UpEvents(left);
    ContiguousForwardRun(registry, v, Preamble());
    if v < |registry| {
      assert left[|left| - 1] == registry[|registry| - 1];
    }
  }

  /** No migration above `v` fails. */
  lemma ContiguousTailSucceeds(registry: seq<Migration>, v: int, upFailures: map<int, Error>)
    requires forall i :: 0 <= i < |registry| ==> registry[i].version == i + 1
    requires 0 < v <= |registry|
    requires forall w :: w in upFailures ==> w <= v
    ensures FirstFailing(Versions(registry[v..]), upFailures) == |registry| - v
  {
    var left := registry[v..];
    forall j | 0 <= j < |left| ensures Versions(left)[j] !in upFailures {
      assert left[j] == registry[v + j];
    }
    FirstFailingNone(Versions(left), upFailures);
  }

  /** The forward actions of the migrations above `v` in a registry holding
      exactly 1..n are those of `v + 1`, `v + 2`, ..., `n`. */
  lemma ContiguousForwardRun(registry: seq<Migration>, v: int, pre: seq<Event>)
    requires forall i :: 0 <= i < |registry| ==> registry[i].version == i + 1
    requires 0 < v <= |registry|
    ensures ForwardRunFrom(pre + UpEvents(registry[v..]), |pre|, v + 1)
  {
    var es := pre + UpEvents(registry[v..]);
    forall i | |pre| <= i < |es| ensures es[i] == Forward(v + 1 + i - |pre|) {
      assert es[i] == UpEvents(registry[v..])[i - |pre|];
      assert registry[v..][i - |pre|] == registry[v + i - |pre|];
    }
  }

  lemma {:induction false} FirstFailingNone<K>(keys: seq<K>, failures: map<K, Error>)
    requires forall j :: 0 <= j < |keys| ==> keys[j] !in failures
    ensures FirstFailing(keys, failures) == |keys|
    decreases |keys|
  {
    if keys != [] {
      FirstFailingNone(keys[1..], failures);
    }
  }

  // ----- DownAll -----

  /** A reversal run asks only for version reads and reversals; each reversed
      version is held by the registry, lies above 1 and at or below the
      starting version, and the reversals come in strictly descending order.
      In particular version 1 is never reversed. */
  lemma {:induction false} DownRunDescends(env: Env, recorded: int, registry: seq<Migration>)
    requires DownLowers(env)
    ensures ReadsAndReversals(DownRun(env, recorded, registry).events)
    ensures ReversalsWithin(DownRun(env, recorded, registry).events, registry, recorded)
    ensures ReversalsDescending(DownRun(env, recorded, registry).events)
    decreases recorded
  {
    match DownPass(env, recorded, registry)
    case Stop(run) =>
    case Continue(step, next) =>
      assert next == env.afterDown(recorded) < recorded;
      DownRunDescends(env, next, registry);
      var rest := DownRun(env, next, registry).events;
      var es := DownRun(env, recorded, registry).events;
      assert es == [VersionQuery, Reverse(recorded)] + rest;
      assert IndexOf(registry, recorded).Some?;
      forall i | 2 <= i < |es| ensures es[i] == rest[i - 2] { }
      forall i, j | 0 <= i < j < |es| && es[i].Reverse? && es[j].Reverse?
        ensures es[j].version < es[i].version
      {
        assert es[j] == rest[j - 2];
        if i >= 2 {
          assert es[i] == rest[i - 2];
        }
      }
  }

  /** How a reversal run ends. The run has at least one request and ends
      either with success, after a read of a version the registry does not
      hold or of one at or below 1, or with an error: that of the version
      read at the finally recorded version (the last request is the read),
      or that of the reversal of the finally recorded version, which the
      registry holds and which lies above 1; the reversal fails and leaves
      that version recorded (the last request is that reversal). */
  ghost predicate DownEnding(env: Env, registry: seq<Migration>, run: Run) {
    |run.events| > 0 &&
    (run.outcome.Ok? || run.outcome.Err?) &&
    (run.outcome.Ok? ==>
      env.versionError(run.recorded).None? &&
      (IndexOf(registry, run.recorded).None? || run.recorded <= 1) &&
      run.events[|run.events| - 1] == VersionQuery) &&
    (run.outcome.Err? ==>
      (env.versionError(run.recorded) == Some(run.outcome.error) &&
       run.events[|run.events| - 1] == VersionQuery) ||
      (env.versionError(run.recorded).None? &&
       IndexOf(registry, run.recorded).Some? && run.recorded > 1 &&
       run.recorded in env.downFailures && run.outcome.error == env.downFailures[run.recorded] &&
       run.events[|run.events| - 1] == Reverse(run.recorded)))
  }

  /** A read error at the starting version is returned at once; otherwise
      the run ends as `DownEnding` says, a read error on a later pass
      included. */
  lemma {:induction false} DownRunOutcome(env: Env, recorded: int, registry: seq<Migration>)
    requires DownLowers(env)
    ensures var e := env.versionError(recorded);
      e.Some? ==> DownRun(env, recorded, registry) == Run(Err(e.value), [VersionQuery], recorded)
    ensures DownEnding(env, registry, DownRun(env, recorded, registry))
    decreases recorded
  {
    match DownPass(env, recorded, registry)
    case Stop(run) =>
    case Continue(step, next) =>
      DownRunOutcome(env, next, registry);
      var rest := DownRun(env, next, registry);
      var run := DownRun(env, recorded, registry);
      assert run.events == step + rest.events;
      assert run.events[|run.events| - 1] == rest.events[|rest.events| - 1];
  }

  /** A lookup that misses, or a matched version at or below 1, ends the run
      at once with success after the read. */
  lemma MissStopsOk(env: Env, recorded: int, registry: seq<Migration>)
    requires DownLowers(env) && env.versionError(recorded).None?
    requires IndexOf(registry, recorded).None? || recorded <= 1
    ensures DownRun(env, recorded, registry) == Run(Ok, [VersionQuery], recorded)
  {
  }

  /** A failing reversal of a held version above 1 ends the run at once
      with its error, leaving that version recorded. */
  lemma DownFailureReturned(env: Env, recorded: int, registry: seq<Migration>)
    requires DownLowers(env) && env.versionError(recorded).None?
    requires IndexOf(registry, recorded).Some? && recorded > 1 && recorded in env.downFailures
    ensures DownRun(env, recorded, registry) ==
      Run(Err(env.downFailures[recorded]), [VersionQuery, Reverse(recorded)], recorded)
  {
  }

  /** Every run starts with a read, and the first reversal, if any, is of
      the starting version. */
  lemma FirstReversalIsStart(env: Env, recorded: int, registry: seq<Migration>)
    requires DownLowers(env)
    ensures var es := DownRun(env, recorded, registry).events;
      |es| > 0 && es[0] == VersionQuery && (|es| > 1 ==> es[1] == Reverse(recorded))
  {
    match DownPass(env, recorded, registry)
    case Stop(run) =>
    case Continue(step, next) =>
      assert DownRun(env, recorded, registry).events == step + DownRun(env, next, registry).events;
  }

  /** A read that fails after a reversal: on versions 1..3 from version 3,
      with each reversal lowering the version by one and the read at version
      2 failing, the run reverses 3, reads again and returns that error with
      version 2 recorded. */
  lemma DownAllLaterReadFails(registry: seq<Migration>)
    requires forall i :: 0 <= i < |registry| ==> registry[i].version == i + 1
    requires |registry| == 3
    ensures var env := Env(map[], w => if w == 2 then Some(DbFailure(7)) else None, Empty, map[], map[], w => w - 1);
      DownLowers(env) &&
      DownRun(env, 3, registry) == Run(Err(DbFailure(7)), [VersionQuery, Reverse(3), VersionQuery], 2)
  {
    var env := Env(map[], w => if w == 2 then Some(DbFailure(7)) else None, Empty, map[], map[], w => w - 1);
    IndexOfContiguous(registry, 3);
    assert DownRun(env, 2, registry) == Run(Err(DbFailure(7)), [VersionQuery], 2);
  }

  /** On a registry holding exactly the versions 1..n, without failures and
      with each reversal lowering the version by one, `DownAll` from version
      `v` reverses `v`, `v - 1`, ..., `2` and stops at version 1. */
  lemma {:induction false} DownAllStopsAtOne(env: Env, recorded: int, registry: seq<Migration>)
    requires forall i :: 0 <= i < |registry| ==> registry[i].version == i + 1
    requires (forall w :: env.versionError(w).None?) && env.downFailures == map[]
    requires forall w :: env.afterDown(w) == w - 1
    requires 1 <= recorded <= |registry|
    ensures DownLowers(env)
    ensures DownRun(env, recorded, registry).outcome == Ok
    ensures DownRun(env, recorded, registry).recorded == 1
    ensures ReversesDownToTwo(DownRun(env, recorded, registry).events, recorded)
    decreases recorded
  {
    assert registry[recorded - 1].version == recorded;
    IndexOfContiguous(registry, recorded);
    if recorded > 1 {
      DownAllStopsAtOne(env, recorded - 1, registry);
      var rest := DownRun(env, recorded - 1, registry);
      assert DownRun(env, recorded, registry) == After([VersionQuery, Reverse(recorded)], rest);
    }
  }

  lemma IndexOfContiguous(registry: seq<Migration>, v: int)
    requires forall i :: 0 <= i < |registry| ==> registry[i].version == i + 1
    requires 1 <= v <= |registry|
    ensures IndexOf(registry, v) == Some(v - 1)
  {
    assert registry[v - 1].version == v;
  }
}
