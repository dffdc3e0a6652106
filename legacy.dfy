/** The bridge from the legacy single-row `schema_migrations` table to the
    sorted registry: reading the legacy `(version, dirty)` row and deciding
    which migrations are still outstanding. */
module Legacy {
  import opened Records

  /** What the query `SELECT version, dirty FROM schema_migrations LIMIT 1`
      meets: a query that fails (the table is absent, the connection is
      down), a table without rows, or one row. */
  datatype LegacyTable = Unreadable(error: Error) | Empty | Row(version: int, dirty: bool)

  /** What `Row.Scan` leaves behind: the two scan targets (untouched, so
      still zero, when the scan fails) and the error it returns. */
  datatype Scanned = Scanned(version: int, dirty: bool, err: Option<Error>)

  /** The `(version, dirty, err)` triple the legacy reader returns. */
  datatype LegacyReading = LegacyReading(version: int, dirty: bool, err: Option<Error>)

  /** `Row.Scan` into a zero-initialised version and dirty flag. */
  function Scan(t: LegacyTable): (r: Scanned)
    ensures r.err.None? <==> t.Row?
    ensures t.Empty? ==> r.err == Some(ErrNoRows)
    ensures r.err.Some? ==> r.version == 0 && !r.dirty
    ensures t.Row? ==> r.version == t.version && r.dirty == t.dirty
    ensures t.Unreadable? ==> r.err == Some(t.error)
  {
    match t
    case Unreadable(e) => Scanned(0, false, Some(e))
    case Empty => Scanned(0, false, Some(ErrNoRows))
    case Row(v, d) => Scanned(v, d, None)
  }

  /** `checkOldMigrationTableVersionIfExists`. The error `Scan` returns is
      dropped and `err` is never assigned, so the `ErrNoRows` branch and the
      error branch cannot be taken: the reader never fails, and a table it
      cannot read or that has no rows reads as version 0, not dirty. */
  function ReadLegacyVersion(t: LegacyTable): (r: LegacyReading)
    ensures r.err == None
    ensures t.Row? ==> r.version == t.version && r.dirty == t.dirty
    ensures !t.Row? ==> r.version == 0 && !r.dirty
  {
    var scanned := Scan(t);
    var err: Option<Error> := None;
    if err == Some(ErrNoRows) then LegacyReading(-1, false, None)
    else if err.Some? then LegacyReading(-1, false, err)
    else LegacyReading(scanned.version, scanned.dirty, None)
  }

  /** The outcome of `checkOldMigration`: the legacy version and the
      migrations left to run, a read error, the fatal stop on a dirty row, or
      the run-time panic of a slice bound beyond the registry. */
  datatype LegacyCheck =
    | Outstanding(current: int, left: seq<Migration>)
    | CheckFailed(error: Error)
    | Corrupted
    | SlicePanic

  /** The decision `checkOldMigration` makes from the sorted registry and the
      legacy reading. A positive legacy version `v` splits the registry by
      position: the first `v` records count as applied. */
  function ReconcileLegacy(sorted: seq<Migration>, reading: LegacyReading): (c: LegacyCheck)
    ensures c.CheckFailed? <==> reading.err.Some?
    ensures c.CheckFailed? ==> c.error == reading.err.value
    ensures c.Corrupted? <==> reading.err.None? && reading.dirty
    ensures c.SlicePanic? <==> reading.err.None? && !reading.dirty && reading.version > |sorted|
    ensures c.Outstanding? && reading.version > 0 ==>
      c.current == reading.version && c.left == sorted[reading.version..]
    ensures c.Outstanding? && reading.version <= 0 ==> c.current == -1 && c.left == sorted
  {
    if reading.err.Some? then CheckFailed(reading.err.value)
    else if reading.dirty then Corrupted
    else if reading.version > 0 then
      if reading.version <= |sorted| then Outstanding(reading.version, sorted[reading.version..])
      else SlicePanic
    else Outstanding(-1, sorted)
  }

  /** A positive legacy version `v` within the registry drops exactly the
      first `v` records and keeps the rest in order. */
  lemma ReconcileDropsPrefix(sorted: seq<Migration>, v: int)
    requires 0 < v <= |sorted|
    ensures var c := ReconcileLegacy(sorted, LegacyReading(v, false, None));
      c.Outstanding? && c.current == v && |c.left| == |sorted| - v && sorted == sorted[..v] + c.left
  {
    assert sorted == sorted[..v] + sorted[v..];
  }

  /** Since the reader never fails, `checkOldMigration` never reports a read
      error, and a legacy table that is absent or empty means a full
      registry with legacy version -1. */
  lemma ReconcileNeverFailsOnRead(sorted: seq<Migration>, t: LegacyTable)
    ensures !ReconcileLegacy(sorted, ReadLegacyVersion(t)).CheckFailed?
    ensures !t.Row? ==> ReconcileLegacy(sorted, ReadLegacyVersion(t)) == Outstanding(-1, sorted)
    ensures t.Row? && t.dirty ==> ReconcileLegacy(sorted, ReadLegacyVersion(t)).Corrupted?
  {
  }

  /** When the registry holds exactly the versions 1..n, splitting by
      position agrees with splitting by version: the dropped records are
      those at or below the legacy version, the rest those above it. */
  lemma {:induction false} PositionSplitIsVersionSplit(sorted: seq<Migration>, v: int)
    requires forall i :: 0 <= i < |sorted| ==> sorted[i].version == i + 1
    requires 0 < v <= |sorted|
    ensures var c := ReconcileLegacy(sorted, LegacyReading(v, false, None));
      c.Outstanding? &&
      (forall m :: m in c.left <==> m in sorted && m.version > v) &&
      (forall m :: m in sorted[..v] <==> m in sorted && m.version <= v)
  {
    var left := sorted[v..];
    forall m ensures m in left <==> m in sorted && m.version > v {
      if m in left {
        var i :| 0 <= i < |left| && left[i] == m;
        assert sorted[v + i] == m;
      }
      if m in sorted && m.version > v {
        var i :| 0 <= i < |sorted| && sorted[i] == m;
        assert left[i - v] == m;
      }
    }
    forall m ensures m in sorted[..v] <==> m in sorted && m.version <= v {
      if m in sorted[..v] {
        var i :| 0 <= i < v && sorted[..v][i] == m;
      }
      if m in sorted && m.version <= v {
        var i :| 0 <= i < |sorted| && sorted[i] == m;
        assert sorted[..v][i] == m;
      }
    }
  }

  /** With gaps between versions the positional split drops records that
      were never applied: versions 1, 5, 10 with legacy version 2 leave only
      version 10 outstanding, although 5 is above 2. */
  lemma PositionSplitWithGaps()
    ensures var sorted := [Migration(1, -1, 5, ""), Migration(5, 1, 10, ""), Migration(10, 5, 0, "")];
      ReconcileLegacy(sorted, LegacyReading(2, false, None)) == Outstanding(2, [sorted[2]])
  {
    var sorted := [Migration(1, -1, 5, ""), Migration(5, 1, 10, ""), Migration(10, 5, 0, "")];
    assert sorted[2..] == [sorted[2]];
  }
}
