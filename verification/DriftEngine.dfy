/** The drift engine: compare upstream keys with local rows, apply the two safety guards, delete the
    drifted rows inside the caller's transaction and return the file moves to run after commit. */
module DriftEngine {
  import opened Options
  import opened Records
  import Lex

  datatype Key = Key(a: string, b: string, c: string)

  /** A local row as an adapter hands it to the engine. */
  datatype LocalRow = LocalRow(id: int, rec: Record, key: Key)

  datatype Reason = NoReason | UpstreamEmpty | ThresholdExceeded

  datatype Report = Report(purgedCount: nat, sample: seq<string>, skipped: bool, reason: Reason,
                           localCount: nat, blockedCount: nat)

  /** A deferred trash relocation. retained redirects it to a metadata-only snapshot. */
  datatype PendingMove = PendingMove(kind: Kind, id: int, path: Path, snapshot: Snapshot, retained: bool)

  /** What the driver does to one row's purge. */
  datatype PurgeFault = NoFault | MarshalFails | DeleteFails | CountFails

  const SAMPLE_LIMIT: nat := 20

  function SampleFilename(r: Record): string {
    match r
    case PyPIRecord(f) => f.filename
    case RPMRecord(p) =>
      if p.filename != "" then p.filename else p.name + "-" + p.version + "-" + p.release + "." + p.arch + ".rpm"
    case DEBRecord(p) =>
      if p.filename != "" then p.filename else p.package + "_" + p.version + "_" + p.architecture + ".deb"
    case HelmRecord(c) =>
      if c.filename != "" then c.filename else c.name + "-" + c.version + ".tgz"
  }

  /** A row is listed under its file name. One that has none is listed under the name its package would be
      published as. */
  lemma BlankNameIsSpelledOut(p: RPMPackage, d: DEBPackage, c: HelmChart)
    requires p.filename == p.name + "-" + p.version + "-" + p.release + "." + p.arch + ".rpm"
    requires d.filename == d.package + "_" + d.version + "_" + d.architecture + ".deb"
    requires c.filename == c.name + "-" + c.version + ".tgz"
    ensures SampleFilename(RPMRecord(p)) == p.filename == SampleFilename(RPMRecord(p.(filename := "")))
    ensures SampleFilename(DEBRecord(d)) == d.filename == SampleFilename(DEBRecord(d.(filename := "")))
    ensures SampleFilename(HelmRecord(c)) == c.filename == SampleFilename(HelmRecord(c.(filename := "")))
  {
  }

  type Table = map<int, Record>

  // ---- Specification ----

  function IdsOf(rows: seq<LocalRow>): set<int> {
    set r | r in rows :: r.id
  }

  /** The rows whose key upstream no longer lists, in the order they were loaded. */
  function Drift(local: seq<LocalRow>, upstream: seq<Key>): seq<LocalRow> {
    if local == [] then []
    else
      var last := local[|local| - 1];
      var rest := Drift(local[..|local| - 1], upstream);
      if last.key in upstream then rest else rest + [last]
  }

  lemma {:induction false} DriftMembers(local: seq<LocalRow>, upstream: seq<Key>)
    ensures forall r :: r in Drift(local, upstream) <==> r in local && r.key !in upstream
    ensures |Drift(local, upstream)| <= |local|
  {
    if local != [] {
      var init := local[..|local| - 1];
      DriftMembers(init, upstream);
      assert local == init + [local[|local| - 1]];
    }
  }

  predicate DistinctIds(rows: seq<LocalRow>) {
    forall i, j :: 0 <= i < j < |rows| ==> rows[i].id != rows[j].id
  }

  lemma {:induction false} DriftDistinct(local: seq<LocalRow>, upstream: seq<Key>)
    requires DistinctIds(local)
    ensures DistinctIds(Drift(local, upstream))
  {
    if local != [] {
      var n := |local| - 1;
      DriftDistinct(local[..n], upstream);
      DriftMembers(local[..n], upstream);
      var rest := Drift(local[..n], upstream);
      forall i | 0 <= i < |rest| ensures rest[i].id != local[n].id {
        assert rest[i] in local[..n];
      }
    }
  }

  predicate NotAfter(r: LocalRow, s: LocalRow) {
    Lex.AtMost(SampleFilename(r.rec), SampleFilename(s.rec))
  }

  predicate SortedBySample(rows: seq<LocalRow>) {
    forall i, j :: 0 <= i < j < |rows| ==> NotAfter(rows[i], rows[j])
  }

  lemma NotAfterOrder(r: LocalRow, s: LocalRow, t: LocalRow)
    ensures NotAfter(r, s) || NotAfter(s, r)
    ensures NotAfter(r, s) && NotAfter(s, t) ==> NotAfter(r, t)
  {
    Lex.Total(SampleFilename(r.rec), SampleFilename(s.rec));
    if NotAfter(r, s) && NotAfter(s, t) {
      Lex.AtMostTransitive(SampleFilename(r.rec), SampleFilename(s.rec), SampleFilename(t.rec));
    }
  }

  predicate EmptyUpstream(upstream: seq<Key>, local: seq<LocalRow>) {
    upstream == [] && local != []
  }

  /** int64 arithmetic. */
  function Wrap64(n: int): int {
    (n + INT64_LIMIT) % (2 * INT64_LIMIT) - INT64_LIMIT
  }

  /** The percent guard exactly as computed, on int64. */
  predicate Blocked(driftN: nat, localN: nat, pct: int, force: bool) {
    pct > 0 && !force && localN > 0 && Wrap64(driftN * 100) > Wrap64(pct * localN)
  }

  /** SELECT COUNT(*) ... WHERE repo_id = ? AND COALESCE(NULLIF(storage_pool_path, ''), filename) = ? */
  predicate SharesPool(other: Record, p: DEBPackage) {
    other.DEBRecord? && other.deb.repoId == p.repoId && PoolPath(other.deb) == PoolPath(p)
  }

  function PoolRefs(rows: Table, p: DEBPackage): set<int> {
    set id | id in rows && SharesPool(rows[id], p)
  }

  /** The move for a row, given the table left after its DELETE. */
  function MoveFor(left: Table, row: LocalRow): PendingMove {
    PendingMove(row.rec.Kind(), row.id, PathOf(row.rec), SnapshotOf(row.rec),
                row.rec.DEBRecord? && PoolRefs(left, row.rec.deb) != {})
  }

  function Moves(rows: Table, order: seq<LocalRow>): (m: seq<PendingMove>)
    ensures |m| == |order|
  {
    seq(|order|, i requires 0 <= i < |order| => MoveFor(rows - IdsOf(order[..i + 1]), order[i]))
  }

  /** An APT row of the table names the pool file of p. */
  predicate NamedBy(rows: Table, p: DEBPackage) {
    exists id :: id in rows && rows[id].DEBRecord? && SamePoolFile(rows[id].deb, p)
  }

  lemma PoolRefsInColumns(rows: Table, p: DEBPackage)
    ensures PoolRefs(rows, p) != {} <==> NamedBy(rows, p)
  {
    if NamedBy(rows, p) {
      var id :| id in rows && rows[id].DEBRecord? && SamePoolFile(rows[id].deb, p);
      assert id in PoolRefs(rows, p);
    }
    if !NamedBy(rows, p) { assert forall id :: id !in PoolRefs(rows, p); }
  }

  /** The purge of one row fails. */
  predicate PurgeFails(left: Table, row: LocalRow, fault: PurgeFault, canRetain: bool) {
    || fault.MarshalFails? || fault.DeleteFails?
    || (row.rec.DEBRecord? && (fault.CountFails? || (PoolRefs(left, row.rec.deb) != {} && !canRetain)))
  }

  predicate FailsAt(rows: Table, order: seq<LocalRow>, i: nat, faults: int -> PurgeFault, canRetain: bool)
    requires i < |order|
  {
    PurgeFails(rows - IdsOf(order[..i + 1]), order[i], faults(order[i].id), canRetain)
  }

  function Min(a: nat, b: nat): nat { if a < b then a else b }

  function Labels(rows: seq<LocalRow>): seq<string> {
    seq(|rows|, i requires 0 <= i < |rows| => SampleFilename(rows[i].rec))
  }

  // ---- The transaction and its operations ----

  /** The caller's write transaction: its own view of the tables. */
  class Tx {
    var rows: Table

    constructor (rows: Table)
      ensures this.rows == rows
    {
      this.rows := rows;
    }
  }

  datatype PurgeResult = Purged(move: PendingMove) | Failed

  /** Marshal the snapshot and DELETE the row; a failure of either leaves the table alone. */
  method PurgeRow(tx: Tx, row: LocalRow, fault: PurgeFault) returns (r: PurgeResult)
    modifies tx
    ensures r.Failed? <==> fault.MarshalFails? || fault.DeleteFails?
    ensures r.Failed? ==> tx.rows == old(tx.rows)
    ensures r.Purged? ==> tx.rows == old(tx.rows) - {row.id}
    ensures r.Purged? ==>
              r.move == PendingMove(row.rec.Kind(), row.id, PathOf(row.rec), SnapshotOf(row.rec), false)
  {
    if fault.MarshalFails? { return Failed; }
    var snapshot := SnapshotOf(row.rec);
    if fault.DeleteFails? { return Failed; }
    tx.rows := tx.rows - {row.id};
    return Purged(PendingMove(row.rec.Kind(), row.id, PathOf(row.rec), snapshot, false));
  }

  /** The adapters' Purge. Only the APT adapter counts who else still uses the file. */
  method Purge(tx: Tx, row: LocalRow, fault: PurgeFault, canRetain: bool) returns (r: PurgeResult)
    modifies tx
    ensures r.Failed? <==> PurgeFails(old(tx.rows) - {row.id}, row, fault, canRetain)
    // It fails with the marshal or the DELETE; for an APT row also with the count, or if the file is still
    // named and the trash cannot take a snapshot alone.
    ensures r.Failed? <==>
            || fault.MarshalFails? || fault.DeleteFails?
            || (row.rec.DEBRecord? && fault.CountFails?)
            || (row.rec.DEBRecord? && NamedBy(old(tx.rows) - {row.id}, row.rec.deb) && !canRetain)
    ensures r.Failed? ==> tx.rows == old(tx.rows) || tx.rows == old(tx.rows) - {row.id}
    ensures r.Purged? ==> tx.rows == old(tx.rows) - {row.id} && r.move == MoveFor(tx.rows, row)
    // An APT move goes to the pool path, or to the file name of a row that has none ...
    ensures r.Purged? && row.rec.DEBRecord? ==>
              var p := row.rec.deb;
              r.move.path == Path(DEB, p.repoId, if p.storagePoolPath == "" then p.filename else p.storagePoolPath)
    // ... and leaves the file there exactly while another APT row names it.
    ensures r.Purged? ==> (r.move.retained <==> row.rec.DEBRecord? && NamedBy(tx.rows, row.rec.deb))
  {
    r := PurgeRow(tx, row, fault);
    if row.rec.DEBRecord? { PoolRefsInColumns(old(tx.rows) - {row.id}, row.rec.deb); }
    if r.Failed? || !row.rec.DEBRecord? { return; }
    if fault.CountFails? { return Failed; }
    var refs := |PoolRefs(tx.rows, row.rec.deb)|;
    if refs > 0 {
      if !canRetain { return Failed; }
      r := Purged(r.move.(retained := true));
    }
  }

  /** sort.Slice by SampleFilename: a sorted rearrangement, ties in no particular order. */
  method SortBySample(rows: seq<LocalRow>) returns (sorted: seq<LocalRow>)
    ensures multiset(sorted) == multiset(rows)
    ensures SortedBySample(sorted)
    ensures forall i, j :: 0 <= i < j < |sorted| ==>
                           !Lex.Less(SampleFilename(sorted[j].rec), SampleFilename(sorted[i].rec))
  {
    sorted := [];
    for i := 0 to |rows|
      invariant multiset(sorted) == multiset(rows[..i])
      invariant SortedBySample(sorted)
    {
      var before := sorted;
      sorted := InsertBySample(before, rows[i]);
      assert rows[..i + 1] == rows[..i] + [rows[i]];
    }
    assert rows[..|rows|] == rows;
    forall i, j | 0 <= i < j < |sorted|
      ensures !Lex.Less(SampleFilename(sorted[j].rec), SampleFilename(sorted[i].rec))
    {
      NotBefore(SampleFilename(sorted[i].rec), SampleFilename(sorted[j].rec));
    }
  }

  lemma NotBefore(a: string, b: string)
    requires Lex.AtMost(a, b)
    ensures !Lex.Less(b, a)
  {
    if a == b { Lex.Irreflexive(a); } else { Lex.Asymmetric(a, b); }
  }

  method InsertBySample(rows: seq<LocalRow>, row: LocalRow) returns (sorted: seq<LocalRow>)
    requires SortedBySample(rows)
    ensures multiset(sorted) == multiset(rows) + multiset{row}
    ensures SortedBySample(sorted)
  {
    var k := 0;
    while k < |rows| && NotAfter(rows[k], row)
      invariant k <= |rows|
      invariant forall i :: 0 <= i < k ==> NotAfter(rows[i], row)
    {
      k := k + 1;
    }
    assert rows == rows[..k] + rows[k..];
    sorted := rows[..k] + [row] + rows[k..];
    InsertKeepsSorted(rows, k, row);
  }

  lemma InsertKeepsSorted(rows: seq<LocalRow>, k: nat, row: LocalRow)
    requires SortedBySample(rows) && k <= |rows|
    requires forall i :: 0 <= i < k ==> NotAfter(rows[i], row)
    requires k < |rows| ==> !NotAfter(rows[k], row)
    ensures SortedBySample(rows[..k] + [row] + rows[k..])
  {
    var sorted := rows[..k] + [row] + rows[k..];
    forall j | k <= j < |rows| ensures NotAfter(row, rows[j]) {
      NotAfterOrder(rows[k], row, rows[k]);
      NotAfterOrder(row, rows[k], rows[j]);
    }
    forall i, j | 0 <= i < j < |sorted| ensures NotAfter(sorted[i], sorted[j]) {
      assert sorted[i] == if i < k then rows[i] else if i == k then row else rows[i - 1];
      assert sorted[j] == if j < k then rows[j] else if j == k then row else rows[j - 1];
    }
  }

  /** Run. local is None when loading the local rows failed. order is the drift list as sorted. */
  method Run(tx: Tx, upstream: seq<Key>, local: Option<seq<LocalRow>>, pct: int, force: bool,
             faults: int -> PurgeFault, canRetain: bool)
    returns (report: Report, pending: seq<PendingMove>, ok: bool, ghost order: seq<LocalRow>)
    modifies tx
    ensures local.None? ==> !ok && tx.rows == old(tx.rows) && pending == []
    ensures local.Some? && !EmptyUpstream(upstream, local.value) ==>
              && multiset(order) == multiset(Drift(local.value, upstream)) && SortedBySample(order)
              && report.localCount == |local.value|
              && |report.sample| == if |order| < 20 then |order| else 20
    // First guard: nothing is purged from a live mirror on an empty upstream, forced or not.
    ensures local.Some? && upstream == [] && local.value != [] ==>
              ok && tx.rows == old(tx.rows) && pending == [] &&
              report == Report(0, [], true, UpstreamEmpty, |local.value|, 0)
    ensures report.reason == UpstreamEmpty ==> local.Some? && upstream == [] && local.value != []
    // Second guard: the percent threshold.
    ensures local.Some? && !EmptyUpstream(upstream, local.value) && Blocked(|order|, |local.value|, pct, force) ==>
              ok && tx.rows == old(tx.rows) && pending == [] &&
              report == Report(0, Labels(order[..Min(|order|, SAMPLE_LIMIT)]), true, ThresholdExceeded,
                               |local.value|, |order|)
    // Otherwise every drifted row is purged, up to the first failure.
    ensures local.Some? && !EmptyUpstream(upstream, local.value) && !Blocked(|order|, |local.value|, pct, force) ==>
              && !report.skipped && report.reason == NoReason && report.blockedCount == 0
              && report.sample == Labels(order[..Min(|order|, SAMPLE_LIMIT)])
              && report.purgedCount <= |order|
              && (ok <==> forall i: nat :: i < |order| ==> !FailsAt(old(tx.rows), order, i, faults, canRetain))
              && (ok ==> report.purgedCount == |order| && pending == Moves(old(tx.rows), order) &&
                         tx.rows == old(tx.rows) - IdsOf(order))
              && (!ok ==> pending == [] && report.purgedCount < |order| &&
                          FailsAt(old(tx.rows), order, report.purgedCount, faults, canRetain) &&
                          (tx.rows == old(tx.rows) - IdsOf(order[..report.purgedCount]) ||
                           tx.rows == old(tx.rows) - IdsOf(order[..report.purgedCount + 1])))
  {
    report := Report(0, [], false, NoReason, 0, 0);
    pending, order := [], [];
    var upstreamSet := {};
    for i := 0 to |upstream|
      invariant upstreamSet == set k | k in upstream[..i]
    {
      upstreamSet := upstreamSet + {upstream[i]};
    }

    if local.None? { ok := false; return; }
    var rows := local.value;
    report := report.(localCount := |rows|);

    if |upstream| == 0 && |rows| > 0 {
      ok := true;
      report := report.(skipped := true, reason := UpstreamEmpty);
      return;
    }

    var drift: seq<LocalRow> := [];
    for i := 0 to |rows|
      invariant drift == Drift(rows[..i], upstream)
    {
      assert rows[..i + 1][..i] == rows[..i];
      if rows[i].key !in upstreamSet {
        drift := drift + [rows[i]];
      }
    }
    assert rows[..|rows|] == rows;

    drift := SortBySample(drift);
    order := drift;
    assert |drift| == |multiset(drift)|;

    var limit := Min(|drift|, SAMPLE_LIMIT);
    var sample: seq<string> := [];
    for i := 0 to limit
      invariant sample == Labels(drift[..i])
    {
      sample := sample + [SampleFilename(drift[i].rec)];
    }
    report := report.(sample := sample);

    if Blocked(|drift|, |rows|, pct, force) {
      ok := true;
      report := report.(skipped := true, reason := ThresholdExceeded, blockedCount := |drift|);
      return;
    }

    pending, report, ok := PurgeAll(tx, drift, report, faults, canRetain);
  }

  /** The purge loop: stop at the first failure. */
  method PurgeAll(tx: Tx, drift: seq<LocalRow>, start: Report, faults: int -> PurgeFault, canRetain: bool)
    returns (pending: seq<PendingMove>, report: Report, ok: bool)
    requires start.purgedCount == 0
    modifies tx
    ensures report == start.(purgedCount := report.purgedCount) && report.purgedCount <= |drift|
    ensures ok <==> forall i: nat :: i < |drift| ==> !FailsAt(old(tx.rows), drift, i, faults, canRetain)
    ensures ok ==> report.purgedCount == |drift| && pending == Moves(old(tx.rows), drift) &&
                   tx.rows == old(tx.rows) - IdsOf(drift)
    ensures !ok ==> pending == [] && report.purgedCount < |drift| &&
                    FailsAt(old(tx.rows), drift, report.purgedCount, faults, canRetain) &&
                    (tx.rows == old(tx.rows) - IdsOf(drift[..report.purgedCount]) ||
                     tx.rows == old(tx.rows) - IdsOf(drift[..report.purgedCount + 1]))
  {
    ghost var before := tx.rows;
    report, pending := start, [];
    for i := 0 to |drift|
      invariant report == start.(purgedCount := i)
      invariant tx.rows == before - IdsOf(drift[..i])
      invariant |pending| == i
      invariant forall j :: 0 <= j < i ==> pending[j] == MoveFor(before - IdsOf(drift[..j + 1]), drift[j])
      invariant forall j: nat :: j < i ==> !FailsAt(before, drift, j, faults, canRetain)
    {
      assert tx.rows - {drift[i].id} == before - IdsOf(drift[..i + 1]) by {
        assert drift[..i + 1] == drift[..i] + [drift[i]];
        assert IdsOf(drift[..i + 1]) == IdsOf(drift[..i]) + {drift[i].id};
      }
      var r := Purge(tx, drift[i], faults(drift[i].id), canRetain);
      if r.Failed? {
        assert FailsAt(before, drift, i, faults, canRetain);
        pending, ok := [], false;
        return;
      }
      pending := pending + [r.move];
      report := report.(purgedCount := report.purgedCount + 1);
    }
    assert drift[..|drift|] == drift;
    ok := true;
  }
}
