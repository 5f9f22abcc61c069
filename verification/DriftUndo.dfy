/** Undoing a purge by restoring its trash entries one after the other, in any order: exactly which
    sequences of restores are accepted, and that a complete one brings back every row and every file. */
module DriftUndo {
  import opened Options
  import opened Records
  import opened DriftEngine
  import opened DriftTheorems
  import opened DriftStore

  /** A purge that committed: the table and the disk before it, the rows it deleted in order, their
      deferred moves, and the trash holders the moves went to. */
  datatype PurgeRun = PurgeRun(rows: Table, disk: Disk, order: seq<LocalRow>, moves: seq<PendingMove>,
                               holders: seq<nat>)
  {
    predicate Valid() {
      |holders| == |moves| == |order|
    }

    function Size(): nat { |moves| }

    function Left(): Table { rows - IdsOf(order) }
  }

  /** The rows themselves, whatever their ids. */
  function RowSet(rows: Table): set<Record> {
    set id | id in rows :: rows[id]
  }

  /** Memberships of one pool file have one digest. */
  predicate OnePoolContent(rows: Table) {
    forall i, j :: i in rows && j in rows && rows[i].DEBRecord? && PathOf(rows[i]) == PathOf(rows[j]) ==>
      rows[i].Digest() == rows[j].Digest()
  }

  /** The k-th move is the one a purge makes for its k-th row, and the row survives its snapshot. */
  predicate MoveFits(row: Reader, p: PurgeRun, k: nat)
    requires p.Valid() && k < p.Size()
  {
    var m, r := p.moves[k], p.order[k].rec;
    && m.kind == m.path.kind == r.Kind() && m.path == PathOf(r)
    && (m.retained <==> m.kind == DEB &&
                        (Uses(p.Left(), m.path) || exists j :: k < j < p.Size() && p.moves[j].path == m.path))
    && row(m.kind, m.snapshot) == r && Insertable(r)
  }

  /** The purged rows had their files; the holders were new. */
  predicate Ready(row: Reader, p: PurgeRun) {
    && p.Valid() && UniqueRows(p.rows) && OnePoolContent(p.rows) && FromTable(p.rows, p.order)
    && (forall k: nat :: k < p.Size() ==> MoveFits(row, p, k) && p.moves[k].path in p.disk.files)
    && (forall i, j :: 0 <= i < j < |p.holders| ==> p.holders[i] != p.holders[j])
    && (forall h :: h in p.holders ==> h !in p.disk.trash)
  }

  /** A run of the engine whose rows the snapshot does not change. */
  lemma EngineRunIsReady(rows: Table, disk: Disk, order: seq<LocalRow>, holders: seq<nat>)
    requires UniqueRows(rows) && OnePoolContent(rows) && FromTable(rows, order) && |holders| == |order|
    requires forall i, j :: 0 <= i < j < |holders| ==> holders[i] != holders[j]
    requires forall h :: h in holders ==> h !in disk.trash
    requires forall k: nat :: k < |order| ==> Undamaged(order[k].rec) && PathOf(order[k].rec) in disk.files
    ensures Ready(RowOf, PurgeRun(rows, disk, order, Moves(rows, order), holders))
  {
    var p := PurgeRun(rows, disk, order, Moves(rows, order), holders);
    forall k: nat | k < p.Size() ensures MoveFits(RowOf, p, k) && p.moves[k].path in p.disk.files {
      assert Undamaged(order[k].rec);
      EngineMoveFits(p, k);
    }
  }

  /** What a restore makes of the row is the row. */
  predicate Undamaged(r: Record) { Restored(r) == r && Insertable(r) }

  lemma EngineMoveFits(p: PurgeRun, k: nat)
    requires p.Valid() && FromTable(p.rows, p.order) && p.moves == Moves(p.rows, p.order) && k < p.Size()
    requires Undamaged(p.order[k].rec)
    ensures MoveFits(RowOf, p, k)
  {
    var r := p.order[k].rec;
    RowOfSnapshot(r);
    MoveNames(p.rows, p.order, k);
    EngineRetains(p, k);
  }

  lemma MoveNames(rows: Table, order: seq<LocalRow>, k: nat)
    requires k < |order|
    ensures var m := Moves(rows, order)[k]; var r := order[k].rec;
            && m.kind == m.path.kind == r.Kind() && m.path == PathOf(r) && m.snapshot == SnapshotOf(r)
            && (m.retained ==> r.DEBRecord?)
  {
  }

  lemma EngineRetains(p: PurgeRun, k: nat)
    requires p.Valid() && FromTable(p.rows, p.order) && p.moves == Moves(p.rows, p.order) && k < p.Size()
    ensures p.moves[k].retained <==>
            p.moves[k].kind == DEB && (Uses(p.Left(), p.moves[k].path) ||
                                       exists j :: k < j < p.Size() && p.moves[j].path == p.moves[k].path)
  {
    forall j: nat | j < p.Size() ensures p.moves[j].path == PathOf(p.order[j].rec) {
      MoveNames(p.rows, p.order, j);
    }
    MoveNames(p.rows, p.order, k);
    if p.order[k].rec.DEBRecord? { RetainedMeaning(p.rows, p.order, k); }
  }

  lemma RowOfSnapshot(r: Record)
    ensures RowOf(r.Kind(), SnapshotOf(r)) == Restored(r)
  {
  }

  // ---- The disk after the moves ----

  function NoFaults(n: nat): seq<MoveFault> { seq(n, i => MoveOk) }

  /** The disk after the first k deferred moves, all of which succeed. */
  function DiskAfter(p: PurgeRun, k: nat): Disk
    requires p.Valid() && k <= p.Size()
  {
    if k == 0 then p.disk else AfterMove(DiskAfter(p, k - 1), p.moves[k - 1], p.holders[k - 1], MoveOk)
  }

  function AllMoved(p: PurgeRun): Disk
    requires p.Valid()
  {
    DiskAfter(p, p.Size())
  }

  /** It is the disk ApplyPendingMoves leaves. */
  lemma {:induction false} DiskAfterIsApplied(p: PurgeRun, k: nat)
    requires p.Valid() && k <= p.Size()
    ensures DiskAfter(p, k) == AfterMoves(p.disk, p.moves[..k], p.holders[..k], NoFaults(k))
  {
    if k > 0 {
      DiskAfterIsApplied(p, k - 1);
      Prefix(p.moves, k - 1);
      Prefix(p.holders, k - 1);
      assert NoFaults(k)[..k - 1] == NoFaults(k - 1);
    }
  }

  lemma AllMovedIsApplied(p: PurgeRun)
    requires p.Valid()
    ensures AllMoved(p) == AfterMoves(p.disk, p.moves, p.holders, NoFaults(p.Size()))
  {
    DiskAfterIsApplied(p, p.Size());
    assert p.moves[..p.Size()] == p.moves && p.holders[..p.Size()] == p.holders;
  }

  /** One of the first k moves is a physical move of f. */
  predicate MovedAway(p: PurgeRun, k: nat, f: Path)
    requires k <= p.Size()
  {
    exists i :: 0 <= i < k && p.moves[i].path == f && !p.moves[i].retained
  }

  /** A file is gone after k moves exactly when one of them was its physical move. */
  lemma {:induction false} FilesAfter(p: PurgeRun, k: nat)
    requires p.Valid() && k <= p.Size()
    ensures forall f :: f in DiskAfter(p, k).files <==> f in p.disk.files && !MovedAway(p, k, f)
    ensures forall f :: f in DiskAfter(p, k).files ==> DiskAfter(p, k).files[f] == p.disk.files[f]
  {
    if k > 0 {
      FilesAfter(p, k - 1);
      var m := p.moves[k - 1];
      forall f ensures MovedAway(p, k, f) <==> MovedAway(p, k - 1, f) || (m.path == f && !m.retained) {}
    }
  }

  lemma {:induction false} TrashAfter(p: PurgeRun, k: nat)
    requires p.Valid() && k <= p.Size() && forall h :: h in p.holders ==> h !in p.disk.trash
    ensures forall h :: h in DiskAfter(p, k).trash ==> h in p.disk.trash || h in p.holders[..k]
    ensures forall h :: h in p.disk.trash ==> h in DiskAfter(p, k).trash && DiskAfter(p, k).trash[h] == p.disk.trash[h]
  {
    if k > 0 {
      TrashAfter(p, k - 1);
      assert p.holders[..k] == p.holders[..k - 1] + [p.holders[k - 1]];
    }
  }

  // ---- The trash entries of a purge ----

  /** An earlier purged row of a PyPI, RPM or Helm repository had the same file. */
  predicate EarlierTwin(p: PurgeRun, k: nat)
    requires k < p.Size()
  {
    p.moves[k].kind != DEB && exists i :: 0 <= i < k && p.moves[i].path == p.moves[k].path
  }

  /** No two purged rows outside APT share a file. */
  predicate Separate(p: PurgeRun) {
    forall k: nat :: k < p.Size() ==> !EarlierTwin(p, k)
  }

  /** When its move comes, a row's file is still there exactly if it has no earlier twin. */
  lemma PresentAtMove(row: Reader, p: PurgeRun, k: nat)
    requires Ready(row, p) && k < p.Size()
    ensures p.moves[k].path in DiskAfter(p, k).files <==> !EarlierTwin(p, k)
  {
    FilesAfter(p, k);
    assert MoveFits(row, p, k);
    if EarlierTwin(p, k) {
      var i: nat :| i < k && p.moves[i].path == p.moves[k].path;
      assert MoveFits(row, p, i);
      assert MovedAway(p, k, p.moves[k].path);
    } else {
      forall i: nat | i < k && p.moves[i].path == p.moves[k].path ensures p.moves[i].retained {
        assert MoveFits(row, p, i);
      }
    }
  }

  /** The entry holds the payload of its path. */
  predicate HoldsPayload(p: PurgeRun, k: nat)
    requires k < p.Size()
  {
    !p.moves[k].retained && !EarlierTwin(p, k)
  }

  function EntryOf(p: PurgeRun, k: nat): Entry
    requires k < p.Size() && p.moves[k].path in p.disk.files
  {
    var m := p.moves[k];
    if HoldsPayload(p, k) then Entry(m.kind, m.path, false, Some(p.disk.files[m.path]), m.snapshot)
    else Entry(m.kind, m.path, true, None, m.snapshot)
  }

  /** What a purge leaves in the trash for its k-th row. */
  lemma FinalEntry(row: Reader, p: PurgeRun, k: nat)
    requires Ready(row, p) && k < p.Size()
    ensures p.moves[k].path in p.disk.files
    ensures p.holders[k] in AllMoved(p).trash && AllMoved(p).trash[p.holders[k]] == EntryOf(p, k)
    ensures RetainedDEB(EntryOf(p, k)) <==> p.moves[k].retained
    ensures RowFrom(row, EntryOf(p, k)) == p.order[k].rec
  {
    assert MoveFits(row, p, k);
    PresentAtMove(row, p, k);
    FilesAfter(p, k);
    EntryStays(p, k, p.Size());
  }

  lemma {:induction false} EntryStays(p: PurgeRun, k: nat, n: nat)
    requires p.Valid() && k < n <= p.Size() && forall i, j :: 0 <= i < j < |p.holders| ==> p.holders[i] != p.holders[j]
    ensures p.holders[k] in DiskAfter(p, n).trash <==> p.holders[k] in DiskAfter(p, k + 1).trash
    ensures p.holders[k] in DiskAfter(p, n).trash ==>
              DiskAfter(p, n).trash[p.holders[k]] == DiskAfter(p, k + 1).trash[p.holders[k]]
  {
    if n > k + 1 { EntryStays(p, k, n - 1); }
  }

  /** A path has at most one entry with the payload ... */
  lemma OnePayload(row: Reader, p: PurgeRun, i: nat, k: nat)
    requires Ready(row, p) && i < k < p.Size() && p.moves[i].path == p.moves[k].path
    ensures !(HoldsPayload(p, i) && HoldsPayload(p, k))
  {
    assert MoveFits(row, p, i) && MoveFits(row, p, k);
  }

  /** ... and has one if its file was moved. */
  lemma {:induction false} PayloadExists(row: Reader, p: PurgeRun, i: nat) returns (k: nat)
    requires Ready(row, p) && i < p.Size() && !p.moves[i].retained
    ensures k < p.Size() && HoldsPayload(p, k) && p.moves[k].path == p.moves[i].path
    decreases i
  {
    if EarlierTwin(p, i) {
      var j: nat :| j < i && p.moves[j].path == p.moves[i].path;
      assert MoveFits(row, p, i) && MoveFits(row, p, j);
      k := PayloadExists(row, p, j);
    } else {
      k := i;
    }
  }

  // ---- The system once some entries are back ----

  /** The payload of f is still in the trash. */
  predicate Away(p: PurgeRun, back: set<nat>, f: Path) {
    exists i: nat :: i < p.Size() && i !in back && p.moves[i].path == f && HoldsPayload(p, i)
  }

  function FilesWith(p: PurgeRun, back: set<nat>): map<Path, string> {
    map f | f in p.disk.files && !Away(p, back, f) :: p.disk.files[f]
  }

  function HoldersOf(p: PurgeRun, back: set<nat>): set<nat>
    requires p.Valid()
  {
    set i | i in back && i < p.Size() :: p.holders[i]
  }

  function RecordsOf(p: PurgeRun, back: set<nat>): set<Record>
    requires p.Valid()
  {
    set i | i in back && i < p.Size() :: p.order[i].rec
  }

  predicate RowsWith(p: PurgeRun, back: set<nat>, mid: Table)
    requires p.Valid()
  {
    RowSet(mid) == RowSet(p.Left()) + RecordsOf(p, back) && UniqueRows(mid)
  }

  predicate DiskWith(p: PurgeRun, back: set<nat>, d: Disk)
    requires p.Valid()
  {
    d == Disk(FilesWith(p, back), AllMoved(p).trash - HoldersOf(p, back))
  }

  /** Rows and disk with exactly the entries in back restored. */
  predicate At(p: PurgeRun, back: set<nat>, d: Disk, mid: Table)
    requires p.Valid()
  {
    DiskWith(p, back, d) && RowsWith(p, back, mid)
  }

  lemma MovedIsAway(row: Reader, p: PurgeRun, f: Path)
    requires Ready(row, p)
    ensures MovedAway(p, p.Size(), f) <==> Away(p, {}, f)
  {
    if MovedAway(p, p.Size(), f) {
      var i: nat :| i < p.Size() && p.moves[i].path == f && !p.moves[i].retained;
      var k := PayloadExists(row, p, i);
    }
  }

  lemma AtStart(row: Reader, p: PurgeRun)
    requires Ready(row, p)
    ensures At(p, {}, AllMoved(p), p.Left())
  {
    FilesAfter(p, p.Size());
    forall f ensures MovedAway(p, p.Size(), f) <==> Away(p, {}, f) { MovedIsAway(row, p, f); }
    assert AllMoved(p).files == FilesWith(p, {});
    assert AllMoved(p).trash - HoldersOf(p, {}) == AllMoved(p).trash;
    assert RecordsOf(p, {}) == {};
  }

  lemma AtEnd(row: Reader, p: PurgeRun, back: set<nat>, d: Disk, mid: Table)
    requires Ready(row, p) && At(p, back, d, mid) && forall k: nat :: k < p.Size() ==> k in back
    ensures d == p.disk && RowSet(mid) == RowSet(p.rows)
  {
    assert FilesWith(p, back) == p.disk.files;
    TrashAfter(p, p.Size());
    assert p.holders[..p.Size()] == p.holders;
    forall h | h in p.holders ensures h in HoldersOf(p, back) {
      var k: nat :| k < |p.holders| && p.holders[k] == h;
    }
    assert d.trash == p.disk.trash;
    AllRecords(p, back);
  }

  lemma AllRecords(p: PurgeRun, back: set<nat>)
    requires p.Valid() && FromTable(p.rows, p.order) && forall k: nat :: k < p.Size() ==> k in back
    ensures RowSet(p.Left()) + RecordsOf(p, back) == RowSet(p.rows)
  {
    forall r | r in RowSet(p.rows) ensures r in RowSet(p.Left()) + RecordsOf(p, back) {
      var id :| id in p.rows && p.rows[id] == r;
      if id in IdsOf(p.order) {
        var l :| l in p.order && l.id == id;
        var k: nat :| k < |p.order| && p.order[k] == l;
        assert k in back && p.order[k].rec == r;
      } else {
        assert id in p.Left() && p.Left()[id] == r;
      }
    }
    forall r | r in RowSet(p.Left()) + RecordsOf(p, back) ensures r in RowSet(p.rows) {
      if r in RowSet(p.Left()) {
        var id :| id in p.Left() && p.Left()[id] == r;
        assert p.rows[id] == r;
      } else {
        var k :| k in back && k < p.Size() && p.order[k].rec == r;
        assert p.order[k] in p.order && p.rows[p.order[k].id] == r;
      }
    }
  }

  // ---- One restore ----

  /** The handler accepts the restore of h, both halves. */
  predicate Accepted(row: Reader, d: Disk, mid: Table, h: nat) {
    h in d.trash && AfterFileBack(d, h, false).Some? && RowAccepted(mid, d.trash[h], RowFrom(row, d.trash[h]))
  }

  ghost predicate Upserts(before: Table, r: Record, newId: int, after: Table) {
    newId !in before && IsUpsert(before, r, newId, after)
  }

  /** The disk after an accepted restore of h: its file half, and the holder gone. */
  function Emptied(d: Disk, h: nat): Disk
    requires h in d.trash && AfterFileBack(d, h, false).Some?
  {
    var b := AfterFileBack(d, h, false).value; b.(trash := b.trash - {h})
  }

  /** A restore of h that goes through. */
  ghost predicate Restores(row: Reader, d: Disk, mid: Table, h: nat, newId: int, d': Disk, mid': Table) {
    Accepted(row, d, mid, h) && d' == Emptied(d, h) && Upserts(mid, RowFrom(row, d.trash[h]), newId, mid')
  }

  /** The condition for restoring entry k next: it is no later twin, and a metadata-only entry has its
      payload back. */
  predicate CanFollow(p: PurgeRun, back: set<nat>, k: nat)
    requires k < p.Size()
  {
    !EarlierTwin(p, k) && (p.moves[k].retained ==> !Away(p, back, p.moves[k].path))
  }

  /** What is in the trash for an entry that is not back. */
  lemma EntryAt(row: Reader, p: PurgeRun, back: set<nat>, d: Disk, k: nat)
    requires Ready(row, p) && DiskWith(p, back, d) && k < p.Size() && k !in back
    ensures p.moves[k].path in p.disk.files
    ensures p.holders[k] in d.trash && d.trash[p.holders[k]] == EntryOf(p, k)
    ensures RetainedDEB(EntryOf(p, k)) <==> p.moves[k].retained
    ensures RowFrom(row, EntryOf(p, k)) == p.order[k].rec
  {
    FinalEntry(row, p, k);
    forall i | i in back && i < p.Size() ensures p.holders[i] != p.holders[k] {
      if i < k { assert p.holders[i] != p.holders[k]; }
    }
  }

  /** Row s has the file and the bytes of entry k. */
  predicate Companion(p: PurgeRun, k: nat, s: Record)
    requires p.Valid() && k < p.Size()
  {
    s.DEBRecord? && PathOf(s) == p.moves[k].path && s.Digest() == p.order[k].rec.Digest()
  }

  lemma RowIsCompanion(row: Reader, p: PurgeRun, k: nat, id: int)
    requires Ready(row, p) && k < p.Size() && p.moves[k].kind == DEB
    requires id in p.rows && PathOf(p.rows[id]) == p.moves[k].path
    ensures Companion(p, k, p.rows[id])
  {
    assert MoveFits(row, p, k);
    assert p.order[k] in p.order && p.rows[p.order[k].id] == p.order[k].rec;
  }

  /** The last move of a path, if it is an APT path nobody uses any more, is the one with the payload. */
  lemma LastHoldsPayload(row: Reader, p: PurgeRun, k: nat) returns (i: nat)
    requires Ready(row, p) && k < p.Size() && p.moves[k].kind == DEB && !Uses(p.Left(), p.moves[k].path)
    ensures i < p.Size() && p.moves[i].path == p.moves[k].path && HoldsPayload(p, i)
    decreases p.Size() - k
  {
    assert MoveFits(row, p, k);
    if j: nat :| k < j < p.Size() && p.moves[j].path == p.moves[k].path {
      assert MoveFits(row, p, j);
      i := LastHoldsPayload(row, p, j);
    } else {
      i := k;
    }
  }

  lemma FindCompanion(row: Reader, p: PurgeRun, back: set<nat>, k: nat) returns (s: Record)
    requires Ready(row, p) && k < p.Size() && p.moves[k].retained && !Away(p, back, p.moves[k].path)
    ensures Companion(p, k, s) && s in RowSet(p.Left()) + RecordsOf(p, back)
  {
    assert MoveFits(row, p, k);
    if Uses(p.Left(), p.moves[k].path) {
      var id :| id in p.Left() && PathOf(p.Left()[id]) == p.moves[k].path;
      assert p.Left()[id] == p.rows[id];
      RowIsCompanion(row, p, k, id);
      s := p.rows[id];
    } else {
      var i := LastHoldsPayload(row, p, k);
      assert MoveFits(row, p, i);
      assert p.order[i] in p.order && p.rows[p.order[i].id] == p.order[i].rec;
      RowIsCompanion(row, p, k, p.order[i].id);
      s := p.order[i].rec;
    }
  }

  /** A metadata-only entry whose payload is back finds a membership with its file and bytes. */
  lemma CompanionBack(row: Reader, p: PurgeRun, back: set<nat>, mid: Table, k: nat)
    requires Ready(row, p) && k < p.Size() && p.moves[k].retained && !Away(p, back, p.moves[k].path)
    requires RowsWith(p, back, mid)
    ensures p.order[k].rec.DEBRecord?
    ensures exists id :: id in mid && SharesPool(mid[id], p.order[k].rec.deb) &&
                         mid[id].Digest() == p.order[k].rec.Digest()
  {
    var s := FindCompanion(row, p, back, k);
    assert MoveFits(row, p, k);
    assert s in RowSet(mid);
    var id :| id in mid && mid[id] == s;
    assert SharesPool(mid[id], p.order[k].rec.deb);
  }

  /** The file half alone. */
  lemma FileHalfExactly(row: Reader, p: PurgeRun, back: set<nat>, d: Disk, k: nat)
    requires Ready(row, p) && DiskWith(p, back, d) && k < p.Size() && k !in back
    ensures p.holders[k] in d.trash
    ensures AfterFileBack(d, p.holders[k], false).Some? <==> CanFollow(p, back, k)
  {
    EntryAt(row, p, back, d, k);
    assert MoveFits(row, p, k);
    if HoldsPayload(p, k) { assert Away(p, back, p.moves[k].path); }
  }

  /** With the entries in back restored, the restore of entry k is accepted if and only if it has no
      earlier twin and, being metadata-only, has its payload back. */
  lemma RestoreExactly(row: Reader, p: PurgeRun, back: set<nat>, d: Disk, mid: Table, k: nat)
    requires Ready(row, p) && At(p, back, d, mid) && k < p.Size() && k !in back
    ensures Accepted(row, d, mid, p.holders[k]) <==> CanFollow(p, back, k)
  {
    EntryAt(row, p, back, d, k);
    FileHalfExactly(row, p, back, d, k);
    assert MoveFits(row, p, k);
    if CanFollow(p, back, k) && p.moves[k].retained { CompanionBack(row, p, back, mid, k); }
  }

  lemma FilesGrow(row: Reader, p: PurgeRun, back: set<nat>, k: nat)
    requires Ready(row, p) && k < p.Size() && k !in back && !EarlierTwin(p, k) && p.moves[k].path in p.disk.files
    ensures FilesWith(p, back + {k}) ==
            if p.moves[k].retained then FilesWith(p, back)
            else FilesWith(p, back)[p.moves[k].path := p.disk.files[p.moves[k].path]]
  {
    var f := p.moves[k].path;
    forall g | g != f || p.moves[k].retained ensures Away(p, back + {k}, g) <==> Away(p, back, g) {
      if Away(p, back, g) {
        var i: nat :| i < p.Size() && i !in back && p.moves[i].path == g && HoldsPayload(p, i);
        assert i !in back + {k};
      }
    }
    if !p.moves[k].retained { PayloadWasLast(row, p, back, k); }
  }

  lemma PayloadWasLast(row: Reader, p: PurgeRun, back: set<nat>, k: nat)
    requires Ready(row, p) && k < p.Size() && HoldsPayload(p, k)
    ensures !Away(p, back + {k}, p.moves[k].path)
  {
    forall i: nat | i < p.Size() && i != k && p.moves[i].path == p.moves[k].path ensures !HoldsPayload(p, i) {
      if i < k { OnePayload(row, p, i, k); } else { OnePayload(row, p, k, i); }
    }
  }

  lemma BackGrows(p: PurgeRun, back: set<nat>, k: nat)
    requires p.Valid() && k < p.Size()
    ensures HoldersOf(p, back + {k}) == HoldersOf(p, back) + {p.holders[k]}
    ensures RecordsOf(p, back + {k}) == RecordsOf(p, back) + {p.order[k].rec}
  {
  }

  /** No row that is there has the unique key of the row to put back. */
  lemma KeyIsFree(p: PurgeRun, back: set<nat>, mid: Table, k: nat)
    requires p.Valid() && UniqueRows(p.rows) && FromTable(p.rows, p.order) && RowsWith(p, back, mid)
    requires k < p.Size() && k !in back
    ensures forall id :: id in mid ==> UniqueKeyOf(mid[id]) != UniqueKeyOf(p.order[k].rec)
  {
    forall id | id in mid ensures UniqueKeyOf(mid[id]) != UniqueKeyOf(p.order[k].rec) {
      assert mid[id] in RowSet(mid);
      OtherRow(p, back, mid[id], k);
    }
  }

  lemma OtherRow(p: PurgeRun, back: set<nat>, r: Record, k: nat)
    requires p.Valid() && UniqueRows(p.rows) && FromTable(p.rows, p.order) && k < p.Size() && k !in back
    requires r in RowSet(p.Left()) + RecordsOf(p, back)
    ensures UniqueKeyOf(r) != UniqueKeyOf(p.order[k].rec)
  {
    assert p.order[k] in p.order;
    if r in RowSet(p.Left()) {
      var j :| j in p.Left() && p.Left()[j] == r;
      assert p.rows[j] == r && j != p.order[k].id;
    } else {
      var i :| i in back && i < p.Size() && p.order[i].rec == r;
      assert p.order[i] in p.order;
      assert p.order[i].id != p.order[k].id by { if i < k {} else { assert k < i; } }
    }
  }

  lemma Added(mid: Table, newId: int, r: Record)
    requires newId !in mid && UniqueRows(mid) && forall id :: id in mid ==> UniqueKeyOf(mid[id]) != UniqueKeyOf(r)
    ensures RowSet(mid[newId := r]) == RowSet(mid) + {r} && UniqueRows(mid[newId := r])
  {
    var mid' := mid[newId := r];
    forall x | x in RowSet(mid) + {r} ensures x in RowSet(mid') {
      if x == r {
        assert newId in mid' && mid'[newId] == r;
      } else {
        var id :| id in mid && mid[id] == x;
        assert id in mid' && mid'[id] == x;
      }
    }
  }

  lemma UpsertAdds(mid: Table, r: Record, newId: int, mid': Table)
    requires Upserts(mid, r, newId, mid') && UniqueRows(mid)
    requires forall id :: id in mid ==> UniqueKeyOf(mid[id]) != UniqueKeyOf(r)
    ensures RowSet(mid') == RowSet(mid) + {r} && UniqueRows(mid')
  {
    var id :| TakesId(mid, r, newId, id) && mid' == mid[id := r];
    Added(mid, newId, r);
  }

  /** A restore that goes through adds entry k to what is back, and nothing else. */
  lemma RestoreAdds(row: Reader, p: PurgeRun, back: set<nat>, d: Disk, mid: Table, k: nat, newId: int, d': Disk,
                    mid': Table)
    requires Ready(row, p) && At(p, back, d, mid) && k < p.Size() && k !in back
    requires Restores(row, d, mid, p.holders[k], newId, d', mid')
    ensures At(p, back + {k}, d', mid')
  {
    EntryAt(row, p, back, d, k);
    BackGrows(p, back, k);
    RestoreAddsFile(row, p, back, d, k);
    KeyIsFree(p, back, mid, k);
    UpsertAdds(mid, p.order[k].rec, newId, mid');
  }

  lemma RestoreAddsFile(row: Reader, p: PurgeRun, back: set<nat>, d: Disk, k: nat)
    requires Ready(row, p) && DiskWith(p, back, d) && k < p.Size() && k !in back && p.holders[k] in d.trash
    requires AfterFileBack(d, p.holders[k], false).Some?
    ensures DiskWith(p, back + {k}, Emptied(d, p.holders[k]))
  {
    EntryAt(row, p, back, d, k);
    FileHalfExactly(row, p, back, d, k);
    FilesGrow(row, p, back, k);
    BackGrows(p, back, k);
    EmptiedDisk(d, p.holders[k]);
    assert AllMoved(p).trash - HoldersOf(p, back) - {p.holders[k]} ==
           AllMoved(p).trash - (HoldersOf(p, back) + {p.holders[k]});
  }

  lemma EmptiedDisk(d: Disk, h: nat)
    requires h in d.trash && AfterFileBack(d, h, false).Some?
    ensures var e := d.trash[h];
            Emptied(d, h) == Disk(if RetainedDEB(e) then d.files else d.files[e.path := e.payload.value], d.trash - {h})
  {
  }

  // ---- Sequences of restores ----

  function SetOf(s: seq<nat>): set<nat> { set x | x in s }

  /** Some of the purge's entries, each once, in the order they are restored. */
  predicate Selection(p: PurgeRun, picks: seq<nat>) {
    && (forall i :: 0 <= i < |picks| ==> picks[i] < p.Size())
    && (forall i, j :: 0 <= i < j < |picks| ==> picks[i] != picks[j])
  }

  /** All restores of the sequence go through, one after the other, on the disk the purge left. */
  ghost predicate Walk(row: Reader, p: PurgeRun, picks: seq<nat>, disks: seq<Disk>, mids: seq<Table>, newIds: seq<int>)
    requires p.Valid() && Selection(p, picks)
  {
    && |disks| == |mids| == |picks| + 1 && |newIds| == |picks|
    && disks[0] == AllMoved(p) && mids[0] == p.Left()
    && forall j :: 0 <= j < |picks| ==>
         Restores(row, disks[j], mids[j], p.holders[picks[j]], newIds[j], disks[j + 1], mids[j + 1])
  }

  /** No pick is a later twin, and every metadata-only pick comes after the payload of its path, unless
      the payload never left. */
  predicate Feasible(p: PurgeRun, picks: seq<nat>)
    requires Selection(p, picks)
  {
    forall j :: 0 <= j < |picks| ==> CanFollow(p, SetOf(picks[..j]), picks[j])
  }

  lemma PrefixGrows(picks: seq<nat>, j: nat)
    requires j < |picks| && forall i, k :: 0 <= i < k < |picks| ==> picks[i] != picks[k]
    ensures SetOf(picks[..j + 1]) == SetOf(picks[..j]) + {picks[j]} && picks[j] !in SetOf(picks[..j])
  {
    assert picks[..j + 1] == picks[..j] + [picks[j]];
  }

  lemma {:induction false} WalkAt(row: Reader, p: PurgeRun, picks: seq<nat>, disks: seq<Disk>, mids: seq<Table>,
                                  newIds: seq<int>, j: nat)
    requires Ready(row, p) && Selection(p, picks) && Walk(row, p, picks, disks, mids, newIds) && j <= |picks|
    ensures At(p, SetOf(picks[..j]), disks[j], mids[j])
  {
    if j == 0 {
      AtStart(row, p);
      assert SetOf(picks[..0]) == {};
    } else {
      WalkAt(row, p, picks, disks, mids, newIds, j - 1);
      WalkAdds(row, p, picks, disks, mids, newIds, j - 1);
    }
  }

  lemma WalkAdds(row: Reader, p: PurgeRun, picks: seq<nat>, disks: seq<Disk>, mids: seq<Table>, newIds: seq<int>,
                 j: nat)
    requires Ready(row, p) && Selection(p, picks) && Walk(row, p, picks, disks, mids, newIds) && j < |picks|
    requires At(p, SetOf(picks[..j]), disks[j], mids[j])
    ensures At(p, SetOf(picks[..j + 1]), disks[j + 1], mids[j + 1])
  {
    PrefixGrows(picks, j);
    assert Restores(row, disks[j], mids[j], p.holders[picks[j]], newIds[j], disks[j + 1], mids[j + 1]);
    RestoreAdds(row, p, SetOf(picks[..j]), disks[j], mids[j], picks[j], newIds[j], disks[j + 1], mids[j + 1]);
  }

  lemma WalkIsFeasible(row: Reader, p: PurgeRun, picks: seq<nat>, disks: seq<Disk>, mids: seq<Table>, newIds: seq<int>)
    requires Ready(row, p) && Selection(p, picks) && Walk(row, p, picks, disks, mids, newIds)
    ensures Feasible(p, picks)
  {
    forall j | 0 <= j < |picks| ensures CanFollow(p, SetOf(picks[..j]), picks[j]) {
      WalkAt(row, p, picks, disks, mids, newIds, j);
      PrefixGrows(picks, j);
      assert Restores(row, disks[j], mids[j], p.holders[picks[j]], newIds[j], disks[j + 1], mids[j + 1]);
      RestoreExactly(row, p, SetOf(picks[..j]), disks[j], mids[j], picks[j]);
    }
  }

  lemma FreshId(ids: set<int>) returns (id: int)
    ensures forall k :: k in ids ==> k < id
  {
    if k :| k in ids {
      var m := FreshId(ids - {k});
      id := if m > k then m else k + 1;
      assert forall j :: j in ids ==> j == k || j in ids - {k};
    } else {
      id := 0;
    }
  }

  lemma NextRestore(row: Reader, p: PurgeRun, back: set<nat>, d: Disk, mid: Table, k: nat)
    returns (newId: int, d': Disk, mid': Table)
    requires Ready(row, p) && At(p, back, d, mid) && k < p.Size() && k !in back && CanFollow(p, back, k)
    ensures Restores(row, d, mid, p.holders[k], newId, d', mid')
  {
    RestoreExactly(row, p, back, d, mid, k);
    EntryAt(row, p, back, d, k);
    KeyIsFree(p, back, mid, k);
    newId := FreshId(mid.Keys);
    d', mid' := Emptied(d, p.holders[k]), mid[newId := p.order[k].rec];
    FreshUpsert(mid, p.order[k].rec, newId);
  }

  lemma InitFeasible(p: PurgeRun, picks: seq<nat>)
    requires Selection(p, picks) && picks != [] && Feasible(p, picks)
    ensures Selection(p, picks[..|picks| - 1]) && Feasible(p, picks[..|picks| - 1])
  {
    var init := picks[..|picks| - 1];
    forall j | 0 <= j < |init| ensures CanFollow(p, SetOf(init[..j]), init[j]) {
      assert init[..j] == picks[..j] && CanFollow(p, SetOf(picks[..j]), picks[j]);
    }
  }

  lemma {:induction false} FeasibleWalks(row: Reader, p: PurgeRun, picks: seq<nat>)
    returns (disks: seq<Disk>, mids: seq<Table>, newIds: seq<int>)
    requires Ready(row, p) && Selection(p, picks) && Feasible(p, picks)
    ensures Walk(row, p, picks, disks, mids, newIds)
    decreases |picks|
  {
    if picks == [] {
      disks, mids, newIds := [AllMoved(p)], [p.Left()], [];
    } else {
      var n := |picks| - 1;
      var init := picks[..n];
      InitFeasible(p, picks);
      var ds, ms, ids := FeasibleWalks(row, p, init);
      WalkAt(row, p, init, ds, ms, ids, n);
      assert init[..n] == init;
      PrefixGrows(picks, n);
      assert CanFollow(p, SetOf(picks[..n]), picks[n]);
      var newId, d, mid := NextRestore(row, p, SetOf(init), ds[n], ms[n], picks[n]);
      disks, mids, newIds := ds + [d], ms + [mid], ids + [newId];
      WalkExtends(row, p, picks, ds, ms, ids, d, mid, newId);
    }
  }

  lemma WalkExtends(row: Reader, p: PurgeRun, picks: seq<nat>, ds: seq<Disk>, ms: seq<Table>, ids: seq<int>, d: Disk,
                    mid: Table, newId: int)
    requires p.Valid() && Selection(p, picks) && picks != [] && Selection(p, picks[..|picks| - 1])
    requires Walk(row, p, picks[..|picks| - 1], ds, ms, ids)
    requires var n := |picks| - 1; Restores(row, ds[n], ms[n], p.holders[picks[n]], newId, d, mid)
    ensures Walk(row, p, picks, ds + [d], ms + [mid], ids + [newId])
  {
    var n := |picks| - 1;
    var disks, mids, newIds := ds + [d], ms + [mid], ids + [newId];
    forall j | 0 <= j < |picks|
      ensures Restores(row, disks[j], mids[j], p.holders[picks[j]], newIds[j], disks[j + 1], mids[j + 1])
    {
      if j < n {
        assert Restores(row, ds[j], ms[j], p.holders[picks[..n][j]], ids[j], ds[j + 1], ms[j + 1]);
      }
    }
  }

  /** The sequence of restores goes through. */
  ghost predicate Undoable(row: Reader, p: PurgeRun, picks: seq<nat>) {
    p.Valid() && Selection(p, picks) && exists disks, mids, newIds :: Walk(row, p, picks, disks, mids, newIds)
  }

  /** A sequence of restores goes through if and only if no pick has an earlier twin and every
      metadata-only pick of a path whose file was moved comes after the entry with the payload. */
  lemma UndoExactly(row: Reader, p: PurgeRun, picks: seq<nat>)
    requires Ready(row, p) && Selection(p, picks)
    ensures Undoable(row, p, picks) <==> Feasible(p, picks)
  {
    if disks, mids, newIds :| Walk(row, p, picks, disks, mids, newIds) {
      WalkIsFeasible(row, p, picks, disks, mids, newIds);
    }
    if Feasible(p, picks) {
      var disks, mids, newIds := FeasibleWalks(row, p, picks);
    }
  }

  /** A later twin never comes back, whatever is restored before it. */
  lemma TwinStaysAway(row: Reader, p: PurgeRun, picks: seq<nat>, k: nat)
    requires Ready(row, p) && Selection(p, picks) && k in picks && k < p.Size() && EarlierTwin(p, k)
    ensures !Undoable(row, p, picks)
  {
    UndoExactly(row, p, picks);
    var j :| 0 <= j < |picks| && picks[j] == k;
    assert !CanFollow(p, SetOf(picks[..j]), picks[j]);
  }

  // ---- Undoing the whole purge ----

  predicate Complete(p: PurgeRun, picks: seq<nat>) {
    Selection(p, picks) && forall k: nat :: k < p.Size() ==> k in picks
  }

  /** Purge, apply, restore everything in any order that goes through: the rows and the whole disk are
      the original ones. */
  lemma UndoRestoresEverything(row: Reader, p: PurgeRun, picks: seq<nat>, disks: seq<Disk>, mids: seq<Table>,
                               newIds: seq<int>)
    requires Ready(row, p) && Complete(p, picks) && Walk(row, p, picks, disks, mids, newIds)
    ensures disks[0] == AfterMoves(p.disk, p.moves, p.holders, NoFaults(p.Size()))
    ensures disks[|picks|] == p.disk && RowSet(mids[|picks|]) == RowSet(p.rows)
  {
    AllMovedIsApplied(p);
    WalkAt(row, p, picks, disks, mids, newIds, |picks|);
    assert picks[..|picks|] == picks;
    AtEnd(row, p, SetOf(picks), disks[|picks|], mids[|picks|]);
  }

  /** Last purged, first restored. */
  function Backwards(n: nat): seq<nat> {
    seq(n, j requires 0 <= j < n => n - 1 - j)
  }

  lemma BackwardsIsComplete(p: PurgeRun)
    ensures Complete(p, Backwards(p.Size()))
  {
    var picks := Backwards(p.Size());
    forall k: nat | k < p.Size() ensures k in picks { assert picks[p.Size() - 1 - k] == k; }
  }

  /** The payload of an APT path goes to the trash last. */
  lemma PayloadIsLast(row: Reader, p: PurgeRun, k: nat, i: nat)
    requires Ready(row, p) && k < p.Size() && i < p.Size() && p.moves[k].retained && HoldsPayload(p, i)
    requires p.moves[i].path == p.moves[k].path
    ensures k < i
  {
    assert MoveFits(row, p, i) && MoveFits(row, p, k);
  }

  lemma BackwardsIsFeasible(row: Reader, p: PurgeRun)
    requires Ready(row, p) && Separate(p)
    ensures Complete(p, Backwards(p.Size())) && Feasible(p, Backwards(p.Size()))
  {
    BackwardsIsComplete(p);
    var picks := Backwards(p.Size());
    forall j | 0 <= j < |picks| ensures CanFollow(p, SetOf(picks[..j]), picks[j]) {
      BackwardsCanFollow(row, p, j);
    }
  }

  lemma BackwardsCanFollow(row: Reader, p: PurgeRun, j: nat)
    requires Ready(row, p) && Separate(p) && j < p.Size()
    ensures CanFollow(p, SetOf(Backwards(p.Size())[..j]), p.Size() - 1 - j)
  {
    var done, k := Backwards(p.Size())[..j], p.Size() - 1 - j;
    if p.moves[k].retained {
      forall i: nat | i < p.Size() && p.moves[i].path == p.moves[k].path && HoldsPayload(p, i)
        ensures i in SetOf(done)
      {
        PayloadIsLast(row, p, k, i);
        assert done[p.Size() - 1 - i] == i;
      }
    }
  }

  lemma CompleteIsSeparate(p: PurgeRun, picks: seq<nat>)
    requires Complete(p, picks) && Feasible(p, picks)
    ensures Separate(p)
  {
    forall k: nat | k < p.Size() ensures !EarlierTwin(p, k) {
      assert k in picks;
      var j :| 0 <= j < |picks| && picks[j] == k;
      assert CanFollow(p, SetOf(picks[..j]), picks[j]);
    }
  }

  /** A purge can be undone completely if and only if no two of its rows outside APT share a file; last
      purged first restored is then an order that works. */
  lemma CompleteUndoExactly(row: Reader, p: PurgeRun)
    requires Ready(row, p)
    ensures (exists picks :: Complete(p, picks) && Undoable(row, p, picks)) <==> Separate(p)
    ensures Separate(p) ==> Undoable(row, p, Backwards(p.Size()))
  {
    if picks :| Complete(p, picks) && Undoable(row, p, picks) {
      UndoExactly(row, p, picks);
      CompleteIsSeparate(p, picks);
    }
    if Separate(p) {
      BackwardsIsFeasible(row, p);
      UndoExactly(row, p, Backwards(p.Size()));
    }
  }
}
