/** The disk side of a drift purge: live files, trash holders with their sidecars, the deferred moves
    that run after commit, and the handler that undoes one purge.

    The bytes of a file are stood for by their digest. */
module DriftStore {
  import opened Options
  import opened Records
  import opened DriftEngine

  /** A trash holder. payload is the file moved in; empty marks a metadata-only entry. */
  datatype Entry = Entry(kind: Kind, path: Path, empty: bool, payload: Option<string>, snapshot: Snapshot)

  datatype Disk = Disk(files: map<Path, string>, trash: map<nat, Entry>)

  /** How one MoveWithSnapshot goes. A failed rename removes the sidecar again, best effort; a crash
      between sidecar and rename leaves it as well. */
  datatype MoveFault = MoveOk | HolderFails | RenameFails(sidecarLeft: bool)

  datatype MoveResult = Moved | NotExist | MoveError

  // ---- Trash.MoveWithSnapshot and SnapshotRetained ----

  function EntryFor(d: Disk, m: PendingMove): Entry {
    Entry(m.kind, m.path, m.path !in d.files || m.retained, None, m.snapshot)
  }

  function AfterMove(d: Disk, m: PendingMove, holder: nat, fault: MoveFault): Disk {
    var e := EntryFor(d, m);
    if fault.HolderFails? then d
    else if e.empty then d.(trash := d.trash[holder := e])
    else if fault.RenameFails? then (if fault.sidecarLeft then d.(trash := d.trash[holder := e]) else d)
    else Disk(d.files - {m.path}, d.trash[holder := e.(payload := Some(d.files[m.path]))])
  }

  function MoveOutcome(d: Disk, m: PendingMove, fault: MoveFault): MoveResult {
    if fault.HolderFails? then MoveError
    else if m.path !in d.files then NotExist
    else if fault.RenameFails? && !m.retained then MoveError
    else Moved
  }

  /** A failed move leaves the files alone and at most a sidecar without payload behind. */
  lemma FailedMoveTakesNothing(d: Disk, m: PendingMove, holder: nat, fault: MoveFault)
    requires holder !in d.trash && MoveOutcome(d, m, fault).MoveError?
    ensures AfterMove(d, m, holder, fault).files == d.files
    ensures var trash := AfterMove(d, m, holder, fault).trash;
            trash == d.trash || (holder in trash && trash[holder].payload == None && trash - {holder} == d.trash)
  {
    var e := EntryFor(d, m);
    assert d.trash[holder := e] - {holder} == d.trash;
  }

  /** A move that does not fail leaves one new entry with the row's snapshot. It reports a missing source
      exactly when there is no file; it takes the file, if there is one, exactly when the file is not
      retained; and the bytes it takes are the entry's payload. */
  lemma MoveDoesWhatItReports(d: Disk, m: PendingMove, holder: nat, fault: MoveFault)
    requires holder !in d.trash && !MoveOutcome(d, m, fault).MoveError?
    ensures MoveOutcome(d, m, fault).NotExist? <==> m.path !in d.files
    ensures var d' := AfterMove(d, m, holder, fault);
            && d'.trash.Keys == d.trash.Keys + {holder}
            && d'.trash[holder].path == m.path && d'.trash[holder].snapshot == m.snapshot
            && (d'.trash[holder].empty <==> d'.trash[holder].payload.None?)
            && if m.path in d.files && !m.retained
               then d'.files == d.files - {m.path} && d'.trash[holder].payload == Some(d.files[m.path])
               else d'.files == d.files && d'.trash[holder].payload == None
  {
  }

  /** A move fails exactly when the holder cannot be made, or there is a file to take and its rename
      fails. */
  lemma MoveFailsExactly(d: Disk, m: PendingMove, fault: MoveFault)
    ensures MoveOutcome(d, m, fault).MoveError? <==>
            fault.HolderFails? || (fault.RenameFails? && m.path in d.files && !m.retained)
  {
  }

  /** The moves of one list, in order, each into its own holder. */
  function AfterMoves(d: Disk, moves: seq<PendingMove>, holders: seq<nat>, faults: seq<MoveFault>): Disk
    requires |moves| == |holders| == |faults|
  {
    if moves == [] then d
    else
      var n := |moves| - 1;
      AfterMove(AfterMoves(d, moves[..n], holders[..n], faults[..n]), moves[n], holders[n], faults[n])
  }

  /** How many of the moves failed for a reason other than a missing source. */
  function Failures(d: Disk, moves: seq<PendingMove>, holders: seq<nat>, faults: seq<MoveFault>): nat
    requires |moves| == |holders| == |faults|
  {
    if moves == [] then 0
    else
      var n := |moves| - 1;
      Failures(d, moves[..n], holders[..n], faults[..n]) +
      (if MoveOutcome(AfterMoves(d, moves[..n], holders[..n], faults[..n]), moves[n], faults[n]).MoveError?
       then 1 else 0)
  }

  /** Move i fails where it comes in the list: no holder, or a file to take that cannot be renamed. */
  predicate FailsInPlace(d: Disk, moves: seq<PendingMove>, holders: seq<nat>, faults: seq<MoveFault>, i: nat)
    requires i < |moves| == |holders| == |faults|
  {
    || faults[i].HolderFails?
    || (faults[i].RenameFails? && !moves[i].retained &&
        moves[i].path in AfterMoves(d, moves[..i], holders[..i], faults[..i]).files)
  }

  function FailedMoves(d: Disk, moves: seq<PendingMove>, holders: seq<nat>, faults: seq<MoveFault>): set<nat>
    requires |moves| == |holders| == |faults|
  {
    set i: nat | i < |moves| && FailsInPlace(d, moves, holders, faults, i)
  }

  lemma OneMoveMore(d: Disk, moves: seq<PendingMove>, holders: seq<nat>, faults: seq<MoveFault>)
    requires |moves| == |holders| == |faults| > 0
    ensures var n := |moves| - 1;
            FailedMoves(d, moves, holders, faults) == FailedMoves(d, moves[..n], holders[..n], faults[..n]) +
                                                      if FailsInPlace(d, moves, holders, faults, n) then {n} else {}
  {
    var n := |moves| - 1;
    forall i: nat | i < n
      ensures FailsInPlace(d, moves[..n], holders[..n], faults[..n], i) <==> FailsInPlace(d, moves, holders, faults, i)
    {
      assert moves[..n][..i] == moves[..i] && holders[..n][..i] == holders[..i] && faults[..n][..i] == faults[..i];
    }
  }

  /** The count of failures is the number of moves that fail; a missing source is none. */
  lemma {:induction false} FailuresExactly(d: Disk, moves: seq<PendingMove>, holders: seq<nat>, faults: seq<MoveFault>)
    requires |moves| == |holders| == |faults|
    ensures Failures(d, moves, holders, faults) == |FailedMoves(d, moves, holders, faults)|
  {
    if moves == [] {
      assert FailedMoves(d, moves, holders, faults) == {};
    } else {
      var n := |moves| - 1;
      FailuresExactly(d, moves[..n], holders[..n], faults[..n]);
      MoveFailsExactly(AfterMoves(d, moves[..n], holders[..n], faults[..n]), moves[n], faults[n]);
      OneMoveMore(d, moves, holders, faults);
    }
  }

  // ---- Restore ----

  /** A metadata-only APT entry: its pool bytes belong to another membership. */
  predicate RetainedDEB(e: Entry) {
    e.empty && e.kind == DEB
  }

  /** The row a sidecar rebuilds to, as Insert stores it. */
  function RowOf(kind: Kind, s: Snapshot): Record {
    Stored(Rebuild(kind, ThroughJSON(s)))
  }

  /** The stat before the file half: the destination is free, or the shared pool file is there. */
  predicate CheckPasses(d: Disk, e: Entry) {
    RetainedDEB(e) <==> e.path in d.files
  }

  /** The rename of the payload to its original path. It replaces whatever is there. */
  function AfterRename(d: Disk, holder: nat): Disk
    requires holder in d.trash && d.trash[holder].payload.Some?
  {
    Disk(d.files[d.trash[holder].path := d.trash[holder].payload.value], d.trash - {holder})
  }

  /** How a sidecar is read back into a row. The program's reader is RowOf; the proofs about protocols
      and undo take any. */
  type Reader = (Kind, Snapshot) -> Record

  function RowFrom(row: Reader, e: Entry): Record { row(e.kind, e.snapshot) }

  /** The file half of a restore, nothing else running; None when it is refused or fails, with nothing
      changed. */
  function AfterFileBack(d: Disk, holder: nat, renameFails: bool): Option<Disk>
    requires holder in d.trash
  {
    var e := d.trash[holder];
    if !CheckPasses(d, e) then None
    else if RetainedDEB(e) then Some(d)
    else if e.payload.None? || renameFails then None
    else Some(AfterRename(d, holder))
  }

  /** The row half of restoring e as r is accepted: the columns are there and a retained entry still
      has a matching live publication. */
  predicate RowAccepted(rows: Table, e: Entry, r: Record) {
    && Insertable(r)
    && (RetainedDEB(e) ==> r.DEBRecord? && exists id :: id in rows && SharesPool(rows[id], r.deb) &&
                                                          rows[id].Digest() == r.Digest())
  }

  /** INSERT ... ON CONFLICT DO UPDATE: the id of the row in conflict, else a new one. */
  ghost predicate IsUpsert(rows: Table, r: Record, newId: int, rows': Table) {
    exists id :: TakesId(rows, r, newId, id) && rows' == rows[id := r]
  }

  predicate TakesId(rows: Table, r: Record, newId: int, id: int) {
    if exists k :: k in rows && UniqueKeyOf(rows[k]) == UniqueKeyOf(r)
    then id in rows && UniqueKeyOf(rows[id]) == UniqueKeyOf(r)
    else id == newId
  }

  lemma FreshUpsert(rows: Table, r: Record, newId: int)
    requires forall k :: k in rows ==> UniqueKeyOf(rows[k]) != UniqueKeyOf(r)
    ensures IsUpsert(rows, r, newId, rows[newId := r])
  {
    assert TakesId(rows, r, newId, newId);
  }

  /** An upsert of r in columns: every row that differs from r in a column of the constraint stays as it
      was; r takes the new id exactly when all do, and otherwise the place of a row that agrees. */
  lemma UpsertInColumns(rows: Table, r: Record, newId: int, rows': Table)
    requires newId !in rows && IsUpsert(rows, r, newId, rows')
    ensures forall k :: k in rows && !SameKeyColumns(rows[k], r) ==> k in rows' && rows'[k] == rows[k]
    ensures newId in rows' <==> forall k :: k in rows ==> !SameKeyColumns(rows[k], r)
    ensures newId in rows' ==> rows' == rows[newId := r]
    ensures newId !in rows' ==> exists k :: k in rows && SameKeyColumns(rows[k], r) && rows' == rows[k := r]
  {
    forall k | k in rows ensures UniqueKeyOf(rows[k]) == UniqueKeyOf(r) <==> SameKeyColumns(rows[k], r) {
      KeyColumnsExactly(rows[k], r);
    }
    var id :| TakesId(rows, r, newId, id) && rows' == rows[id := r];
    if newId in rows' { assert id == newId; } else { assert id in rows && SameKeyColumns(rows[id], r); }
  }

  /** The defaults an Insert fills in are in no constraint. */
  lemma StoredKeepsKeyColumns(r: Record)
    ensures forall s :: SameKeyColumns(s, Stored(r)) <==> SameKeyColumns(s, r)
  {
  }

  /** For instance the same package in a second suite: both memberships are there. */
  lemma SecondSuiteIsAnotherRow(rows: Table, k: int, p: DEBPackage, suite: int, newId: int, rows': Table)
    requires k in rows && rows[k] == DEBRecord(p) && suite != p.suiteId && newId !in rows
    requires IsUpsert(rows, DEBRecord(p.(suiteId := suite)), newId, rows')
    ensures k in rows' && rows'[k] == DEBRecord(p)
  {
    UpsertInColumns(rows, DEBRecord(p.(suiteId := suite)), newId, rows');
  }

  class Database {
    var rows: Table

    constructor (rows: Table)
      ensures this.rows == rows
    {
      this.rows := rows;
    }

    /** Insert of the four repositories: refuses empty required columns, then upserts. */
    method Insert(r: Record, newId: int) returns (ok: bool)
      requires newId !in rows
      modifies this
      ensures ok <==> Insertable(r)
      ensures ok ==> IsUpsert(old(rows), Stored(r), newId, rows)
      ensures !ok ==> rows == old(rows)
      // Rows that differ from r in a column of the constraint stay; r is a new row exactly when all do.
      ensures forall k :: k in old(rows) && !SameKeyColumns(old(rows)[k], r) ==> k in rows && rows[k] == old(rows)[k]
      ensures ok ==> (newId in rows <==> forall k :: k in old(rows) ==> !SameKeyColumns(old(rows)[k], r))
    {
      if !Insertable(r) { return false; }
      var stored := Stored(r);
      ghost var before := rows;
      if id :| id in rows && UniqueKeyOf(rows[id]) == UniqueKeyOf(stored) {
        rows := rows[id := stored];
        assert TakesId(before, stored, newId, id);
      } else {
        rows := rows[newId := stored];
        assert TakesId(before, stored, newId, newId);
      }
      StoredKeepsKeyColumns(r);
      UpsertInColumns(before, stored, newId, rows);
      ok := true;
    }
  }

  datatype Status = OK | Conflict | Internal

  /** The storage root: live files and the trash. */
  class Volume {
    var files: map<Path, string>
    var trash: map<nat, Entry>

    constructor (d: Disk)
      ensures State() == d
    {
      files, trash := d.files, d.trash;
    }

    function State(): Disk
      reads this
    {
      Disk(files, trash)
    }

    /** Sidecar first, rename second. */
    method MoveWithSnapshot(m: PendingMove, holder: nat, fault: MoveFault) returns (r: MoveResult)
      requires holder !in trash
      modifies this
      ensures State() == AfterMove(old(State()), m, holder, fault)
      ensures r == MoveOutcome(old(State()), m, fault)
    {
      if fault.HolderFails? { return MoveError; }
      var missing := m.path !in files;
      trash := trash[holder := Entry(m.kind, m.path, missing || m.retained, None, m.snapshot)];
      if !missing && !m.retained {
        if fault.RenameFails? {
          if !fault.sidecarLeft { trash := trash - {holder}; }
          return MoveError;
        }
        trash := trash[holder := trash[holder].(payload := Some(files[m.path]))];
        files := files - {m.path};
      }
      r := if missing then NotExist else Moved;
    }

    /** Best effort, every move attempted, a missing source tolerated. */
    method ApplyPendingMoves(moves: seq<PendingMove>, holders: seq<nat>, faults: seq<MoveFault>)
      returns (failures: nat, first: Option<PendingMove>)
      requires |moves| == |holders| == |faults|
      requires forall i, j :: 0 <= i < j < |holders| ==> holders[i] != holders[j]
      requires forall h :: h in holders ==> h !in trash
      modifies this
      ensures State() == AfterMoves(old(State()), moves, holders, faults)
      ensures failures == Failures(old(State()), moves, holders, faults)
      ensures first.Some? <==> failures > 0
    {
      ghost var before := State();
      failures, first := 0, None;
      for i := 0 to |moves|
        invariant State() == AfterMoves(before, moves[..i], holders[..i], faults[..i])
        invariant failures == Failures(before, moves[..i], holders[..i], faults[..i])
        invariant first.Some? <==> failures > 0
        invariant forall j :: i <= j < |holders| ==> holders[j] !in trash
      {
        Prefix(moves, i);
        Prefix(holders, i);
        Prefix(faults, i);
        var r := MoveWithSnapshot(moves[i], holders[i], faults[i]);
        if r.MoveError? {
          failures := failures + 1;
          if first.None? { first := Some(moves[i]); }
        }
      }
      assert moves[..|moves|] == moves && holders[..|moves|] == holders && faults[..|moves|] == faults;
    }

    /** The restore handler: file first, row second. repoLive is the repository lookup; renameFails and
        txFails are the outcomes of the two I/O halves. */
    method RestoreDrift(db: Database, holder: nat, newId: int, repoLive: bool, renameFails: bool, txFails: bool)
      returns (status: Status)
      requires holder in trash && newId !in db.rows
      modifies this, db
      ensures var e := old(trash[holder]); var d := AfterFileBack(old(State()), holder, renameFails);
              status == OK <==>
              repoLive && d.Some? && RowAccepted(old(db.rows), e, RowOf(e.kind, e.snapshot)) && !txFails
      // A refused file half changes nothing.
      ensures !repoLive || AfterFileBack(old(State()), holder, renameFails).None? ==>
                db.rows == old(db.rows) && State() == old(State())
      // A failed row half leaves the file half in place: an orphan file at worst.
      ensures repoLive && AfterFileBack(old(State()), holder, renameFails).Some? && status != OK ==>
                db.rows == old(db.rows) && State() == AfterFileBack(old(State()), holder, renameFails).value
      // Success: file and row are back and the holder is gone.
      ensures var e := old(trash[holder]);
              status == OK ==>
                IsUpsert(old(db.rows), RowOf(e.kind, e.snapshot), newId, db.rows) &&
                State() == AfterFileBack(old(State()), holder, renameFails).value.(trash := old(trash) - {holder})
    {
      var e := trash[holder];
      if !repoLive { return Conflict; }
      var retained := e.empty && e.kind == DEB;
      if e.path in files && !retained { return Conflict; }
      if retained {
        if e.path !in files { return Conflict; }
      } else {
        if renameFails || e.payload.None? { return Internal; }
        files := files[e.path := e.payload.value];
        trash := trash - {holder};
      }
      var r := Rebuild(e.kind, ThroughJSON(e.snapshot));
      StoredKeepsColumns(r);
      if retained {
        if id :| id in db.rows && SharesPool(db.rows[id], r.deb) && db.rows[id].Digest() == r.Digest() {
        } else {
          return Internal;
        }
      }
      if txFails { return Internal; }
      var ok := db.Insert(r, newId);
      if !ok { return Internal; }
      if retained { trash := trash - {holder}; }
      status := OK;
    }
  }

  lemma Prefix<T>(s: seq<T>, i: nat)
    requires i < |s|
    ensures s[..i + 1][..i] == s[..i] && s[..i + 1][i] == s[i]
  {
  }

  lemma StoredKeepsColumns(r: Record)
    ensures Insertable(Stored(r)) == Insertable(r) && Stored(r).Kind() == r.Kind()
    ensures Stored(r).Digest() == r.Digest()
    ensures r.DEBRecord? ==> Stored(r) == r
  {
  }
}
