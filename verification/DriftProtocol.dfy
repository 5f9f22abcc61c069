/** The drift purge and its undo as a protocol over database, files and trash: every interleaving of
    publications, purge transactions, deferred moves and restores, with a failure or a crash possible
    anywhere. */
module DriftProtocol {
  import opened Options
  import opened Records
  import opened DriftEngine
  import opened DriftTheorems
  import opened DriftStore

  /** The open write transaction: its view of the rows and the moves collected so far, by ticket. */
  datatype OpenTx = OpenTx(rows: Table, moves: map<nat, PendingMove>)

  /** A restore under way: it has passed its check, and filed says that its file half is done too. */
  datatype Job = Job(holder: nat, entry: Entry, filed: bool)

  datatype World = World(rows: Table, disk: Disk, tx: Option<OpenTx>, pending: map<nat, PendingMove>,
                         restoring: map<nat, Job>)

  datatype Step =
    | Publish(r: Record, newId: int)
    | Begin
    | PurgeOne(id: int, ticket: nat)
    | Commit
    | Rollback
    | Apply(ticket: nat, holder: nat, fault: MoveFault)
    | Check(holder: nat, job: nat)
    | Rename(job: nat)
    | RowBack(job: nat, newId: int)
    | RowFails(job: nat)
    | Discard(holder: nat)
    | Crash

  function AfterPurge(tx: OpenTx, id: int, ticket: nat): OpenTx
    requires id in tx.rows
  {
    var left := tx.rows - {id};
    OpenTx(left, tx.moves[ticket := MoveFor(left, LocalRow(id, tx.rows[id], Key("", "", "")))])
  }

  /** The one writer connection makes Publish, Begin and RowBack wait for an open transaction. A refused
      upload or restore changes nothing and is no step. Repository ids are small. */
  ghost predicate Next(row: Reader, w: World, s: Step, w': World) {
    match s
    case Publish(r, newId) =>
      && w.tx.None? && newId !in w.rows && Small(r.RepoId()) && IsUpsert(w.rows, r, newId, w'.rows)
      && w' == w.(rows := w'.rows, disk := w.disk.(files := w.disk.files[PathOf(r) := r.Digest()]))
    case Begin =>
      w.tx.None? && w' == w.(tx := Some(OpenTx(w.rows, map[])))
    case PurgeOne(id, ticket) =>
      && w.tx.Some? && id in w.tx.value.rows && ticket !in w.pending && ticket !in w.tx.value.moves
      && w' == w.(tx := Some(AfterPurge(w.tx.value, id, ticket)))
    case Commit =>
      w.tx.Some? && w' == w.(rows := w.tx.value.rows, pending := w.pending + w.tx.value.moves, tx := None)
    case Rollback =>
      w.tx.Some? && w' == w.(tx := None)
    case Apply(ticket, holder, fault) =>
      && ticket in w.pending && holder !in w.disk.trash
      && w' == w.(disk := AfterMove(w.disk, w.pending[ticket], holder, fault), pending := w.pending - {ticket})
    case Check(holder, job) =>
      && holder in w.disk.trash && job !in w.restoring && CheckPasses(w.disk, w.disk.trash[holder])
      && w' == w.(restoring := w.restoring[job := Checked(holder, w.disk.trash[holder])])
    case Rename(job) =>
      && CanRename(w, job)
      && w' == w.(disk := AfterRename(w.disk, w.restoring[job].holder),
                  restoring := w.restoring[job := w.restoring[job].(filed := true)])
    case RowBack(job, newId) =>
      && w.tx.None? && job in w.restoring && w.restoring[job].filed && newId !in w.rows
      && RowAccepted(w.rows, w.restoring[job].entry, RowFrom(row, w.restoring[job].entry))
      && IsUpsert(w.rows, RowFrom(row, w.restoring[job].entry), newId, w'.rows)
      && w' == w.(rows := w'.rows, restoring := w.restoring - {job})
    case RowFails(job) =>
      job in w.restoring && w' == w.(restoring := w.restoring - {job})
    case Discard(holder) =>
      w' == w.(disk := w.disk.(trash := w.disk.trash - {holder}))
    case Crash =>
      w' == w.(tx := None, pending := map[], restoring := map[])
  }

  /** A metadata-only APT entry has no file half beyond its check. */
  function Checked(holder: nat, e: Entry): Job { Job(holder, e, RetainedDEB(e)) }

  /** The holder is still there. Nothing looks at the destination again. */
  predicate CanRename(w: World, job: nat) {
    && job in w.restoring && !w.restoring[job].filed && w.restoring[job].entry.payload.Some?
    && w.restoring[job].holder in w.disk.trash
    && w.disk.trash[w.restoring[job].holder] == w.restoring[job].entry
  }

  /** With nothing in between, check and rename are the file half of the handler. */
  lemma CheckThenRename(d: Disk, holder: nat)
    requires holder in d.trash
    ensures AfterFileBack(d, holder, false) ==
            if !CheckPasses(d, d.trash[holder]) then None
            else if Checked(holder, d.trash[holder]).filed then Some(d)
            else if d.trash[holder].payload.None? then None
            else Some(AfterRename(d, holder))
  {
  }

  /** What the proofs need of a reader: it keeps the table, the file and the repository of the row that
      was purged. */
  ghost predicate Reads(row: Reader) {
    && (forall k, s :: row(k, s).Kind() == k)
    && (forall r: Record :: Small(r.RepoId()) ==> SameFile(row(r.Kind(), SnapshotOf(r)), r))
  }

  predicate SameFile(r: Record, r': Record) {
    PathOf(r) == PathOf(r') && r.Digest() == r'.Digest() && r.RepoId() == r'.RepoId()
  }

  lemma ProgramReads()
    ensures Reads(RowOf)
  {
    forall k, s ensures RowOf(k, s).Kind() == k {
      StoredKeepsColumns(Rebuild(k, ThroughJSON(s)));
    }
    forall r: Record | Small(r.RepoId()) ensures SameFile(RowOf(r.Kind(), SnapshotOf(r)), r) {
      RestoredKeepsFile(r);
    }
  }

  // ---- Safety ----

  /** No live row points at a missing file, nor at a file with other bytes. */
  predicate Intact(rows: Table, files: map<Path, string>) {
    forall id :: id in rows ==> PathOf(rows[id]) in files && files[PathOf(rows[id])] == rows[id].Digest()
  }

  /** In the columns of the tables: each row's file lies where its own columns say, with the bytes its
      digest column names. */
  lemma IntactInColumns(rows: Table, files: map<Path, string>)
    ensures Intact(rows, files) <==> forall id :: id in rows ==>
              match rows[id]
              case PyPIRecord(f) => HeldAt(files, Path(PyPI, f.repoId, "packages/" + f.filename), f.digest)
              case RPMRecord(p) => HeldAt(files, Path(RPM, p.repoId, "packages/" + p.filename), p.digest)
              case DEBRecord(p) =>
                HeldAt(files, Path(DEB, p.repoId, if p.storagePoolPath == "" then p.filename else p.storagePoolPath),
                       p.digest)
              case HelmRecord(c) => HeldAt(files, Path(Helm, c.repoId, "charts/" + c.filename), c.digest)
  {
  }

  /** Only APT rows share files. */
  predicate Exclusive(rows: Table) {
    forall i, j :: i in rows && j in rows && i != j && !rows[i].DEBRecord? ==> PathOf(rows[i]) != PathOf(rows[j])
  }

  predicate TableOK(rows: Table, files: map<Path, string>) {
    && Intact(rows, files) && Exclusive(rows) && UniqueRows(rows)
    && forall id :: id in rows ==> Small(rows[id].RepoId())
  }

  predicate RowsOK(w: World) {
    TableOK(w.rows, w.disk.files)
  }

  /** The bytes of p are there and are the ones r was published with. */
  predicate Holds(files: map<Path, string>, p: Path, r: Record) {
    p in files && files[p] == r.Digest()
  }

  predicate MoveOK(row: Reader, files: map<Path, string>, m: PendingMove) {
    && PathOf(row(m.kind, m.snapshot)) == m.path && Small(row(m.kind, m.snapshot).RepoId())
    && (!m.retained ==> Holds(files, m.path, row(m.kind, m.snapshot)))
  }

  /** At most one physical move per file. */
  predicate OneMovePerFile(moves: map<nat, PendingMove>) {
    forall t, u :: t in moves && u in moves && t != u && !moves[t].retained && !moves[u].retained ==>
      moves[t].path != moves[u].path
  }

  predicate TxOK(row: Reader, w: World) {
    w.tx.Some? ==>
      var tx := w.tx.value;
      && (forall id :: id in tx.rows ==> id in w.rows && w.rows[id] == tx.rows[id])
      && (forall t :: t in tx.moves ==> t !in w.pending && MoveOK(row, w.disk.files, tx.moves[t]))
      && (forall t :: t in tx.moves && !tx.moves[t].retained ==>
                      !Uses(tx.rows, tx.moves[t].path) && Uses(w.rows, tx.moves[t].path))
      && OneMovePerFile(tx.moves)
  }

  predicate PendingOK(row: Reader, w: World) {
    && (forall t :: t in w.pending ==> MoveOK(row, w.disk.files, w.pending[t]))
    && (forall t :: t in w.pending && !w.pending[t].retained ==> !Uses(w.rows, w.pending[t].path))
    && OneMovePerFile(w.pending)
  }

  predicate EntryOK(row: Reader, e: Entry) {
    && PathOf(RowFrom(row, e)) == e.path && Small(RowFrom(row, e).RepoId())
    && (e.payload.Some? ==> e.payload.value == RowFrom(row, e).Digest())
  }

  /** The restore brings bytes back, as against a metadata-only APT entry. */
  predicate Brings(j: Job) { !RetainedDEB(j.entry) }

  predicate OneRestorePerFile(jobs: map<nat, Job>) {
    forall i, j :: i in jobs && j in jobs && i != j && Brings(jobs[i]) && Brings(jobs[j]) ==>
      jobs[i].entry.path != jobs[j].entry.path
  }

  /** Until its rename the destination of a restore is free; from then on to its row half the file is
      there, nobody's and not about to be moved. */
  predicate JobOK(row: Reader, w: World, j: Job) {
    && EntryOK(row, j.entry)
    && (!j.filed ==> Brings(j) && j.entry.path !in w.disk.files)
    && (Brings(j) && j.filed ==>
          && Holds(w.disk.files, j.entry.path, RowFrom(row, j.entry)) && !Uses(w.rows, j.entry.path)
          && forall t :: t in w.pending && !w.pending[t].retained ==> w.pending[t].path != j.entry.path)
  }

  predicate RestoringOK(row: Reader, w: World) {
    (forall j :: j in w.restoring ==> JobOK(row, w, w.restoring[j])) && OneRestorePerFile(w.restoring)
  }

  predicate TrashOK(row: Reader, w: World) {
    forall h :: h in w.disk.trash ==> EntryOK(row, w.disk.trash[h])
  }

  predicate Inv(row: Reader, w: World) {
    RowsOK(w) && TxOK(row, w) && PendingOK(row, w) && RestoringOK(row, w) && TrashOK(row, w)
  }

  /** Nothing in flight. The trash may hold anything that purges put there. */
  lemma RestIsInv(row: Reader, w: World)
    requires w.tx.None? && w.pending == map[] && w.restoring == map[] && RowsOK(w) && TrashOK(row, w)
    ensures Inv(row, w)
  {
  }

  // ---- What safety asks of concurrent requests ----

  /** A restore that brings bytes is between its check and its row half at p. */
  predicate RestoreUnderWay(w: World, p: Path) {
    exists j :: j in w.restoring && Brings(w.restoring[j]) && w.restoring[j].entry.path == p
  }

  predicate MovePending(w: World, p: Path) {
    exists t :: t in w.pending && !w.pending[t].retained && w.pending[t].path == p
  }

  /** Publishing r changes no other row's bytes and makes no two non-APT rows share a file. */
  predicate SharesSafely(rows: Table, r: Record) {
    forall k :: k in rows && PathOf(rows[k]) == PathOf(r) && UniqueKeyOf(rows[k]) != UniqueKeyOf(r) ==>
      rows[k].DEBRecord? && rows[k].Digest() == r.Digest()
  }

  /** No two restores that bring bytes to one path overlap between check and row half, and nothing is
      published under such a restore, under a committed purge that has still to move the file away, or
      under another row's file. Everything else may interleave as it likes. */
  predicate Orderly(w: World, s: Step) {
    match s
    case Check(holder, job) =>
      holder in w.disk.trash && !RetainedDEB(w.disk.trash[holder]) ==>
        !RestoreUnderWay(w, w.disk.trash[holder].path)
    case Publish(r, newId) =>
      !RestoreUnderWay(w, PathOf(r)) && !MovePending(w, PathOf(r)) && SharesSafely(w.rows, r)
    case _ => true
  }

  // ---- Every orderly step keeps the invariant ----

  /** The row an upsert replaces is the only one with its unique key. */
  lemma UpsertKeepsTable(rows: Table, files: map<Path, string>, r: Record, newId: int, rows': Table)
    requires TableOK(rows, files) && newId !in rows && IsUpsert(rows, r, newId, rows') && Small(r.RepoId())
    requires SharesSafely(rows, r)
    ensures TableOK(rows', files[PathOf(r) := r.Digest()])
    ensures forall p :: Uses(rows', p) ==> Uses(rows, p) || p == PathOf(r)
  {
    var id :| TakesId(rows, r, newId, id) && rows' == rows[id := r];
    forall k | k in rows && k != id ensures UniqueKeyOf(rows[k]) != UniqueKeyOf(r) {}
    UpsertUses(rows, id, r);
  }

  lemma PublishKeeps(row: Reader, w: World, r: Record, newId: int, w': World)
    requires Inv(row, w) && Next(row, w, Publish(r, newId), w') && Orderly(w, Publish(r, newId))
    ensures Inv(row, w')
  {
    UpsertKeepsTable(w.rows, w.disk.files, r, newId, w'.rows);
    PublishKeepsPending(row, w, r, w');
    PublishKeepsRestoring(row, w, r, w');
  }

  /** What a publication of r changes, seen from outside the table. */
  ghost predicate Published(w: World, r: Record, w': World) {
    && w' == w.(rows := w'.rows, disk := w.disk.(files := w.disk.files[PathOf(r) := r.Digest()]))
    && forall p :: Uses(w'.rows, p) ==> Uses(w.rows, p) || p == PathOf(r)
  }

  lemma PublishKeepsPending(row: Reader, w: World, r: Record, w': World)
    requires PendingOK(row, w) && !MovePending(w, PathOf(r)) && Published(w, r, w')
    ensures PendingOK(row, w')
  {
  }

  lemma PublishKeepsRestoring(row: Reader, w: World, r: Record, w': World)
    requires RestoringOK(row, w) && !RestoreUnderWay(w, PathOf(r)) && Published(w, r, w')
    ensures RestoringOK(row, w')
  {
    forall j | j in w.restoring ensures JobOK(row, w', w.restoring[j]) {
      assert JobOK(row, w, w.restoring[j]);
    }
  }

  lemma PurgeOneKeeps(row: Reader, w: World, id: int, ticket: nat, w': World)
    requires Reads(row) && Inv(row, w) && Next(row, w, PurgeOne(id, ticket), w')
    ensures Inv(row, w')
  {
    PurgeOneKeepsTx(row, w, id, ticket, w');
    SameJobs(row, w, w');
  }

  lemma PurgeOneKeepsTx(row: Reader, w: World, id: int, ticket: nat, w': World)
    requires Reads(row) && RowsOK(w) && TxOK(row, w) && w.tx.Some? && id in w.tx.value.rows
    requires ticket !in w.pending && ticket !in w.tx.value.moves
    requires w' == w.(tx := Some(AfterPurge(w.tx.value, id, ticket)))
    ensures TxOK(row, w')
  {
    var tx, tx' := w.tx.value, w'.tx.value;
    var r := tx.rows[id];
    var m := tx'.moves[ticket];
    assert r == w.rows[id];
    assert SameFile(row(r.Kind(), SnapshotOf(r)), r);
    assert MoveOK(row, w.disk.files, m);
    if r.DEBRecord? { PoolRefsMeaning(tx'.rows, r); }
    if !m.retained {
      assert !Uses(tx'.rows, m.path);
      assert Uses(w.rows, m.path);
    }
    assert Uses(tx.rows, m.path);
    forall t | t in tx.moves && !tx.moves[t].retained
      ensures !Uses(tx'.rows, tx.moves[t].path) && tx.moves[t].path != m.path {}
  }

  predicate SubTable(rows: Table, whole: Table) {
    forall id :: id in rows ==> id in whole && whole[id] == rows[id]
  }

  lemma SubTableUses(rows: Table, whole: Table)
    requires SubTable(rows, whole)
    ensures forall p :: Uses(rows, p) ==> Uses(whole, p)
  {
    forall p | Uses(rows, p) ensures Uses(whole, p) {
      var k :| k in rows && PathOf(rows[k]) == p;
      assert whole[k] == rows[k];
    }
  }

  lemma CommitKeeps(row: Reader, w: World, w': World)
    requires Inv(row, w) && Next(row, w, Commit, w')
    ensures Inv(row, w')
  {
    var tx := w.tx.value;
    SubTableUses(tx.rows, w.rows);
    SubTableOK(w.rows, tx.rows, w.disk.files);
    CommitKeepsPending(row, w, w');
    CommitKeepsRestoring(row, w, w');
  }

  lemma SubTableOK(rows: Table, rows': Table, files: map<Path, string>)
    requires SubTable(rows', rows) && TableOK(rows, files)
    ensures TableOK(rows', files)
  {
  }

  lemma CommitKeepsPending(row: Reader, w: World, w': World)
    requires w.tx.Some? && TxOK(row, w) && PendingOK(row, w)
    requires w' == w.(rows := w.tx.value.rows, pending := w.pending + w.tx.value.moves, tx := None)
    requires forall p :: Uses(w'.rows, p) ==> Uses(w.rows, p)
    ensures PendingOK(row, w')
  {
    var tx := w.tx.value;
    JoinedOK(row, w.disk.files, w.pending, tx.moves);
    JoinedUnused(w.pending, tx.moves, w.rows, tx.rows);
    OneMoveJoined(w.pending, tx.moves, w.rows);
  }

  lemma JoinedOK(row: Reader, files: map<Path, string>, pending: map<nat, PendingMove>, moves: map<nat, PendingMove>)
    requires forall t :: t in pending ==> MoveOK(row, files, pending[t])
    requires forall t :: t in moves ==> MoveOK(row, files, moves[t])
    ensures var all := pending + moves; forall t :: t in all ==> MoveOK(row, files, all[t])
  {
  }

  lemma JoinedUnused(pending: map<nat, PendingMove>, moves: map<nat, PendingMove>, rows: Table, rows': Table)
    requires forall p :: Uses(rows', p) ==> Uses(rows, p)
    requires forall t :: t in pending && !pending[t].retained ==> !Uses(rows, pending[t].path)
    requires forall t :: t in moves && !moves[t].retained ==> !Uses(rows', moves[t].path)
    ensures var all := pending + moves; forall t :: t in all && !all[t].retained ==> !Uses(rows', all[t].path)
  {
  }

  /** Committed moves are of unused files, the new ones of used files. */
  lemma OneMoveJoined(pending: map<nat, PendingMove>, moves: map<nat, PendingMove>, rows: Table)
    requires OneMovePerFile(pending) && OneMovePerFile(moves)
    requires forall t :: t in pending && !pending[t].retained ==> !Uses(rows, pending[t].path)
    requires forall t :: t in moves && !moves[t].retained ==> Uses(rows, moves[t].path)
    ensures OneMovePerFile(pending + moves)
  {
  }

  lemma CommitKeepsRestoring(row: Reader, w: World, w': World)
    requires w.tx.Some? && TxOK(row, w) && RestoringOK(row, w)
    requires w' == w.(rows := w.tx.value.rows, pending := w.pending + w.tx.value.moves, tx := None)
    requires forall p :: Uses(w'.rows, p) ==> Uses(w.rows, p)
    ensures RestoringOK(row, w')
  {
    forall j | j in w.restoring ensures JobOK(row, w', w.restoring[j]) {
      assert JobOK(row, w, w.restoring[j]);
    }
  }

  lemma ApplyKeeps(row: Reader, w: World, ticket: nat, holder: nat, fault: MoveFault, w': World)
    requires Inv(row, w) && Next(row, w, Apply(ticket, holder, fault), w')
    ensures Inv(row, w')
  {
    var m := w.pending[ticket];
    ApplyKeepsTrash(row, w.disk, m, holder, fault);
    if w'.disk.files != w.disk.files {
      UnusedFileGone(w.rows, w.disk.files, m.path);
      FileGoneKeepsTx(row, w, ticket);
      FileGoneKeepsPending(row, w, ticket);
      FileGoneKeepsRestoring(row, w, ticket);
    }
    FewerPendingKeepsRestoring(row, w, w');
  }

  lemma FewerPendingKeepsRestoring(row: Reader, w: World, w': World)
    requires RestoringOK(row, w.(disk := w.disk.(files := w'.disk.files)))
    requires w'.rows == w.rows && w'.restoring == w.restoring
    requires forall t :: t in w'.pending ==> t in w.pending && w.pending[t] == w'.pending[t]
    ensures RestoringOK(row, w')
  {
    var u := w.(disk := w.disk.(files := w'.disk.files));
    forall j | j in w'.restoring ensures JobOK(row, w', w'.restoring[j]) {
      assert JobOK(row, u, u.restoring[j]);
    }
  }

  function WithoutFile(w: World, p: Path): World {
    w.(disk := w.disk.(files := w.disk.files - {p}))
  }

  lemma FileGoneKeepsTx(row: Reader, w: World, ticket: nat)
    requires TxOK(row, w) && PendingOK(row, w) && ticket in w.pending && !w.pending[ticket].retained
    ensures TxOK(row, WithoutFile(w, w.pending[ticket].path))
  {
  }

  lemma FileGoneKeepsPending(row: Reader, w: World, ticket: nat)
    requires PendingOK(row, w) && ticket in w.pending && !w.pending[ticket].retained
    ensures PendingOK(row, WithoutFile(w, w.pending[ticket].path).(pending := w.pending - {ticket}))
  {
  }

  lemma FileGoneKeepsRestoring(row: Reader, w: World, ticket: nat)
    requires RestoringOK(row, w) && ticket in w.pending && !w.pending[ticket].retained
    ensures RestoringOK(row, WithoutFile(w, w.pending[ticket].path))
  {
    var w' := WithoutFile(w, w.pending[ticket].path);
    forall j | j in w.restoring ensures JobOK(row, w', w.restoring[j]) {
      assert JobOK(row, w, w.restoring[j]);
    }
  }

  lemma ApplyKeepsTrash(row: Reader, d: Disk, m: PendingMove, holder: nat, fault: MoveFault)
    requires MoveOK(row, d.files, m) && forall h :: h in d.trash ==> EntryOK(row, d.trash[h])
    ensures var d' := AfterMove(d, m, holder, fault); forall h :: h in d'.trash ==> EntryOK(row, d'.trash[h])
  {
  }

  /** A file no row uses can go. */
  lemma UnusedFileGone(rows: Table, files: map<Path, string>, p: Path)
    requires TableOK(rows, files) && !Uses(rows, p)
    ensures TableOK(rows, files - {p})
  {
  }

  lemma CheckKeeps(row: Reader, w: World, holder: nat, job: nat, w': World)
    requires Inv(row, w) && Next(row, w, Check(holder, job), w') && Orderly(w, Check(holder, job))
    ensures Inv(row, w')
  {
    CheckKeepsRestoring(row, w, holder, job);
  }

  lemma CheckKeepsRestoring(row: Reader, w: World, holder: nat, job: nat)
    requires RestoringOK(row, w) && holder in w.disk.trash && EntryOK(row, w.disk.trash[holder])
    requires CheckPasses(w.disk, w.disk.trash[holder]) && Orderly(w, Check(holder, job))
    ensures RestoringOK(row, w.(restoring := w.restoring[job := Checked(holder, w.disk.trash[holder])]))
  {
    var w' := w.(restoring := w.restoring[job := Checked(holder, w.disk.trash[holder])]);
    forall j | j in w'.restoring ensures JobOK(row, w', w'.restoring[j]) {
      if j != job { assert JobOK(row, w, w.restoring[j]); }
    }
  }

  lemma RenameKeeps(row: Reader, w: World, job: nat, w': World)
    requires Inv(row, w) && Next(row, w, Rename(job), w')
    ensures Inv(row, w')
  {
    var e := w.restoring[job].entry;
    assert JobOK(row, w, w.restoring[job]);
    NewFileUnused(w.rows, w.disk.files, e.path, e.payload.value);
    NewFileKeepsMoves(row, w, e.path, e.payload.value);
    NewFileKeepsRestores(row, w, job, w');
  }

  lemma NewFileUnused(rows: Table, files: map<Path, string>, p: Path, bytes: string)
    requires TableOK(rows, files) && p !in files
    ensures !Uses(rows, p) && TableOK(rows, files[p := bytes])
  {
  }

  lemma NewFileKeepsMoves(row: Reader, w: World, p: Path, bytes: string)
    requires TxOK(row, w) && PendingOK(row, w) && p !in w.disk.files
    ensures var w' := w.(disk := w.disk.(files := w.disk.files[p := bytes])); TxOK(row, w') && PendingOK(row, w')
  {
  }

  lemma NewFileKeepsRestores(row: Reader, w: World, job: nat, w': World)
    requires PendingOK(row, w) && RestoringOK(row, w) && CanRename(w, job) && Brings(w.restoring[job])
    requires !Uses(w.rows, w.restoring[job].entry.path)
    requires w' == w.(disk := AfterRename(w.disk, w.restoring[job].holder),
                      restoring := w.restoring[job := w.restoring[job].(filed := true)])
    ensures RestoringOK(row, w')
  {
    forall j | j in w'.restoring ensures JobOK(row, w', w'.restoring[j]) {
      assert JobOK(row, w, w.restoring[j]);
    }
  }

  lemma RowBackKeeps(row: Reader, w: World, job: nat, newId: int, w': World)
    requires Reads(row) && Inv(row, w) && Next(row, w, RowBack(job, newId), w')
    ensures Inv(row, w')
  {
    RowBackKeepsTable(row, w, job, newId, w'.rows);
    RowBackKeepsPending(row, w, job, w');
    RowBackKeepsRestoring(row, w, job, w');
  }

  lemma RowBackKeepsTable(row: Reader, w: World, job: nat, newId: int, rows': Table)
    requires Reads(row) && RowsOK(w) && RestoringOK(row, w) && job in w.restoring && w.restoring[job].filed
    requires RowAccepted(w.rows, w.restoring[job].entry, RowFrom(row, w.restoring[job].entry))
    requires newId !in w.rows && IsUpsert(w.rows, RowFrom(row, w.restoring[job].entry), newId, rows')
    ensures TableOK(rows', w.disk.files)
    ensures forall p :: Uses(rows', p) ==> Uses(w.rows, p) || p == w.restoring[job].entry.path
    ensures RetainedDEB(w.restoring[job].entry) ==> Uses(w.rows, w.restoring[job].entry.path)
  {
    var r := RowFrom(row, w.restoring[job].entry);
    assert JobOK(row, w, w.restoring[job]);
    AcceptedRowHasItsFile(row, w, job);
    AcceptedRowSharesSafely(row, w, job);
    assert w.disk.files[PathOf(r) := r.Digest()] == w.disk.files;
    UpsertKeepsTable(w.rows, w.disk.files, r, newId, rows');
  }

  /** When the row half is accepted the file is there with the right bytes, and either nobody uses it
      or it is a shared APT file in use. */
  lemma AcceptedRowHasItsFile(row: Reader, w: World, job: nat)
    requires Reads(row) && RowsOK(w) && RestoringOK(row, w) && job in w.restoring && w.restoring[job].filed
    requires RowAccepted(w.rows, w.restoring[job].entry, RowFrom(row, w.restoring[job].entry))
    ensures var e := w.restoring[job].entry; var r := RowFrom(row, e);
            && Holds(w.disk.files, e.path, r) && PathOf(r) == e.path
            && if RetainedDEB(e) then r.DEBRecord? && Uses(w.rows, e.path) else !Uses(w.rows, e.path)
  {
    var e := w.restoring[job].entry;
    var r := RowFrom(row, e);
    assert JobOK(row, w, w.restoring[job]);
    if RetainedDEB(e) {
      var k :| k in w.rows && SharesPool(w.rows[k], r.deb) && w.rows[k].Digest() == r.Digest();
      assert PathOf(w.rows[k]) == e.path;
    }
  }

  lemma AcceptedRowSharesSafely(row: Reader, w: World, job: nat)
    requires Reads(row) && RowsOK(w) && RestoringOK(row, w) && job in w.restoring && w.restoring[job].filed
    requires RowAccepted(w.rows, w.restoring[job].entry, RowFrom(row, w.restoring[job].entry))
    ensures SharesSafely(w.rows, RowFrom(row, w.restoring[job].entry))
  {
    AcceptedRowHasItsFile(row, w, job);
  }

  lemma RowBackKeepsPending(row: Reader, w: World, job: nat, w': World)
    requires PendingOK(row, w) && RestoringOK(row, w) && job in w.restoring && w.restoring[job].filed
    requires w' == w.(rows := w'.rows, restoring := w.restoring - {job})
    requires forall p :: Uses(w'.rows, p) ==> Uses(w.rows, p) || p == w.restoring[job].entry.path
    requires RetainedDEB(w.restoring[job].entry) ==> Uses(w.rows, w.restoring[job].entry.path)
    ensures PendingOK(row, w')
  {
    assert JobOK(row, w, w.restoring[job]);
  }

  lemma RowBackKeepsRestoring(row: Reader, w: World, job: nat, w': World)
    requires RestoringOK(row, w) && job in w.restoring && w.restoring[job].filed
    requires w' == w.(rows := w'.rows, restoring := w.restoring - {job})
    requires forall p :: Uses(w'.rows, p) ==> Uses(w.rows, p) || p == w.restoring[job].entry.path
    requires RetainedDEB(w.restoring[job].entry) ==> Uses(w.rows, w.restoring[job].entry.path)
    ensures RestoringOK(row, w')
  {
    forall j | j in w'.restoring ensures JobOK(row, w', w'.restoring[j]) {
      assert JobOK(row, w, w.restoring[j]);
    }
  }

  lemma UpsertUses(rows: Table, id: int, r: Record)
    ensures forall p :: Uses(rows[id := r], p) ==> Uses(rows, p) || p == PathOf(r)
  {
    forall p | Uses(rows[id := r], p) && p != PathOf(r) ensures Uses(rows, p) {
      var k :| k in rows[id := r] && PathOf(rows[id := r][k]) == p;
      assert k in rows && rows[k] == rows[id := r][k];
    }
  }

  lemma FewerJobsKeeps(row: Reader, w: World, jobs: set<nat>)
    requires Inv(row, w)
    ensures Inv(row, w.(restoring := w.restoring - jobs))
  {
    var w' := w.(restoring := w.restoring - jobs);
    forall j | j in w'.restoring ensures JobOK(row, w', w'.restoring[j]) {
      assert JobOK(row, w, w.restoring[j]);
    }
  }

  lemma SameJobs(row: Reader, w: World, w': World)
    requires RestoringOK(row, w)
    requires w'.rows == w.rows && w'.disk.files == w.disk.files
    requires w'.pending == w.pending && w'.restoring == w.restoring
    ensures RestoringOK(row, w')
  {
    forall j | j in w'.restoring ensures JobOK(row, w', w'.restoring[j]) {
      assert JobOK(row, w, w.restoring[j]);
    }
  }

  lemma StepKeeps(row: Reader, w: World, s: Step, w': World)
    requires Reads(row) && Inv(row, w) && Next(row, w, s, w') && Orderly(w, s)
    ensures Inv(row, w')
  {
    match s
    case Publish(r, newId) => PublishKeeps(row, w, r, newId, w');
    case Begin => SameJobs(row, w, w');
    case PurgeOne(id, ticket) => PurgeOneKeeps(row, w, id, ticket, w');
    case Commit => CommitKeeps(row, w, w');
    case Rollback => SameJobs(row, w, w');
    case Apply(ticket, holder, fault) => ApplyKeeps(row, w, ticket, holder, fault, w');
    case Check(holder, job) => CheckKeeps(row, w, holder, job, w');
    case Rename(job) => RenameKeeps(row, w, job, w');
    case RowBack(job, newId) => RowBackKeeps(row, w, job, newId, w');
    case RowFails(job) => FewerJobsKeeps(row, w, {job});
    case Discard(holder) => SameJobs(row, w, w');
    case Crash => RestIsInv(row, w');
  }

  /** A run: the steps taken and the worlds passed through. */
  ghost predicate IsRun(row: Reader, worlds: seq<World>, steps: seq<Step>) {
    && |worlds| == |steps| + 1
    && forall i :: 0 <= i < |steps| ==> Next(row, worlds[i], steps[i], worlds[i + 1])
  }

  ghost predicate OrderlyRun(worlds: seq<World>, steps: seq<Step>)
    requires |worlds| == |steps| + 1
  {
    forall i :: 0 <= i < |steps| ==> Orderly(worlds[i], steps[i])
  }

  /** In every orderly run from any state in order, at every point, no live row points at a missing or
      wrong file, whatever fails, crashes or interleaves. */
  lemma EveryRunIsSafe(worlds: seq<World>, steps: seq<Step>, i: nat)
    requires IsRun(RowOf, worlds, steps) && OrderlyRun(worlds, steps) && Inv(RowOf, worlds[0]) && i <= |steps|
    ensures Intact(worlds[i].rows, worlds[i].disk.files)
  {
    ProgramReads();
    RunsKeep(RowOf, worlds, steps, i);
  }

  lemma {:induction false} RunsKeep(row: Reader, worlds: seq<World>, steps: seq<Step>, i: nat)
    requires Reads(row) && IsRun(row, worlds, steps) && OrderlyRun(worlds, steps) && Inv(row, worlds[0]) && i <= |steps|
    ensures Inv(row, worlds[i])
  {
    if i > 0 {
      RunsKeep(row, worlds, steps, i - 1);
      StepKeeps(row, worlds[i - 1], steps[i - 1], worlds[i]);
    }
  }

  // ---- No bytes are lost ----

  /** The bytes are somewhere on disk, live or in a trash holder. */
  predicate HasBytes(d: Disk, bytes: string) {
    || (exists p :: p in d.files && d.files[p] == bytes)
    || (exists h :: h in d.trash && d.trash[h].payload == Some(bytes))
  }

  predicate HeldAt(files: map<Path, string>, p: Path, bytes: string) {
    p in files && files[p] == bytes
  }

  /** The step puts a file over one with these bytes. */
  predicate Overwrites(w: World, s: Step, bytes: string) {
    match s
    case Publish(r, newId) => HeldAt(w.disk.files, PathOf(r), bytes)
    case Rename(job) => job in w.restoring && HeldAt(w.disk.files, w.restoring[job].entry.path, bytes)
    case _ => false
  }

  /** Bytes go only by emptying the trash or by being overwritten, and come only by being published. */
  lemma StepKeepsBytes(row: Reader, w: World, s: Step, w': World, bytes: string)
    requires Next(row, w, s, w')
    ensures HasBytes(w.disk, bytes) && !s.Discard? && !Overwrites(w, s, bytes) ==> HasBytes(w'.disk, bytes)
    ensures HasBytes(w'.disk, bytes) ==> HasBytes(w.disk, bytes) || (s.Publish? && bytes == s.r.Digest())
  {
    match s
    case Publish(r, newId) => WriteKeepsBytes(w.disk, PathOf(r), r.Digest(), bytes);
    case Apply(ticket, holder, fault) => MoveKeepsBytes(w.disk, w.pending[ticket], holder, fault, bytes);
    case Rename(job) => RestoreKeepsBytes(w.disk, w.restoring[job].holder, bytes);
    case Discard(holder) => DiscardMakesNoBytes(w.disk, holder, bytes);
    case _ =>
  }

  lemma DiscardMakesNoBytes(d: Disk, holder: nat, bytes: string)
    ensures HasBytes(d.(trash := d.trash - {holder}), bytes) ==> HasBytes(d, bytes)
  {
    var d' := d.(trash := d.trash - {holder});
    if h :| h in d'.trash && d'.trash[h].payload == Some(bytes) {
      assert d.trash[h].payload == Some(bytes);
    }
  }

  lemma WriteKeepsBytes(d: Disk, p: Path, written: string, bytes: string)
    ensures var d' := d.(files := d.files[p := written]);
            && (HasBytes(d, bytes) && !HeldAt(d.files, p, bytes) ==> HasBytes(d', bytes))
            && (HasBytes(d', bytes) ==> HasBytes(d, bytes) || bytes == written)
            && HasBytes(d', written)
  {
    var d' := d.(files := d.files[p := written]);
    assert d'.files[p] == written;
    if q :| q in d.files && d.files[q] == bytes {
      if q != p { assert d'.files[q] == bytes; }
    }
    if q :| q in d'.files && d'.files[q] == bytes {
      if q != p { assert d.files[q] == bytes; }
    }
  }

  lemma MoveKeepsBytes(d: Disk, m: PendingMove, holder: nat, fault: MoveFault, bytes: string)
    requires holder !in d.trash
    ensures HasBytes(d, bytes) <==> HasBytes(AfterMove(d, m, holder, fault), bytes)
  {
    var d' := AfterMove(d, m, holder, fault);
    forall h | h in d.trash ensures h in d'.trash && d'.trash[h] == d.trash[h] {}
    if p :| p in d.files && d.files[p] == bytes {
      if p !in d'.files {
        assert d'.trash[holder].payload == Some(bytes);
      } else {
        assert d'.files[p] == bytes;
      }
    }
    if h :| h in d'.trash && d'.trash[h].payload == Some(bytes) {
      if h == holder { assert d.files[m.path] == bytes; }
    }
    if h :| h in d.trash && d.trash[h].payload == Some(bytes) {
      assert d'.trash[h].payload == Some(bytes);
    }
    if p :| p in d'.files && d'.files[p] == bytes {
      assert d.files[p] == bytes;
    }
  }

  lemma RestoreKeepsBytes(d: Disk, holder: nat, bytes: string)
    requires holder in d.trash && d.trash[holder].payload.Some?
    ensures HasBytes(d, bytes) && !HeldAt(d.files, d.trash[holder].path, bytes) ==>
              HasBytes(AfterRename(d, holder), bytes)
    ensures HasBytes(AfterRename(d, holder), bytes) ==> HasBytes(d, bytes)
  {
    var d' := AfterRename(d, holder);
    var e := d.trash[holder];
    assert HeldAt(d'.files, e.path, e.payload.value);
    if p :| p in d.files && d.files[p] == bytes {
      if p != e.path { assert d'.files[p] == bytes; }
    }
    if h :| h in d.trash && d.trash[h].payload == Some(bytes) {
      if h != holder { assert d'.trash[h].payload == Some(bytes); }
    }
    if h :| h in d'.trash && d'.trash[h].payload == Some(bytes) {
      assert d.trash[h].payload == Some(bytes);
    }
    if p :| p in d'.files && d'.files[p] == bytes {
      if p == e.path { assert d.trash[holder].payload == Some(bytes); } else { assert d.files[p] == bytes; }
    }
  }

  /** In an orderly run a restore never overwrites anything. */
  lemma RenameIsIntoFreePath(row: Reader, w: World, job: nat, bytes: string)
    requires Inv(row, w) && CanRename(w, job)
    ensures !Overwrites(w, Rename(job), bytes)
  {
    assert JobOK(row, w, w.restoring[job]);
  }

  lemma OrderlyStepKeepsBytes(row: Reader, w: World, s: Step, w': World, bytes: string)
    requires Inv(row, w) && Next(row, w, s, w') && HasBytes(w.disk, bytes)
    requires !s.Discard? && !(s.Publish? && Overwrites(w, s, bytes))
    ensures HasBytes(w'.disk, bytes)
  {
    if s.Rename? { RenameIsIntoFreePath(row, w, s.job, bytes); }
    StepKeepsBytes(row, w, s, w', bytes);
  }

  /** Over whole orderly runs: until somebody empties the trash or publishes over the file, its bytes are
      still on disk. */
  lemma {:induction false} NoBytesLost(worlds: seq<World>, steps: seq<Step>, i: nat, bytes: string)
    requires IsRun(RowOf, worlds, steps) && OrderlyRun(worlds, steps) && Inv(RowOf, worlds[0]) && i <= |steps|
    requires forall j :: 0 <= j < i ==>
               !steps[j].Discard? && !(steps[j].Publish? && Overwrites(worlds[j], steps[j], bytes))
    requires HasBytes(worlds[0].disk, bytes)
    ensures HasBytes(worlds[i].disk, bytes)
  {
    if i > 0 {
      NoBytesLost(worlds, steps, i - 1, bytes);
      ProgramReads();
      RunsKeep(RowOf, worlds, steps, i - 1);
      OrderlyStepKeepsBytes(RowOf, worlds[i - 1], steps[i - 1], worlds[i], bytes);
    }
  }

  // ---- The engine's run is one transaction of the protocol ----

  /** The first i moves, numbered from base. */
  function Numbered(moves: seq<PendingMove>, base: nat, i: nat): (m: map<nat, PendingMove>)
    requires i <= |moves|
    ensures forall t :: t in m ==> base <= t < base + i
  {
    if i == 0 then map[] else Numbered(moves, base, i - 1)[base + i - 1 := moves[i - 1]]
  }

  /** The transaction after the first i purges of a run. */
  function PurgingTx(rows: Table, order: seq<LocalRow>, base: nat, i: nat): OpenTx
    requires i <= |order|
  {
    OpenTx(rows - IdsOf(order[..i]), Numbered(Moves(rows, order), base, i))
  }

  lemma PurgeExtendsTx(rows: Table, order: seq<LocalRow>, base: nat, i: nat)
    requires FromTable(rows, order) && i < |order|
    ensures var tx := PurgingTx(rows, order, base, i);
            && order[i].id in tx.rows && base + i !in tx.moves
            && PurgingTx(rows, order, base, i + 1) == AfterPurge(tx, order[i].id, base + i)
  {
    var r := order[i];
    assert order[..i + 1] == order[..i] + [r];
    assert IdsOf(order[..i + 1]) == IdsOf(order[..i]) + {r.id};
    assert r in order;
    assert r.id !in IdsOf(order[..i]);
    assert rows - IdsOf(order[..i + 1]) == rows - IdsOf(order[..i]) - {r.id};
    SameMove(rows - IdsOf(order[..i + 1]), r);
  }

  lemma SameMove(left: Table, r: LocalRow)
    ensures MoveFor(left, r) == MoveFor(left, LocalRow(r.id, r.rec, Key("", "", "")))
  {
  }

  /** Begin, one purge per drifted row, Commit: the rows and the pending list are exactly the ones the
      engine's Run returns. */
  lemma RunIsATransaction(row: Reader, w: World, order: seq<LocalRow>, base: nat)
    requires w.tx.None? && FromTable(w.rows, order) && forall t :: t in w.pending ==> t < base
    ensures Next(row, w, Begin, w.(tx := Some(PurgingTx(w.rows, order, base, 0))))
    ensures forall i: nat :: i < |order| ==>
              Next(row, w.(tx := Some(PurgingTx(w.rows, order, base, i))), PurgeOne(order[i].id, base + i),
                   w.(tx := Some(PurgingTx(w.rows, order, base, i + 1))))
    ensures Next(row, w.(tx := Some(PurgingTx(w.rows, order, base, |order|))), Commit,
                 w.(rows := w.rows - IdsOf(order),
                    pending := w.pending + Numbered(Moves(w.rows, order), base, |order|)))
  {
    assert order[..|order|] == order;
    assert w.rows - IdsOf(order[..0]) == w.rows;
    forall i: nat | i < |order|
      ensures Next(row, w.(tx := Some(PurgingTx(w.rows, order, base, i))), PurgeOne(order[i].id, base + i),
                   w.(tx := Some(PurgingTx(w.rows, order, base, i + 1))))
    {
      PurgeExtendsTx(w.rows, order, base, i);
    }
  }

  /** The tail of a sync: the purge in a write transaction, the file moves after it commits. A purge
      that fails or does not commit leaves rows and files as they were. */
  method DriftPurge(db: Database, vol: Volume, upstream: seq<Key>, local: Option<seq<LocalRow>>, pct: int, force: bool,
                    faults: int -> PurgeFault, canRetain: bool, commitFails: bool, holders: seq<nat>,
                    moveFaults: seq<MoveFault>)
    returns (report: Report, failed: bool, leaked: nat, ghost order: seq<LocalRow>)
    requires |holders| == |moveFaults| && (local.Some? ==> |local.value| <= |holders|)
    requires forall i, j :: 0 <= i < j < |holders| ==> holders[i] != holders[j]
    requires forall h :: h in holders ==> h !in vol.trash
    modifies db, vol
    // It fails with the load, the commit, or the purge of a row; it is skipped by one of the two guards.
    ensures failed <==> commitFails || local.None? ||
                        (!report.skipped && exists i: nat :: i < |order| &&
                                                             FailsAt(old(db.rows), order, i, faults, canRetain))
    ensures local.Some? ==> (report.skipped <==> (upstream == [] && local.value != []) ||
                                                 Blocked(|order|, |local.value|, pct, force))
    ensures failed || report.skipped ==> db.rows == old(db.rows) && vol.State() == old(vol.State())
    ensures !failed && !report.skipped ==>
              && local.Some? && multiset(order) == multiset(Drift(local.value, upstream)) && |order| <= |holders|
              && db.rows == old(db.rows) - IdsOf(order)
              && vol.State() == AfterMoves(old(vol.State()), Moves(old(db.rows), order), holders[..|order|],
                                           moveFaults[..|order|])
              && leaked == Failures(old(vol.State()), Moves(old(db.rows), order), holders[..|order|],
                                    moveFaults[..|order|])
  {
    var tx := new Tx(db.rows);
    var pending, ok;
    leaked := 0;
    report, pending, ok, order := Run(tx, upstream, local, pct, force, faults, canRetain);
    if !ok || commitFails { return report, true, 0, order; }
    failed := false;
    db.rows := tx.rows;
    if local.Some? && !report.skipped {
      DriftMembers(local.value, upstream);
      assert |order| == |multiset(order)| == |Drift(local.value, upstream)|;
    }
    var n := |pending|;
    var first;
    leaked, first := vol.ApplyPendingMoves(pending, holders[..n], moveFaults[..n]);
  }
}
