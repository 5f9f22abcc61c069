/** Which runs are safe, exactly: a condition on each step where it starts, and complete runs that miss it.
    The restore handler looks at the destination and renames onto it in two steps, without a lock; two
    overlapping restores of one path can leave a row with another row's bytes or with no file at all. */
module DriftRaces {
  import opened Options
  import opened Records
  import opened DriftEngine
  import opened DriftTheorems
  import opened DriftStore
  import opened DriftProtocol

  // ---- Each step that can hurt, exactly ----

  predicate RowsAgree(rows: Table, p: Path, bytes: string) {
    forall id :: id in rows && PathOf(rows[id]) == p ==> rows[id].Digest() == bytes
  }

  /** The rows of r's path other than the one an upsert of r replaces. */
  predicate OthersAgree(rows: Table, r: Record) {
    forall id :: id in rows && PathOf(rows[id]) == PathOf(r) && UniqueKeyOf(rows[id]) != UniqueKeyOf(r) ==>
      rows[id].Digest() == r.Digest()
  }

  /** A publication keeps every row's file right if and only if every other row of the path has its bytes. */
  lemma PublishExactly(row: Reader, w: World, r: Record, newId: int, w': World)
    requires Intact(w.rows, w.disk.files) && UniqueRows(w.rows) && Next(row, w, Publish(r, newId), w')
    ensures Intact(w'.rows, w'.disk.files) <==> OthersAgree(w.rows, r)
  {
    var id :| TakesId(w.rows, r, newId, id) && w'.rows == w.rows[id := r];
    forall k | k in w.rows && k != id ensures UniqueKeyOf(w.rows[k]) != UniqueKeyOf(r) && w'.rows[k] == w.rows[k] {}
    if Intact(w'.rows, w'.disk.files) {
      forall k | k in w.rows && PathOf(w.rows[k]) == PathOf(r) && UniqueKeyOf(w.rows[k]) != UniqueKeyOf(r)
        ensures w.rows[k].Digest() == r.Digest()
      {
        assert k != id && k in w'.rows;
      }
    }
  }

  /** Between its file swap and its row, a publication leaves the disk with the new bytes and the table
      with the old rows: that is right for every row if and only if all rows of the path, the one to be
      replaced included, have the new bytes. */
  lemma PublishWindowExactly(w: World, r: Record)
    requires Intact(w.rows, w.disk.files)
    ensures Intact(w.rows, w.disk.files[PathOf(r) := r.Digest()]) <==> RowsAgree(w.rows, PathOf(r), r.Digest())
  {
    var files := w.disk.files[PathOf(r) := r.Digest()];
    if Intact(w.rows, files) {
      forall id | id in w.rows && PathOf(w.rows[id]) == PathOf(r) ensures w.rows[id].Digest() == r.Digest() {
        assert PathOf(w.rows[id]) in files;
      }
    }
  }

  /** A rename that does not look keeps every row's file right if and only if no live row of the path has
      other bytes than the ones it brings. */
  lemma BlindRenameExactly(row: Reader, w: World, job: nat, w': World)
    requires Intact(w.rows, w.disk.files) && Next(row, w, Rename(job), w')
    ensures var e := w.restoring[job].entry;
            Intact(w'.rows, w'.disk.files) <==> RowsAgree(w.rows, e.path, e.payload.value)
  {
    var e := w.restoring[job].entry;
    if Intact(w'.rows, w'.disk.files) {
      forall id | id in w.rows && PathOf(w.rows[id]) == e.path ensures w.rows[id].Digest() == e.payload.value {
        assert id in w'.rows && PathOf(w'.rows[id]) in w'.disk.files;
      }
    }
  }

  /** The move takes the file away: it is physical, nothing fails, and the file is there. */
  predicate TakesFile(w: World, ticket: nat, fault: MoveFault)
    requires ticket in w.pending
  {
    fault.MoveOk? && !w.pending[ticket].retained && w.pending[ticket].path in w.disk.files
  }

  /** A deferred move, whatever fails in it, keeps every row's file right if and only if it takes no file
      or nobody uses it. */
  lemma ApplyExactly(row: Reader, w: World, ticket: nat, holder: nat, fault: MoveFault, w': World)
    requires Intact(w.rows, w.disk.files) && Next(row, w, Apply(ticket, holder, fault), w')
    ensures Intact(w'.rows, w'.disk.files) <==> !TakesFile(w, ticket, fault) || !Uses(w.rows, w.pending[ticket].path)
  {
    var m := w.pending[ticket];
    if TakesFile(w, ticket, fault) && Uses(w.rows, m.path) {
      var id :| id in w.rows && PathOf(w.rows[id]) == m.path;
      assert id in w'.rows && PathOf(w'.rows[id]) !in w'.disk.files;
    }
  }

  /** The row half of a restore does so if and only if the row's file is there with the row's bytes. */
  lemma RowBackExactly(row: Reader, w: World, job: nat, newId: int, w': World)
    requires Intact(w.rows, w.disk.files) && Next(row, w, RowBack(job, newId), w')
    ensures var r := RowFrom(row, w.restoring[job].entry);
            Intact(w'.rows, w'.disk.files) <==> HeldAt(w.disk.files, PathOf(r), r.Digest())
  {
    var r := RowFrom(row, w.restoring[job].entry);
    var id :| TakesId(w.rows, r, newId, id) && w'.rows == w.rows[id := r];
    assert w'.rows[id] == r;
  }

  /** The condition each step must meet where it starts. The other steps cannot hurt. */
  predicate StepSafe(row: Reader, w: World, s: Step) {
    match s
    case Publish(r, newId) => OthersAgree(w.rows, r)
    case Apply(ticket, holder, fault) =>
      ticket in w.pending && TakesFile(w, ticket, fault) ==> !Uses(w.rows, w.pending[ticket].path)
    case Rename(job) =>
      CanRename(w, job) ==> RowsAgree(w.rows, w.restoring[job].entry.path, w.restoring[job].entry.payload.value)
    case RowBack(job, newId) =>
      job in w.restoring ==>
        var r := RowFrom(row, w.restoring[job].entry); HeldAt(w.disk.files, PathOf(r), r.Digest())
    case _ => true
  }

  /** What the database guarantees by itself: unique keys, and a transaction that only deletes. */
  predicate TablesOK(w: World) {
    UniqueRows(w.rows) && (w.tx.Some? ==> SubTable(w.tx.value.rows, w.rows))
  }

  lemma UpsertKeepsUnique(rows: Table, r: Record, newId: int, rows': Table)
    requires UniqueRows(rows) && newId !in rows && IsUpsert(rows, r, newId, rows')
    ensures UniqueRows(rows')
  {
    var id :| TakesId(rows, r, newId, id) && rows' == rows[id := r];
    forall k | k in rows && k != id ensures UniqueKeyOf(rows[k]) != UniqueKeyOf(r) {}
  }

  lemma StepKeepsTables(row: Reader, w: World, s: Step, w': World)
    requires TablesOK(w) && Next(row, w, s, w')
    ensures TablesOK(w')
  {
    match s
    case Publish(r, newId) => UpsertKeepsUnique(w.rows, r, newId, w'.rows);
    case RowBack(job, newId) => UpsertKeepsUnique(w.rows, RowFrom(row, w.restoring[job].entry), newId, w'.rows);
    case _ =>
  }

  /** From a world whose rows have their files, a step leads to one if and only if it is safe. */
  lemma StepExactly(row: Reader, w: World, s: Step, w': World)
    requires TablesOK(w) && Intact(w.rows, w.disk.files) && Next(row, w, s, w')
    ensures Intact(w'.rows, w'.disk.files) <==> StepSafe(row, w, s)
  {
    match s
    case Publish(r, newId) => PublishExactly(row, w, r, newId, w');
    case Apply(ticket, holder, fault) => ApplyExactly(row, w, ticket, holder, fault, w');
    case Rename(job) => BlindRenameExactly(row, w, job, w');
    case RowBack(job, newId) => RowBackExactly(row, w, job, newId, w');
    case _ =>
  }

  lemma {:induction false} RunKeepsTables(row: Reader, worlds: seq<World>, steps: seq<Step>, i: nat)
    requires IsRun(row, worlds, steps) && TablesOK(worlds[0]) && i <= |steps|
    ensures TablesOK(worlds[i])
  {
    if i > 0 {
      RunKeepsTables(row, worlds, steps, i - 1);
      StepKeepsTables(row, worlds[i - 1], steps[i - 1], worlds[i]);
    }
  }

  ghost predicate IntactUpTo(worlds: seq<World>, n: nat)
    requires n < |worlds|
  {
    forall i :: 0 <= i <= n ==> Intact(worlds[i].rows, worlds[i].disk.files)
  }

  ghost predicate SafeUpTo(row: Reader, worlds: seq<World>, steps: seq<Step>, n: nat)
    requires n <= |steps| <= |worlds|
  {
    forall i :: 0 <= i < n ==> StepSafe(row, worlds[i], steps[i])
  }

  /** Whole runs, of any reader, in any order: every live row has its file with its bytes at every point up
      to n if and only if every step before n is safe where it starts. */
  lemma {:induction false} RunExactly(row: Reader, worlds: seq<World>, steps: seq<Step>, n: nat)
    requires IsRun(row, worlds, steps) && TablesOK(worlds[0]) && n <= |steps|
    requires Intact(worlds[0].rows, worlds[0].disk.files)
    ensures IntactUpTo(worlds, n) <==> SafeUpTo(row, worlds, steps, n)
  {
    if n > 0 {
      RunExactly(row, worlds, steps, n - 1);
      RunKeepsTables(row, worlds, steps, n - 1);
      if IntactUpTo(worlds, n - 1) { StepExactly(row, worlds[n - 1], steps[n - 1], worlds[n]); }
    }
  }

  /** Where the invariant holds an orderly step is safe: orderly runs meet the condition. */
  lemma OrderlyIsSafe(row: Reader, w: World, s: Step, w': World)
    requires Reads(row) && Inv(row, w) && Next(row, w, s, w') && Orderly(w, s)
    ensures StepSafe(row, w, s)
  {
    StepKeeps(row, w, s, w');
    StepExactly(row, w, s, w');
  }

  /** A row published under another row's file name, with other bytes, puts them under that row at once. */
  lemma SecondPublicationPutsWrongBytes(row: Reader, w: World, k: int, r: Record, newId: int, w': World)
    requires k in w.rows && PathOf(w.rows[k]) == PathOf(r) && UniqueKeyOf(w.rows[k]) != UniqueKeyOf(r)
    requires w.rows[k].Digest() != r.Digest() && Next(row, w, Publish(r, newId), w')
    ensures k in w'.rows && w'.rows[k] == w.rows[k] && w'.disk.files[PathOf(w.rows[k])] == r.Digest()
    ensures !Intact(w'.rows, w'.disk.files)
  {
    var id :| TakesId(w.rows, r, newId, id) && w'.rows == w.rows[id := r];
    assert id != k && PathOf(w'.rows[k]) in w'.disk.files;
  }

  /** Such is a second epoch of an RPM build ... */
  lemma SecondEpochPutsWrongBytes(row: Reader, w: World, k: int, q: RPMPackage, epoch: int, digest: string, newId: int,
                                  w': World)
    requires k in w.rows && w.rows[k] == RPMRecord(q) && epoch != q.epoch && digest != q.digest
    requires Next(row, w, Publish(RPMRecord(q.(epoch := epoch, digest := digest)), newId), w')
    ensures k in w'.rows && !Intact(w'.rows, w'.disk.files)
  {
    var r := RPMRecord(q.(epoch := epoch, digest := digest));
    assert UniqueKeyOf(r).epoch != UniqueKeyOf(w.rows[k]).epoch;
    SecondPublicationPutsWrongBytes(row, w, k, r, newId, w');
  }

  /** ... and a chart published under the file name of another chart or version. */
  lemma SecondChartPutsWrongBytes(row: Reader, w: World, k: int, c: HelmChart, d: HelmChart, newId: int, w': World)
    requires k in w.rows && w.rows[k] == HelmRecord(c) && d.repoId == c.repoId && d.filename == c.filename
    requires (d.name != c.name || d.version != c.version) && d.digest != c.digest
    requires Next(row, w, Publish(HelmRecord(d), newId), w')
    ensures k in w'.rows && !Intact(w'.rows, w'.disk.files)
  {
    assert UniqueKeyOf(HelmRecord(c)) == UHelm(c.repoId, c.name, c.version);
    SecondPublicationPutsWrongBytes(row, w, k, HelmRecord(d), newId, w');
  }

  // ---- Runs ----

  /** Some run takes w to w' by these steps. */
  ghost predicate Reaches(row: Reader, w: World, steps: seq<Step>, w': World) {
    exists worlds :: IsRun(row, worlds, steps) && worlds[0] == w && worlds[|steps|] == w'
  }

  lemma OneStep(row: Reader, w: World, s: Step, w': World)
    requires Next(row, w, s, w')
    ensures Reaches(row, w, [s], w')
  {
    assert IsRun(row, [w, w'], [s]);
  }

  lemma Joined(before: seq<World>, a: seq<Step>, after: seq<World>, b: seq<Step>)
    requires |before| == |a| + 1 && |after| == |b| + 1 && before[|a|] == after[0]
    ensures var worlds, steps := before[..|a|] + after, a + b;
            && |worlds| == |steps| + 1 && worlds[0] == before[0] && worlds[|steps|] == after[|b|]
            && (forall i {:trigger a[i]} :: 0 <= i < |a| ==>
                  worlds[i] == before[i] && worlds[i + 1] == before[i + 1] && steps[i] == a[i])
            && (forall i {:trigger steps[i]} :: |a| <= i < |steps| ==>
                  worlds[i] == after[i - |a|] && worlds[i + 1] == after[i - |a| + 1] && steps[i] == b[i - |a|])
  {
  }

  lemma ThenReaches(row: Reader, w: World, a: seq<Step>, mid: World, b: seq<Step>, w': World)
    requires Reaches(row, w, a, mid) && Reaches(row, mid, b, w')
    ensures Reaches(row, w, a + b, w')
  {
    var before :| IsRun(row, before, a) && before[0] == w && before[|a|] == mid;
    var after :| IsRun(row, after, b) && after[0] == mid && after[|b|] == w';
    var worlds, steps := before[..|a|] + after, a + b;
    Joined(before, a, after, b);
    forall i | 0 <= i < |steps| ensures Next(row, worlds[i], steps[i], worlds[i + 1]) {
      if i < |a| {
        assert Next(row, before[i], a[i], before[i + 1]);
      } else {
        assert Next(row, after[i - |a|], b[i - |a|], after[i - |a| + 1]);
      }
    }
    assert IsRun(row, worlds, steps);
  }

  lemma ThenStep(row: Reader, w: World, a: seq<Step>, mid: World, s: Step, w': World)
    requires Reaches(row, w, a, mid) && Next(row, mid, s, w')
    ensures Reaches(row, w, a + [s], w')
  {
    OneStep(row, mid, s, w');
    ThenReaches(row, w, a, mid, [s], w');
  }

  /** A world with nothing in flight. */
  function AtRest(rows: Table, files: map<Path, string>, trash: map<nat, Entry>): World {
    World(rows, Disk(files, trash), None, map[], map[])
  }

  lemma UpsertIntoEmpty(r: Record)
    ensures IsUpsert(map[], r, 1, map[1 := r])
  {
    var none: Table := map[];
    FreshUpsert(none, r, 1);
    assert map[1 := r] == none[1 := r];
  }

  /** The move of the only row of the system. */
  function LonelyMove(r: Record): PendingMove {
    PendingMove(r.Kind(), 1, PathOf(r), SnapshotOf(r), false)
  }

  lemma PurgeAlone(r: Record)
    ensures AfterPurge(OpenTx(map[1 := r], map[]), 1, 0) == OpenTx(map[], map[0 := LonelyMove(r)])
  {
    var left := map[1 := r] - {1};
    assert left == map[];
    if r.DEBRecord? { assert PoolRefs(left, r.deb) == {}; }
  }

  /** Begin, purge and commit of the only row, leaving its move pending. */
  function Purge(): seq<Step> { [Begin] + [PurgeOne(1, 0)] + [Commit] }

  lemma PurgeRun(row: Reader, w: World, r: Record)
    requires w.rows == map[1 := r] && w.tx.None? && w.pending == map[]
    ensures Reaches(row, w, Purge(), w.(rows := map[], pending := map[0 := LonelyMove(r)]))
  {
    var w1 := w.(tx := Some(OpenTx(w.rows, map[])));
    var w2 := w.(tx := Some(OpenTx(map[], map[0 := LonelyMove(r)])));
    var w3 := w.(rows := map[], pending := map[0 := LonelyMove(r)]);
    PurgeAlone(r);
    assert w.pending + map[0 := LonelyMove(r)] == map[0 := LonelyMove(r)];
    OneStep(row, w, Begin, w1);
    ThenStep(row, w, [Begin], w1, PurgeOne(1, 0), w2);
    ThenStep(row, w, [Begin] + [PurgeOne(1, 0)], w2, Commit, w3);
  }

  /** e is the trash entry of row r with its file, and r comes back from it as it was. */
  predicate Saves(row: Reader, e: Entry, r: Record) {
    && e.kind == r.Kind() && e.path == PathOf(r) && e.payload == Some(r.Digest()) && e.snapshot == SnapshotOf(r)
    && !e.empty && RowFrom(row, e) == r && Insertable(r) && Small(r.RepoId())
  }

  /** Publish a row, purge it, apply the move: its file is in the trash. */
  function PublishAndPurge(r: Record, holder: nat): seq<Step> {
    [Publish(r, 1)] + Purge() + [Apply(0, holder, MoveOk)]
  }

  lemma PublishAndPurgeRun(row: Reader, r: Record, e: Entry, trash: map<nat, Entry>, holder: nat)
    requires holder !in trash && Saves(row, e, r)
    ensures Reaches(row, AtRest(map[], map[], trash), PublishAndPurge(r, holder),
                    AtRest(map[], map[], trash[holder := e]))
  {
    var w := AtRest(map[], map[], trash);
    var w1 := AtRest(map[1 := r], map[PathOf(r) := r.Digest()], trash);
    var w2 := w1.(rows := map[], pending := map[0 := LonelyMove(r)]);
    UpsertIntoEmpty(r);
    OneStep(row, w, Publish(r, 1), w1);
    PurgeRun(row, w1, r);
    ThenReaches(row, w, [Publish(r, 1)], w1, Purge(), w2);
    LonelyApply(row, w2, r, e, holder);
    ThenStep(row, w, [Publish(r, 1)] + Purge(), w2, Apply(0, holder, MoveOk),
             AtRest(map[], map[], trash[holder := e]));
  }

  lemma LonelyApply(row: Reader, w: World, r: Record, e: Entry, holder: nat)
    requires w.pending == map[0 := LonelyMove(r)] && w.disk.files == map[PathOf(r) := r.Digest()]
    requires holder !in w.disk.trash && Saves(row, e, r)
    ensures Next(row, w, Apply(0, holder, MoveOk),
                 w.(disk := Disk(map[], w.disk.trash[holder := e]), pending := map[]))
  {
    assert w.disk.files - {PathOf(r)} == map[] && w.pending - {0} == map[];
  }

  function Nothing(): World { AtRest(map[], map[], map[]) }

  function BothInTrash(e: Entry, f: Entry): World {
    AtRest(map[], map[], map[0 := e, 1 := f])
  }

  function TrashBoth(r: Record, s: Record): seq<Step> {
    PublishAndPurge(r, 0) + PublishAndPurge(s, 1)
  }

  /** The trash can hold two versions of one file: publish, purge, publish again, purge again. */
  lemma BothReachTheTrash(row: Reader, r: Record, s: Record, e: Entry, f: Entry)
    requires Saves(row, e, r) && Saves(row, f, s)
    ensures Reaches(row, Nothing(), TrashBoth(r, s), BothInTrash(e, f))
  {
    var w1 := AtRest(map[], map[], map[0 := e]);
    PublishAndPurgeRun(row, r, e, map[], 0);
    PublishAndPurgeRun(row, s, f, map[0 := e], 1);
    assert map[0 := e][1 := f] == map[0 := e, 1 := f];
    ThenReaches(row, Nothing(), PublishAndPurge(r, 0), w1, PublishAndPurge(s, 1), BothInTrash(e, f));
  }

  /** Both restores pass their checks; then the second runs to its end. */
  function Overlap(): seq<Step> { [Check(0, 0)] + [Check(1, 1)] + [Rename(1)] + [RowBack(1, 1)] }

  /** Row s is back with its file, and the restore of e has passed its check. */
  function Overlapped(s: Record, e: Entry): World {
    AtRest(map[1 := s], map[PathOf(s) := s.Digest()], map[0 := e]).(restoring := map[0 := Job(0, e, false)])
  }

  lemma BothCheck(row: Reader, e: Entry, f: Entry)
    requires !e.empty && !f.empty
    ensures Reaches(row, BothInTrash(e, f), [Check(0, 0)] + [Check(1, 1)],
                    BothInTrash(e, f).(restoring := map[0 := Job(0, e, false), 1 := Job(1, f, false)]))
  {
    var w := BothInTrash(e, f);
    var w1 := w.(restoring := map[0 := Job(0, e, false)]);
    var w2 := w.(restoring := map[0 := Job(0, e, false), 1 := Job(1, f, false)]);
    OneStep(row, w, Check(0, 0), w1);
    assert w1.restoring[1 := Job(1, f, false)] == w2.restoring;
    ThenStep(row, w, [Check(0, 0)], w1, Check(1, 1), w2);
  }

  lemma OverlapRun(row: Reader, s: Record, e: Entry, f: Entry)
    requires Saves(row, f, s) && e.path == f.path && !e.empty
    ensures Reaches(row, BothInTrash(e, f), Overlap(), Overlapped(s, e))
  {
    var w := BothInTrash(e, f);
    var je, jf := Job(0, e, false), Job(1, f, false);
    var w2 := w.(restoring := map[0 := je, 1 := jf]);
    var w3 := AtRest(map[], map[PathOf(s) := s.Digest()], map[0 := e])
                .(restoring := map[0 := je, 1 := jf.(filed := true)]);
    BothCheck(row, e, f);
    assert w.disk.trash - {1} == map[0 := e];
    assert w2.restoring[1 := jf.(filed := true)] == w3.restoring;
    ThenStep(row, w, [Check(0, 0)] + [Check(1, 1)], w2, Rename(1), w3);
    UpsertIntoEmpty(s);
    assert w3.restoring - {1} == map[0 := je];
    ThenStep(row, w, [Check(0, 0)] + [Check(1, 1)] + [Rename(1)], w3, RowBack(1, 1), Overlapped(s, e));
  }

  lemma ReachOverlap(row: Reader, r: Record, s: Record, e: Entry, f: Entry)
    requires Saves(row, e, r) && Saves(row, f, s) && PathOf(r) == PathOf(s)
    ensures Reaches(row, Nothing(), TrashBoth(r, s) + Overlap(), Overlapped(s, e))
  {
    BothReachTheTrash(row, r, s, e, f);
    OverlapRun(row, s, e, f);
    ThenReaches(row, Nothing(), TrashBoth(r, s), BothInTrash(e, f), Overlap(), Overlapped(s, e));
  }

  /** Then the late rename of e puts its bytes under row s. */
  lemma LateRename(row: Reader, r: Record, s: Record, e: Entry)
    requires Saves(row, e, r) && PathOf(r) == PathOf(s)
    ensures Next(row, Overlapped(s, e), Rename(0),
                 AtRest(map[1 := s], map[PathOf(s) := r.Digest()], map[]).(restoring := map[0 := Job(0, e, true)]))
  {
    var w := Overlapped(s, e);
    assert w.disk.trash - {0} == map[];
    assert w.disk.files[e.path := r.Digest()] == map[PathOf(s) := r.Digest()];
    assert w.restoring[0 := Job(0, e, true)] == map[0 := Job(0, e, true)];
  }

  /** Or a purge of s commits first: the late rename overwrites the file that is about to be moved, the
      move takes it away, and the row half of r inserts a row with no file. */
  function LateRenameUnderPurge(): seq<Step> {
    Purge() + [Rename(0)] + [Apply(0, 2, MoveOk)] + [RowBack(0, 1)]
  }

  lemma LateRenameUnderMove(row: Reader, w: World, r: Record, s: Record, e: Entry, w': World)
    requires Saves(row, e, r) && PathOf(r) == PathOf(s)
    requires w == Overlapped(s, e).(rows := map[], pending := map[0 := LonelyMove(s)])
    requires w' == World(map[], Disk(map[PathOf(s) := r.Digest()], map[]), None, map[0 := LonelyMove(s)],
                         map[0 := Job(0, e, true)])
    ensures Next(row, w, Rename(0), w')
  {
    assert w.disk.trash - {0} == map[];
    assert w.disk.files[e.path := r.Digest()] == map[PathOf(s) := r.Digest()];
    assert w.restoring[0 := Job(0, e, true)] == map[0 := Job(0, e, true)];
  }

  /** The entry the move makes now has s's snapshot and r's bytes. */
  function MixedUp(r: Record, s: Record): Entry {
    Entry(s.Kind(), PathOf(s), false, Some(r.Digest()), SnapshotOf(s))
  }

  lemma LateRun(row: Reader, r: Record, s: Record, e: Entry)
    requires Saves(row, e, r) && PathOf(r) == PathOf(s)
    ensures Reaches(row, Overlapped(s, e), LateRenameUnderPurge(),
                    AtRest(map[1 := r], map[], map[2 := MixedUp(r, s)]))
  {
    var w0 := Overlapped(s, e);
    var done := map[0 := Job(0, e, true)];
    var w1 := w0.(rows := map[], pending := map[0 := LonelyMove(s)]);
    var w2 := World(map[], Disk(map[PathOf(s) := r.Digest()], map[]), None, map[0 := LonelyMove(s)], done);
    var w3 := World(map[], Disk(map[], map[2 := MixedUp(r, s)]), None, map[], done);
    PurgeRun(row, w0, s);
    LateRenameUnderMove(row, w1, r, s, e, w2);
    ThenStep(row, w0, Purge(), w1, Rename(0), w2);
    assert w2.disk.files - {PathOf(s)} == map[] && w2.pending - {0} == map[];
    assert AfterMove(w2.disk, LonelyMove(s), 2, MoveOk) == w3.disk;
    ThenStep(row, w0, Purge() + [Rename(0)], w2, Apply(0, 2, MoveOk), w3);
    UpsertIntoEmpty(r);
    assert w3.restoring - {0} == map[];
    ThenStep(row, w0, Purge() + [Rename(0)] + [Apply(0, 2, MoveOk)], w3, RowBack(0, 1),
             AtRest(map[1 := r], map[], map[2 := MixedUp(r, s)]));
  }

  // ---- The two accidents, for the program's own reader ----

  /** Two versions of one file, either of which a restore brings back: the path is the same, the bytes are
      not. */
  predicate TwoVersions(r: Record, s: Record) {
    && PathOf(r) == PathOf(s) && r.Digest() != s.Digest()
    && Restored(r) == r && Insertable(r) && Small(r.RepoId())
    && Restored(s) == s && Insertable(s) && Small(s.RepoId())
  }

  function FilledEntry(r: Record): Entry {
    Entry(r.Kind(), PathOf(r), false, Some(r.Digest()), SnapshotOf(r))
  }

  lemma FilledSaves(r: Record)
    requires Restored(r) == r && Insertable(r) && Small(r.RepoId())
    ensures Saves(RowOf, FilledEntry(r), r)
  {
  }

  /** Starting from nothing: two versions of a file are trashed, both restores pass their checks, the
      second completes, and the late rename of the first puts its bytes under the second's row. */
  lemma OverlapPutsWrongBytes(r: Record, s: Record)
    requires TwoVersions(r, s)
    ensures exists w :: Reaches(RowOf, Nothing(), TrashBoth(r, s) + Overlap() + [Rename(0)], w) &&
              w.rows == map[1 := s] && w.disk.files == map[PathOf(s) := r.Digest()] &&
              !Intact(w.rows, w.disk.files)
  {
    var e := FilledEntry(r);
    FilledSaves(r);
    FilledSaves(s);
    ReachOverlap(RowOf, r, s, e, FilledEntry(s));
    LateRename(RowOf, r, s, e);
    var w := AtRest(map[1 := s], map[PathOf(s) := r.Digest()], map[]).(restoring := map[0 := Job(0, e, true)]);
    ThenStep(RowOf, Nothing(), TrashBoth(r, s) + Overlap(), Overlapped(s, e), Rename(0), w);
    WrongBytes(w, 1);
  }

  /** The same, with a purge of the second row and its move around the late rename: the first row comes
      back without a file. */
  lemma OverlapLosesTheFile(r: Record, s: Record)
    requires TwoVersions(r, s)
    ensures exists w :: Reaches(RowOf, Nothing(), TrashBoth(r, s) + Overlap() + LateRenameUnderPurge(), w) &&
              w.rows == map[1 := r] && w.disk.files == map[] && !Intact(w.rows, w.disk.files)
  {
    var e := FilledEntry(r);
    FilledSaves(r);
    FilledSaves(s);
    ReachOverlap(RowOf, r, s, e, FilledEntry(s));
    LateRun(RowOf, r, s, e);
    var w := AtRest(map[1 := r], map[], map[2 := MixedUp(r, s)]);
    ThenReaches(RowOf, Nothing(), TrashBoth(r, s) + Overlap(), Overlapped(s, e), LateRenameUnderPurge(), w);
    WrongBytes(w, 1);
  }

  lemma WrongBytes(w: World, id: int)
    requires id in w.rows && !HeldAt(w.disk.files, PathOf(w.rows[id]), w.rows[id].Digest())
    ensures !Intact(w.rows, w.disk.files)
  {
  }

  /** Two versions exist: a chart version published again with other contents. */
  lemma TwoVersionsExist()
    ensures var c := HelmChart(1, "app", "1.0.0", "", "", "[]", "[]", 7, "sha256:aa", "app-1.0.0.tgz");
            TwoVersions(HelmRecord(c), HelmRecord(c.(digest := "sha256:bb")))
  {
    var c := HelmChart(1, "app", "1.0.0", "", "", "[]", "[]", 7, "sha256:aa", "app-1.0.0.tgz");
    assert "sha256:aa"[7] != "sha256:bb"[7];
    RestoreUpTo53Bits(HelmRecord(c));
    RestoreUpTo53Bits(HelmRecord(c.(digest := "sha256:bb")));
  }

  // ---- Publishing at a path in use ----

  /** A file published where a committed purge has still to move one away goes with it. */
  lemma PublishUnderMoveLosesTheFile(row: Reader, w: World, ticket: nat, r: Record, newId: int, rows': Table,
                                     holder: nat)
    requires w.tx.None? && newId !in w.rows && IsUpsert(w.rows, r, newId, rows') && Small(r.RepoId())
    requires ticket in w.pending && !w.pending[ticket].retained && w.pending[ticket].path == PathOf(r)
    requires holder !in w.disk.trash
    ensures exists w' :: Reaches(row, w, [Publish(r, newId)] + [Apply(ticket, holder, MoveOk)], w') &&
              w'.rows == rows' && !Intact(w'.rows, w'.disk.files)
  {
    var w1 := w.(rows := rows', disk := w.disk.(files := w.disk.files[PathOf(r) := r.Digest()]));
    var w2 := w1.(disk := AfterMove(w1.disk, w.pending[ticket], holder, MoveOk), pending := w.pending - {ticket});
    OneStep(row, w, Publish(r, newId), w1);
    ThenStep(row, w, [Publish(r, newId)], w1, Apply(ticket, holder, MoveOk), w2);
    var id :| TakesId(w.rows, r, newId, id) && rows' == w.rows[id := r];
    WrongBytes(w2, id);
  }

  /** A file published under a restore that has passed its check is replaced by the restored bytes. */
  lemma PublishUnderRestoreIsReplaced(row: Reader, w: World, job: nat, r: Record, newId: int, rows': Table)
    requires w.tx.None? && newId !in w.rows && IsUpsert(w.rows, r, newId, rows') && Small(r.RepoId())
    requires CanRename(w, job) && w.restoring[job].entry.path == PathOf(r)
    requires w.restoring[job].entry.payload.value != r.Digest()
    ensures exists w' :: Reaches(row, w, [Publish(r, newId)] + [Rename(job)], w') &&
              w'.rows == rows' && !Intact(w'.rows, w'.disk.files)
  {
    var w1 := w.(rows := rows', disk := w.disk.(files := w.disk.files[PathOf(r) := r.Digest()]));
    var w2 := w1.(disk := AfterRename(w1.disk, w.restoring[job].holder),
                  restoring := w.restoring[job := w.restoring[job].(filed := true)]);
    OneStep(row, w, Publish(r, newId), w1);
    ThenStep(row, w, [Publish(r, newId)], w1, Rename(job), w2);
    var id :| TakesId(w.rows, r, newId, id) && rows' == w.rows[id := r];
    WrongBytes(w2, id);
  }
}
