/** What a run of the drift engine means: which rows it deletes, which files it moves, and what the
    guards promise over any number of runs. */
module DriftTheorems {
  import opened Options
  import opened Records
  import opened DriftEngine

  /** The loaded rows are rows of the table, one per id. */
  predicate FromTable(rows: Table, order: seq<LocalRow>) {
    && DistinctIds(order)
    && forall r :: r in order ==> r.id in rows && rows[r.id] == r.rec
  }

  /** The tables' UNIQUE constraints. */
  predicate UniqueRows(rows: Table) {
    forall i, j :: i in rows && j in rows && UniqueKeyOf(rows[i]) == UniqueKeyOf(rows[j]) ==> i == j
  }

  // ---- Which files move ----

  predicate Uses(rows: Table, p: Path) {
    exists id :: id in rows && PathOf(rows[id]) == p
  }

  /** The reference count of an APT row is non-zero exactly when some row still uses its file. */
  lemma PoolRefsMeaning(rows: Table, r: Record)
    requires r.DEBRecord?
    ensures PoolRefs(rows, r.deb) != {} <==> Uses(rows, PathOf(r))
  {
    forall id | id in rows ensures SharesPool(rows[id], r.deb) <==> PathOf(rows[id]) == PathOf(r) {}
    if Uses(rows, PathOf(r)) {
      var id :| id in rows && PathOf(rows[id]) == PathOf(r);
      assert id in PoolRefs(rows, r.deb);
    }
    if !Uses(rows, PathOf(r)) {
      assert forall id :: id in rows ==> PathOf(rows[id]) != PathOf(r);
      assert forall id :: id !in PoolRefs(rows, r.deb);
    }
  }

  /** Move i of an APT path is retained exactly when the file still has a user in the final table
      or a later row of the same list. */
  lemma RetainedMeaning(rows: Table, order: seq<LocalRow>, i: nat)
    requires FromTable(rows, order) && i < |order| && order[i].rec.DEBRecord?
    ensures var p := PathOf(order[i].rec);
            Moves(rows, order)[i].retained <==>
            Uses(rows - IdsOf(order), p) || exists j :: i < j < |order| && PathOf(order[j].rec) == p
  {
    var p := PathOf(order[i].rec);
    PoolRefsMeaning(rows - IdsOf(order[..i + 1]), order[i].rec);
    UsedAfter(rows, order, i, p);
  }

  /** Move i of an APT row in the columns of the table: where it goes, and that it is metadata-only exactly
      while a row left after the first i + 1 deletions names the file. */
  lemma APTMove(rows: Table, order: seq<LocalRow>, i: nat)
    requires i < |order| && order[i].rec.DEBRecord?
    ensures var p, m := order[i].rec.deb, Moves(rows, order)[i];
            && (p.storagePoolPath != "" ==> m.path == Path(DEB, p.repoId, p.storagePoolPath))
            && (p.storagePoolPath == "" ==> m.path == Path(DEB, p.repoId, p.filename))
            && (m.retained <==> NamedBy(rows - IdsOf(order[..i + 1]), p))
  {
    PoolRefsInColumns(rows - IdsOf(order[..i + 1]), order[i].rec.deb);
  }

  /** The pool path decides, not the file name: the only row of a pool file is purged, another component has
      a file of the same name, and the move takes the purged row's file all the same. */
  lemma PoolPathBeatsFileName(p: DEBPackage, q: DEBPackage)
    requires p.repoId == q.repoId && p.filename == q.filename
    requires p.storagePoolPath != "" && q.storagePoolPath != "" && p.storagePoolPath != q.storagePoolPath
    ensures var rows: Table := map[1 := DEBRecord(p), 2 := DEBRecord(q)];
            var m := Moves(rows, [LocalRow(1, DEBRecord(p), Key("", "", ""))])[0];
            m.path == Path(DEB, p.repoId, p.storagePoolPath) && !m.retained
  {
    var rows: Table := map[1 := DEBRecord(p), 2 := DEBRecord(q)];
    var order := [LocalRow(1, DEBRecord(p), Key("", "", ""))];
    APTMove(rows, order, 0);
    assert order[..1] == order && IdsOf(order) == {1} by { assert order[0] in order; }
    assert rows - {1} == map[2 := DEBRecord(q)];
  }

  /** After the first i + 1 deletions a file has a user exactly if it has one after all of them or is the
      file of a later row. */
  lemma UsedAfter(rows: Table, order: seq<LocalRow>, i: nat, p: Path)
    requires FromTable(rows, order) && i < |order|
    ensures Uses(rows - IdsOf(order[..i + 1]), p) <==>
            Uses(rows - IdsOf(order), p) || exists j :: i < j < |order| && PathOf(order[j].rec) == p
  {
    var left := rows - IdsOf(order[..i + 1]);
    if Uses(left, p) {
      var id :| id in left && PathOf(left[id]) == p;
      if id in IdsOf(order) {
        var r :| r in order && r.id == id;
        var j :| 0 <= j < |order| && order[j] == r;
        assert j > i;
      } else {
        assert id in rows - IdsOf(order);
      }
    }
    if Uses(rows - IdsOf(order), p) {
      var id :| id in rows - IdsOf(order) && PathOf(rows[id]) == p;
      assert id in left && left[id] == rows[id];
    }
    if j :| i < j < |order| && PathOf(order[j].rec) == p {
      assert order[j] in order && order[j].id !in IdsOf(order[..i + 1]);
      assert order[j].id in left;
    }
  }

  /** Whether move i is the one physical move of p. */
  predicate OnlyPhysical(moves: seq<PendingMove>, p: Path, i: nat) {
    && i < |moves| && moves[i].path == p && !moves[i].retained
    && forall j :: 0 <= j < |moves| && moves[j].path == p && j != i ==> j < i && moves[j].retained
  }

  /** The move list of one APT pool file: all metadata-only while some membership survives the run;
      otherwise exactly one physical move, after every metadata-only snapshot of that file. */
  lemma PoolFileMovedOnce(rows: Table, order: seq<LocalRow>, p: Path)
    requires FromTable(rows, order) && p.kind == DEB
    requires exists i :: 0 <= i < |order| && PathOf(order[i].rec) == p
    ensures Uses(rows - IdsOf(order), p) ==>
              forall j :: 0 <= j < |order| && Moves(rows, order)[j].path == p ==> Moves(rows, order)[j].retained
    ensures !Uses(rows - IdsOf(order), p) ==> exists i :: OnlyPhysical(Moves(rows, order), p, i)
  {
    var moves := Moves(rows, order);
    forall j: nat | j < |order| && moves[j].path == p
      ensures moves[j].retained <==>
              Uses(rows - IdsOf(order), p) || exists k :: j < k < |order| && PathOf(order[k].rec) == p
    {
      RetainedMeaning(rows, order, j);
    }
    if !Uses(rows - IdsOf(order), p) {
      var i := LastWithPath(order, p);
      assert OnlyPhysical(moves, p, i);
    }
  }

  lemma LastWithPath(order: seq<LocalRow>, p: Path) returns (i: nat)
    requires exists i :: 0 <= i < |order| && PathOf(order[i].rec) == p
    ensures i < |order| && PathOf(order[i].rec) == p
    ensures forall j :: i < j < |order| ==> PathOf(order[j].rec) != p
  {
    i := |order| - 1;
    while PathOf(order[i].rec) != p
      invariant i < |order|
      invariant forall j :: i < j < |order| ==> PathOf(order[j].rec) != p
      decreases i
    {
      if i == 0 { assert false; }
      i := i - 1;
    }
  }

  /** Some surviving row points at a file the run moves away. */
  predicate Strands(rows: Table, order: seq<LocalRow>) {
    exists id, i :: id in rows - IdsOf(order) && 0 <= i < |order| &&
                    PathOf(rows[id]) == PathOf(order[i].rec) && !Moves(rows, order)[i].retained
  }

  /** A run strands no surviving row exactly when no surviving row shares its file with a purged PyPI,
      RPM or Helm row; the APT reference count takes care of its own files. */
  lemma StrandsExactly(rows: Table, order: seq<LocalRow>)
    requires FromTable(rows, order)
    ensures Strands(rows, order) <==>
            exists id, i :: id in rows - IdsOf(order) && 0 <= i < |order| &&
                            PathOf(rows[id]) == PathOf(order[i].rec) && !order[i].rec.DEBRecord?
  {
    forall id, i: nat | id in rows - IdsOf(order) && i < |order| && PathOf(rows[id]) == PathOf(order[i].rec)
      ensures Moves(rows, order)[i].retained <==> order[i].rec.DEBRecord?
    {
      if order[i].rec.DEBRecord? {
        RetainedMeaning(rows, order, i);
      }
    }
  }

  // ---- Which rows go ----

  /** An adapter's projection: the key a row is compared under, None if the row does not take part. */
  type Projection = Record -> Option<Key>

  /** local is what the adapter loads from the table. */
  ghost predicate Loads(project: Projection, rows: Table, local: seq<LocalRow>) {
    && FromTable(rows, local)
    && (forall r :: r in local ==> project(r.rec) == Some(r.key))
    && (forall id :: id in rows && project(rows[id]).Some? ==> exists r :: r in local && r.id == id)
  }

  predicate Unlisted(project: Projection, upstream: seq<Key>, r: Record) {
    project(r).Some? && project(r).value !in upstream
  }

  /** A run that is neither skipped nor failed deletes exactly the rows whose key is absent upstream. */
  lemma PurgesExactlyTheUnlisted(project: Projection, rows: Table, local: seq<LocalRow>, upstream: seq<Key>,
                                 order: seq<LocalRow>)
    requires Loads(project, rows, local)
    requires multiset(order) == multiset(Drift(local, upstream))
    ensures FromTable(rows, order)
    ensures IdsOf(order) == set id | id in rows && Unlisted(project, upstream, rows[id])
    ensures |order| == |IdsOf(order)|
  {
    DriftMembers(local, upstream);
    DriftDistinct(local, upstream);
    SameElements(order, Drift(local, upstream));
    DistinctByMultiset(order, Drift(local, upstream));
    forall id | id in rows && Unlisted(project, upstream, rows[id]) ensures id in IdsOf(order) {
      var r :| r in local && r.id == id;
      assert r in order;
    }
    IdCount(order);
  }

  lemma SameElements(a: seq<LocalRow>, b: seq<LocalRow>)
    requires multiset(a) == multiset(b)
    ensures forall r :: r in a <==> r in b
  {
    forall r ensures r in a <==> r in b {
      assert r in a <==> r in multiset(a);
      assert r in b <==> r in multiset(b);
    }
  }

  lemma {:induction false} DistinctByMultiset(a: seq<LocalRow>, b: seq<LocalRow>)
    requires multiset(a) == multiset(b) && DistinctIds(b)
    ensures DistinctIds(a)
  {
    forall i, j | 0 <= i < j < |a| ensures a[i].id != a[j].id {
      SameElements(a, b);
      if a[i].id == a[j].id {
        assert a[i] in b && a[j] in b;
        assert a[i] == a[j];
        TwiceCounts(a, i, j);
        OnceCounts(b, a[i]);
      }
    }
  }

  lemma TwiceCounts(a: seq<LocalRow>, i: nat, j: nat)
    requires i < j < |a| && a[i] == a[j]
    ensures multiset(a)[a[i]] >= 2
  {
    assert a == a[..i] + [a[i]] + a[i + 1..j] + [a[j]] + a[j + 1..];
  }

  lemma {:induction false} OnceCounts(b: seq<LocalRow>, r: LocalRow)
    requires DistinctIds(b)
    ensures multiset(b)[r] <= 1
  {
    if b != [] {
      var n := |b| - 1;
      OnceCounts(b[..n], r);
      assert b == b[..n] + [b[n]];
      if b[n] == r {
        assert forall k :: 0 <= k < n ==> b[..n][k].id != r.id;
        assert r !in b[..n];
      }
    }
  }

  lemma {:induction false} IdCount(rows: seq<LocalRow>)
    requires DistinctIds(rows)
    ensures |IdsOf(rows)| == |rows|
  {
    if rows != [] {
      var n := |rows| - 1;
      IdCount(rows[..n]);
      assert rows == rows[..n] + [rows[n]];
      assert IdsOf(rows) == IdsOf(rows[..n]) + {rows[n].id};
    }
  }

  /** The same run again, against the same upstream, is not skipped and purges nothing. */
  lemma SecondRunPurgesNothing(project: Projection, rows: Table, local: seq<LocalRow>, upstream: seq<Key>,
                               local': seq<LocalRow>, pct: int, force: bool)
    requires Loads(project, rows, local) && !EmptyUpstream(upstream, local)
    requires Loads(project, rows - IdsOf(Drift(local, upstream)), local')
    requires pct <= 100 && |local'| <= MAX_ROWS
    ensures Drift(local', upstream) == []
    ensures !EmptyUpstream(upstream, local') && !Blocked(0, |local'|, pct, force)
  {
    var left := rows - IdsOf(Drift(local, upstream));
    forall r | r in local' ensures r in local && r.key in upstream {
      KeptRowIsListed(project, rows, local, upstream, left, local', r);
    }
    ListedRowsDoNotDrift(local', upstream);
    NoDriftNotBlocked(|local'|, pct, force);
  }

  lemma ListedRowsDoNotDrift(local: seq<LocalRow>, upstream: seq<Key>)
    requires forall r :: r in local ==> r.key in upstream
    ensures Drift(local, upstream) == [] && !EmptyUpstream(upstream, local)
  {
    DriftMembers(local, upstream);
    assert forall r :: r !in Drift(local, upstream);
    if local != [] { assert local[0] in local; }
  }

  lemma KeptRowIsListed(project: Projection, rows: Table, local: seq<LocalRow>, upstream: seq<Key>, left: Table,
                        local': seq<LocalRow>, r: LocalRow)
    requires Loads(project, rows, local) && left == rows - IdsOf(Drift(local, upstream))
    requires Loads(project, left, local') && r in local'
    ensures r in local && r.key in upstream
  {
    assert project(rows[r.id]).Some?;
    var s :| s in local && s.id == r.id;
    assert s == r;
    DriftMembers(local, upstream);
  }

  // ---- The percent guard ----

  lemma WrapIsIdentity(n: int)
    requires -INT64_LIMIT <= n < INT64_LIMIT
    ensures Wrap64(n) == n
  {
  }

  const MAX_ROWS: int := (INT64_LIMIT - 1) / 100

  /** Up to 2^63/100 rows the int64 cross-multiplication is the exact comparison of percentages. */
  lemma GuardIsExact(driftN: nat, localN: nat, pct: int, force: bool)
    requires driftN <= localN <= MAX_ROWS && pct <= 100
    ensures Blocked(driftN, localN, pct, force) <==> pct > 0 && !force && driftN * 100 > pct * localN
  {
    WrapIsIdentity(driftN * 100);
    if pct > 0 {
      Scaled(localN, pct);
      WrapIsIdentity(pct * localN);
    }
  }

  lemma Scaled(n: nat, pct: int)
    requires 0 <= pct <= 100
    ensures 0 <= pct * n <= 100 * n
  {
  }

  lemma NoDriftNotBlocked(localN: nat, pct: int, force: bool)
    requires localN <= MAX_ROWS && pct <= 100
    ensures !Blocked(0, localN, pct, force)
  {
    GuardIsExact(0, localN, pct, force);
    if pct > 0 { assert pct * localN >= 0; }
  }

  /** And no further: for a mirror of localN rows the guard decides as the exact comparison for every
      drift and every percentage if and only if localN is at most MAX_ROWS. */
  lemma GuardExactlyUpTo(localN: nat)
    requires localN < INT64_LIMIT
    ensures (forall driftN: nat, pct :: driftN <= localN && 0 < pct < 100 ==> GuardDecides(driftN, localN, pct)) <==>
            localN <= MAX_ROWS
  {
    if localN <= MAX_ROWS {
      forall driftN: nat, pct | driftN <= localN && 0 < pct < 100 ensures GuardDecides(driftN, localN, pct) {
        GuardIsExact(driftN, localN, pct, false);
      }
    } else {
      assert Wrap64((MAX_ROWS + 1) * 100) < 0;
      WrapIsIdentity(1 * localN);
      assert !GuardDecides(MAX_ROWS + 1, localN, 1);
    }
  }

  /** The unforced guard is right about driftN rows of localN. */
  predicate GuardDecides(driftN: nat, localN: nat, pct: int) {
    Blocked(driftN, localN, pct, false) <==> driftN * 100 > pct * localN
  }

  /** One row more and the product wraps: a mirror that lost every row passes a 50 percent guard. */
  lemma GuardWrapsBeyond()
    ensures !Blocked(MAX_ROWS + 1, MAX_ROWS + 1, 50, false)
  {
  }

  /** One committed or skipped or rolled-back run, as far as the table is concerned. */
  ghost predicate RunTable(mirror: Record -> bool, rows: Table, local: seq<LocalRow>, upstream: seq<Key>, pct: int,
                           force: bool, rows': Table)
  {
    && FromTable(rows, local)
    && (forall r :: r in local ==> mirror(r.rec))
    && (rows' == rows || (!EmptyUpstream(upstream, local) && !Blocked(|Drift(local, upstream)|, |local|, pct, force) &&
                          rows' == rows - IdsOf(Drift(local, upstream))))
  }

  function MirrorIds(mirror: Record -> bool, rows: Table): set<int> {
    set id | id in rows && mirror(rows[id])
  }

  function Power(b: nat, n: nat): nat {
    if n == 0 then 1 else b * Power(b, n - 1)
  }

  /** One unforced run keeps at least (100 - pct) percent of the mirror, whatever upstream says. */
  lemma OneRunKeeps(mirror: Record -> bool, rows: Table, local: seq<LocalRow>, upstream: seq<Key>, pct: int,
                    rows': Table)
    requires RunTable(mirror, rows, local, upstream, pct, false, rows')
    requires 0 < pct < 100 && |MirrorIds(mirror, rows)| <= MAX_ROWS
    ensures MirrorIds(mirror, rows') <= MirrorIds(mirror, rows)
    ensures |MirrorIds(mirror, rows')| * 100 >= |MirrorIds(mirror, rows)| * (100 - pct)
    ensures |MirrorIds(mirror, rows')| <= |MirrorIds(mirror, rows)|
  {
    var before := MirrorIds(mirror, rows);
    if rows' != rows {
      var drift := Drift(local, upstream);
      DriftInMirror(mirror, rows, local, upstream);
      GuardIsExact(|drift|, |local|, pct, false);
      assert MirrorIds(mirror, rows') == before - IdsOf(drift);
      assert |before - IdsOf(drift)| == |before| - |drift|;
      ShareKept(|drift|, |local|, |before|, pct);
    }
    Subset(MirrorIds(mirror, rows'), before);
  }

  lemma ShareKept(drift: nat, local: nat, mirror: nat, pct: int)
    requires drift * 100 <= pct * local && local <= mirror && 0 < pct < 100
    ensures (mirror - drift) * 100 >= mirror * (100 - pct)
  {
    assert pct * local <= pct * mirror;
  }

  lemma DriftInMirror(mirror: Record -> bool, rows: Table, local: seq<LocalRow>, upstream: seq<Key>)
    requires FromTable(rows, local) && forall r :: r in local ==> mirror(r.rec)
    ensures IdsOf(Drift(local, upstream)) <= MirrorIds(mirror, rows)
    ensures |IdsOf(Drift(local, upstream))| == |Drift(local, upstream)| <= |local| <= |MirrorIds(mirror, rows)|
  {
    DriftMembers(local, upstream);
    DriftDistinct(local, upstream);
    IdCount(Drift(local, upstream));
    IdCount(local);
    Subset(IdsOf(Drift(local, upstream)), IdsOf(local));
    Subset(IdsOf(local), MirrorIds(mirror, rows));
  }

  lemma Subset<T>(a: set<T>, b: set<T>)
    requires a <= b
    ensures |a| <= |b|
  {
    assert b == a + (b - a);
  }

  datatype RunInput = RunInput(local: seq<LocalRow>, upstream: seq<Key>, rows: Table)

  /** A history of unforced runs, each with its own upstream; rows is the table after each run. */
  ghost predicate History(mirror: Record -> bool, start: Table, runs: seq<RunInput>, pct: int) {
    runs == [] ||
    (RunTable(mirror, start, runs[0].local, runs[0].upstream, pct, false, runs[0].rows) &&
     History(mirror, runs[0].rows, runs[1..], pct))
  }

  function Final(start: Table, runs: seq<RunInput>): Table {
    if runs == [] then start else runs[|runs| - 1].rows
  }

  /** After n runs L_n * 100^n >= L_0 * (100 - pct)^n. */
  lemma {:induction false} RunsDecayBound(mirror: Record -> bool, start: Table, runs: seq<RunInput>, pct: int)
    requires History(mirror, start, runs, pct) && 0 < pct < 100 && |MirrorIds(mirror, start)| <= MAX_ROWS
    ensures |MirrorIds(mirror, Final(start, runs))| * Power(100, |runs|) >=
            |MirrorIds(mirror, start)| * Power(100 - pct, |runs|)
  {
    if runs != [] {
      var next := runs[0].rows;
      OneRunKeeps(mirror, start, runs[0].local, runs[0].upstream, pct, next);
      RunsDecayBound(mirror, next, runs[1..], pct);
      assert Final(next, runs[1..]) == Final(start, runs);
      var l0, l1, ln := |MirrorIds(mirror, start)|, |MirrorIds(mirror, next)|, |MirrorIds(mirror, Final(start, runs))|;
      Chain(l0, l1, ln, 100 - pct, Power(100 - pct, |runs| - 1), Power(100, |runs| - 1));
    }
  }

  lemma Chain(l0: nat, l1: nat, ln: nat, k: nat, p: nat, q: nat)
    requires l1 * 100 >= l0 * k && ln * q >= l1 * p
    ensures ln * (100 * q) >= l0 * (k * p)
  {
    assert ln * (100 * q) == 100 * (ln * q);
    assert 100 * (ln * q) >= 100 * (l1 * p);
    assert 100 * (l1 * p) == (l1 * 100) * p;
    assert (l1 * 100) * p >= (l0 * k) * p;
    assert (l0 * k) * p == l0 * (k * p);
  }

  /** Unforced runs never empty a mirror that had a row. */
  lemma RunsNeverEmpty(mirror: Record -> bool, start: Table, runs: seq<RunInput>, pct: int)
    requires History(mirror, start, runs, pct) && 0 < pct < 100 && 0 < |MirrorIds(mirror, start)| <= MAX_ROWS
    ensures MirrorIds(mirror, Final(start, runs)) != {}
  {
    RunsDecayBound(mirror, start, runs, pct);
    PowerPositive(100 - pct, |runs|);
    ProductPositive(|MirrorIds(mirror, start)|, Power(100 - pct, |runs|));
    if MirrorIds(mirror, Final(start, runs)) == {} { assert false; }
  }

  lemma ProductPositive(a: nat, b: nat)
    requires a > 0 && b > 0
    ensures a * b > 0
  {
  }

  lemma PowerPositive(b: nat, n: nat)
    requires b > 0
    ensures Power(b, n) > 0
  {
    if n > 0 {
      PowerPositive(b, n - 1);
      assert b * Power(b, n - 1) >= 1 * Power(b, n - 1);
    }
  }
}
