/** When can two rows of one table name the same file? The drift engine moves a purged row's file away;
    for each kind of repository this says whether that can take the file of a row that stays. */
module SharedFiles {
  import opened Options
  import opened Records
  import opened DriftEngine
  import opened DriftTheorems
  import opened DriftAdapters
  import opened DriftStore
  import opened DriftUndo

  /** local was loaded by the adapter, order is the drift in the order it was purged. */
  ghost predicate Purging(project: Projection, rows: Table, local: seq<LocalRow>, upstream: seq<Key>,
                          order: seq<LocalRow>)
  {
    Loads(project, rows, local) && multiset(order) == multiset(Drift(local, upstream))
  }

  /** If rows that share a file have the same key, they are purged together and nothing is stranded. */
  lemma SharersGoTogether(project: Projection, rows: Table, local: seq<LocalRow>, upstream: seq<Key>,
                          order: seq<LocalRow>)
    requires Purging(project, rows, local, upstream, order)
    requires forall id, r :: id in rows && r in local && PathOf(rows[id]) == PathOf(r.rec) && !r.rec.DEBRecord? ==>
                             project(rows[id]) == Some(r.key)
    ensures !Strands(rows, order)
  {
    PurgesExactlyTheUnlisted(project, rows, local, upstream, order);
    StrandsExactly(rows, order);
    forall id, i | id in rows - IdsOf(order) && 0 <= i < |order| && PathOf(rows[id]) == PathOf(order[i].rec)
      ensures order[i].rec.DEBRecord?
    {
      SameElements(order, Drift(local, upstream));
      DriftMembers(local, upstream);
      assert order[i] in local && order[i].key !in upstream;
      assert !Unlisted(project, upstream, rows[id]);
    }
  }

  /** APT files may be shared freely: the reference count looks after them. */
  lemma APTRunStrandsNothing(suites: seq<AptSuite>, synced: seq<string>, repo: int, rows: Table, local: seq<LocalRow>,
                             upstream: seq<Key>, order: seq<LocalRow>)
    requires Purging(DEBProjection(suites, synced, repo), rows, local, upstream, order)
    ensures !Strands(rows, order)
  {
    forall r | r in local ensures r.rec.DEBRecord? {
      assert DEBProjection(suites, synced, repo)(r.rec).Some?;
    }
    SharersGoTogether(DEBProjection(suites, synced, repo), rows, local, upstream, order);
  }

  // ---- PyPI: the table's UNIQUE(repo, filename) ----

  lemma PyPIFilesAreDistinct(f: PyPIFile, g: PyPIFile)
    requires PathOf(PyPIRecord(f)) == PathOf(PyPIRecord(g))
    ensures UniqueKeyOf(PyPIRecord(f)) == UniqueKeyOf(PyPIRecord(g))
  {
    assert ("packages/" + f.filename)[9..] == f.filename && ("packages/" + g.filename)[9..] == g.filename;
  }

  lemma PyPIRunStrandsNothing(repo: int, rows: Table, local: seq<LocalRow>, upstream: seq<Key>, order: seq<LocalRow>)
    requires Purging(PyPIProjection(upstream, repo), rows, local, upstream, order) && UniqueRows(rows)
    ensures !Strands(rows, order)
  {
    var project := PyPIProjection(upstream, repo);
    forall id, r | id in rows && r in local && PathOf(rows[id]) == PathOf(r.rec)
      ensures project(rows[id]) == Some(r.key)
    {
      assert OfRepo(PyPI, repo, r.rec) && rows[r.id] == r.rec;
      PyPIFilesAreDistinct(rows[id].pypi, r.rec.pypi);
      assert id == r.id;
    }
    SharersGoTogether(project, rows, local, upstream, order);
  }

  // ---- RPM: the canonical file name ----

  /** Cutting a string at its last separator. */
  lemma {:induction false} LastSeparator(p: string, q: string, c: char, a: string, b: string)
    requires c !in a && c !in b
    requires p + [c] + a == q + [c] + b
    ensures p == q && a == b
  {
    var s, t := p + [c] + a, q + [c] + b;
    if a == "" || b == "" {
      assert s[|s| - 1] == t[|t| - 1] == c;
      assert s[|s| - 1] == (p + [c] + a)[|p| + |a|] && t[|t| - 1] == (q + [c] + b)[|q| + |b|];
      assert s[..|s| - 1] == p && t[..|t| - 1] == q;
    } else {
      var a', b' := a[..|a| - 1], b[..|b| - 1];
      assert s[..|s| - 1] == p + [c] + a' && t[..|t| - 1] == q + [c] + b';
      LastSeparator(p, q, c, a', b');
      assert a[|a| - 1] == s[|s| - 1] == t[|t| - 1] == b[|b| - 1];
      assert a == a' + [a[|a| - 1]] && b == b' + [b[|b| - 1]];
    }
  }

  function CanonicalName(p: RPMPackage): string {
    p.name + ['-'] + p.version + ['-'] + p.release + ['.'] + p.arch + ".rpm"
  }

  /** Every ingest path names the file after the package; the RPM format keeps the separators out. */
  predicate Canonical(p: RPMPackage) {
    p.filename == CanonicalName(p) && '-' !in p.version && '-' !in p.release && '.' !in p.arch
  }

  /** The file name has no epoch, and neither has the drift key: same file, same key. */
  lemma RPMFileNamesTheKey(p: RPMPackage, q: RPMPackage)
    requires Canonical(p) && Canonical(q) && PathOf(RPMRecord(p)) == PathOf(RPMRecord(q))
    ensures p.name == q.name && p.version == q.version && p.release == q.release && p.arch == q.arch
  {
    assert ("packages/" + p.filename)[9..] == p.filename && ("packages/" + q.filename)[9..] == q.filename;
    var pv, qv := p.name + ['-'] + p.version, q.name + ['-'] + q.version;
    var pr, qr := pv + ['-'] + p.release, qv + ['-'] + q.release;
    var pa, qa := pr + ['.'] + p.arch, qr + ['.'] + q.arch;
    assert pa == (pa + ".rpm")[..|pa + ".rpm"| - 4] == (qa + ".rpm")[..|qa + ".rpm"| - 4] == qa;
    LastSeparator(pr, qr, '.', p.arch, q.arch);
    LastSeparator(pv, qv, '-', p.release, q.release);
    LastSeparator(p.name, q.name, '-', p.version, q.version);
  }

  lemma RPMRunStrandsNothing(repo: int, rows: Table, local: seq<LocalRow>, upstream: seq<Key>, order: seq<LocalRow>)
    requires Purging(RPMProjection(repo), rows, local, upstream, order)
    requires forall id :: id in rows && rows[id].RPMRecord? ==> Canonical(rows[id].rpm)
    ensures !Strands(rows, order)
  {
    var project := RPMProjection(repo);
    forall id, r | id in rows && r in local && PathOf(rows[id]) == PathOf(r.rec)
      ensures project(rows[id]) == Some(r.key)
    {
      assert OfRepo(RPM, repo, r.rec) && rows[r.id] == r.rec;
      RPMFileNamesTheKey(rows[id].rpm, r.rec.rpm);
    }
    SharersGoTogether(project, rows, local, upstream, order);
  }

  /** Two builds that differ in epoch only are two rows with one file and one key: purged together ... */
  lemma EpochTwinsShareAFile(p: RPMPackage, epoch: int)
    requires Canonical(p) && epoch != p.epoch
    ensures var twin := p.(epoch := epoch);
            && Canonical(twin) && UniqueKeyOf(RPMRecord(twin)) != UniqueKeyOf(RPMRecord(p))
            && PathOf(RPMRecord(twin)) == PathOf(RPMRecord(p))
            && RPMProjection(p.repoId)(RPMRecord(twin)) == RPMProjection(p.repoId)(RPMRecord(p))
  {
    assert UniqueKeyOf(RPMRecord(p.(epoch := epoch))).epoch != UniqueKeyOf(RPMRecord(p)).epoch;
  }

  /** ... and cannot both be brought back: in every purge of one of two rows with one canonical file the
      other is purged as well, and every sequence of restores that includes the later one is refused. */
  lemma EpochTwinsCannotBothComeBack(repo: int, p: PurgeRun, local: seq<LocalRow>, upstream: seq<Key>, a: int, b: int)
      returns (k: nat)
    requires Ready(RowOf, p) && Purging(RPMProjection(repo), p.rows, local, upstream, p.order)
    requires a in p.rows && b in p.rows && a != b && OfRepo(RPM, repo, p.rows[a]) && OfRepo(RPM, repo, p.rows[b])
    requires Canonical(p.rows[a].rpm) && Canonical(p.rows[b].rpm) && PathOf(p.rows[a]) == PathOf(p.rows[b])
    requires a in IdsOf(p.order)
    ensures b in IdsOf(p.order)
    ensures k < p.Size() && (p.order[k].id == a || p.order[k].id == b)
    ensures forall picks :: Selection(p, picks) && k in picks ==> !Undoable(RowOf, p, picks)
  {
    var project := RPMProjection(repo);
    PurgesExactlyTheUnlisted(project, p.rows, local, upstream, p.order);
    RPMFileNamesTheKey(p.rows[a].rpm, p.rows[b].rpm);
    assert Unlisted(project, upstream, p.rows[a]);
    assert Unlisted(project, upstream, p.rows[b]);
    var i := IndexOf(p.order, a);
    var j := IndexOf(p.order, b);
    k := if i < j then j else i;
    LaterIsTwin(p, if i < j then i else j, k);
    forall picks | Selection(p, picks) && k in picks ensures !Undoable(RowOf, p, picks) {
      TwinStaysAway(RowOf, p, picks, k);
    }
  }

  lemma IndexOf(order: seq<LocalRow>, id: int) returns (i: nat)
    requires id in IdsOf(order)
    ensures i < |order| && order[i].id == id
  {
    var r :| r in order && r.id == id;
    i :| i < |order| && order[i] == r;
  }

  lemma LaterIsTwin(p: PurgeRun, i: nat, k: nat)
    requires Ready(RowOf, p) && i < k < p.Size() && !p.order[k].rec.DEBRecord?
    requires PathOf(p.order[i].rec) == PathOf(p.order[k].rec)
    ensures EarlierTwin(p, k)
  {
    assert MoveFits(RowOf, p, i) && MoveFits(RowOf, p, k);
  }

  /** The table with two epochs of one build. */
  function TwinTable(q: RPMPackage, epoch: int): Table {
    map[1 := RPMRecord(q), 2 := RPMRecord(q.(epoch := epoch))]
  }

  function TwinOrder(q: RPMPackage, epoch: int): seq<LocalRow> {
    [PackageRow(1, q), PackageRow(2, q.(epoch := epoch))]
  }

  lemma TwinTableOK(q: RPMPackage, epoch: int)
    requires epoch != q.epoch
    ensures var rows, order := TwinTable(q, epoch), TwinOrder(q, epoch);
            && UniqueRows(rows) && OnePoolContent(rows) && FromTable(rows, order)
            && Loads(RPMProjection(q.repoId), rows, order)
  {
    var rows, order := TwinTable(q, epoch), TwinOrder(q, epoch);
    assert UniqueKeyOf(rows[1]).epoch != UniqueKeyOf(rows[2]).epoch;
    assert order[0] == PackageRow(1, q) && order[1] == PackageRow(2, q.(epoch := epoch));
    assert order[0] in order && order[1] in order;
  }

  function TwinRun(q: RPMPackage, epoch: int, digest: string): PurgeRun {
    var rows, order := TwinTable(q, epoch), TwinOrder(q, epoch);
    PurgeRun(rows, Disk(map[PathOf(RPMRecord(q)) := digest], map[]), order, Moves(rows, order), [0, 1])
  }

  /** Such a purge exists: upstream drops a package of which two epochs are on file. */
  lemma EpochTwinsAreReady(q: RPMPackage, epoch: int, upstream: seq<Key>, digest: string)
    requires Canonical(q) && epoch != q.epoch && Undamaged(RPMRecord(q)) && Undamaged(RPMRecord(q.(epoch := epoch)))
    requires Key(q.name, q.version, q.arch) !in upstream
    ensures var p := TwinRun(q, epoch, digest);
            && Ready(RowOf, p) && EarlierTwin(p, 1)
            && Purging(RPMProjection(q.repoId), p.rows, TwinOrder(q, epoch), upstream, p.order)
  {
    var p := TwinRun(q, epoch, digest);
    TwinTableOK(q, epoch);
    TwinPaths(q, epoch);
    EngineRunIsReady(p.rows, p.disk, p.order, p.holders);
    NothingListed(p.order, upstream);
    LaterIsTwin(p, 0, 1);
  }

  lemma TwinPaths(q: RPMPackage, epoch: int)
    ensures var order := TwinOrder(q, epoch);
            && PathOf(order[0].rec) == PathOf(order[1].rec) == PathOf(RPMRecord(q))
            && forall r :: r in order ==> r.key == Key(q.name, q.version, q.arch)
  {
  }

  function PackageRow(id: int, q: RPMPackage): LocalRow {
    LocalRow(id, RPMRecord(q), Key(q.name, q.version, q.arch))
  }

  lemma {:induction false} NothingListed(local: seq<LocalRow>, upstream: seq<Key>)
    requires forall r :: r in local ==> r.key !in upstream
    ensures Drift(local, upstream) == local
  {
    if local != [] {
      NothingListed(local[..|local| - 1], upstream);
      assert local == local[..|local| - 1] + [local[|local| - 1]];
    }
  }

  // ---- Helm: the base name of the upstream URL ----

  /** A purge strands a chart row if and only if it purges another chart of the same file name: which it
      does whenever, of two versions published under URLs with the same last segment, upstream still lists
      one and has dropped the other. */
  lemma HelmRunStrandsExactly(repo: int, rows: Table, local: seq<LocalRow>, upstream: seq<Key>, order: seq<LocalRow>)
    requires Purging(HelmProjection(repo), rows, local, upstream, order)
    ensures Strands(rows, order) <==>
            exists a, b :: a in rows && b in rows && SameChartFile(repo, rows[a], rows[b]) &&
                           HelmKey(rows[a]) !in upstream && HelmKey(rows[b]) in upstream
  {
    if a, b :| a in rows && b in rows && SameChartFile(repo, rows[a], rows[b]) &&
               HelmKey(rows[a]) !in upstream && HelmKey(rows[b]) in upstream {
      DroppedVersionStrands(repo, rows, local, upstream, order, a, b);
    }
    if Strands(rows, order) {
      var a, b := StrandedByDropped(repo, rows, local, upstream, order);
    }
  }

  lemma DroppedVersionStrands(repo: int, rows: Table, local: seq<LocalRow>, upstream: seq<Key>, order: seq<LocalRow>,
                              a: int, b: int)
    requires Purging(HelmProjection(repo), rows, local, upstream, order)
    requires a in rows && b in rows && SameChartFile(repo, rows[a], rows[b])
    requires HelmKey(rows[a]) !in upstream && HelmKey(rows[b]) in upstream
    ensures Strands(rows, order)
  {
    var project := HelmProjection(repo);
    PurgesExactlyTheUnlisted(project, rows, local, upstream, order);
    assert Unlisted(project, upstream, rows[a]) && !Unlisted(project, upstream, rows[b]);
    var i := IndexOf(order, a);
    assert order[i] in order && order[i].rec == rows[a];
    MoveNames(rows, order, i);
    assert b in rows - IdsOf(order) && PathOf(rows[b]) == PathOf(order[i].rec);
  }

  lemma StrandedByDropped(repo: int, rows: Table, local: seq<LocalRow>, upstream: seq<Key>, order: seq<LocalRow>)
      returns (a: int, b: int)
    requires Purging(HelmProjection(repo), rows, local, upstream, order) && Strands(rows, order)
    ensures a in rows && b in rows && SameChartFile(repo, rows[a], rows[b])
    ensures HelmKey(rows[a]) !in upstream && HelmKey(rows[b]) in upstream
  {
    var project := HelmProjection(repo);
    PurgesExactlyTheUnlisted(project, rows, local, upstream, order);
    var i: nat;
    b, i :| b in rows - IdsOf(order) && i < |order| && PathOf(rows[b]) == PathOf(order[i].rec);
    a := order[i].id;
    assert order[i] in order && a in IdsOf(order);
    assert Unlisted(project, upstream, rows[a]) && !Unlisted(project, upstream, rows[b]);
    SamePathSameChartFile(repo, rows[a], rows[b]);
  }

  predicate SameChartFile(repo: int, a: Record, b: Record) {
    OfRepo(Helm, repo, a) && OfRepo(Helm, repo, b) && a.helm.filename == b.helm.filename
  }

  function HelmKey(r: Record): Key
    requires r.HelmRecord?
  {
    Key(r.helm.name, r.helm.version, "")
  }

  lemma SamePathSameChartFile(repo: int, a: Record, b: Record)
    requires OfRepo(Helm, repo, a) && PathOf(a) == PathOf(b)
    ensures SameChartFile(repo, a, b)
  {
    assert ("charts/" + a.helm.filename)[7..] == a.helm.filename;
    assert ("charts/" + b.helm.filename)[7..] == b.helm.filename;
  }

  function ChartRow(id: int, c: HelmChart): LocalRow {
    LocalRow(id, HelmRecord(c), Key(c.name, c.version, ""))
  }

  /** Two versions of a chart under one file name. */
  function ChartTable(c: HelmChart, version: string, digest: string): Table {
    map[1 := HelmRecord(c), 2 := HelmRecord(c.(version := version, digest := digest))]
  }

  function ChartRows(c: HelmChart, version: string, digest: string): seq<LocalRow> {
    [ChartRow(1, c)] + [ChartRow(2, c.(version := version, digest := digest))]
  }

  lemma ChartTableLoads(c: HelmChart, version: string, digest: string)
    requires version != c.version
    ensures UniqueRows(ChartTable(c, version, digest))
    ensures Loads(HelmProjection(c.repoId), ChartTable(c, version, digest), ChartRows(c, version, digest))
  {
    var local := ChartRows(c, version, digest);
    assert local[0] == ChartRow(1, c) && local[1] == ChartRow(2, c.(version := version, digest := digest));
    assert local[0] in local && local[1] in local;
  }

  lemma FirstOfTwoDrifts(a: LocalRow, b: LocalRow)
    requires a.key != b.key
    ensures Drift([a] + [b], [b.key]) == [a]
  {
    assert ([a] + [b])[..1] == [a] && [a][..0] == [];
    assert Drift([a], [b.key]) == [a];
  }

  /** It does happen: upstream drops one of the two versions, and the purge takes the file of the other. */
  lemma DroppedVersionTakesTheFile(c: HelmChart, version: string, digest: string)
    requires version != c.version
    ensures var rows, local := ChartTable(c, version, digest), ChartRows(c, version, digest);
            && Purging(HelmProjection(c.repoId), rows, local, [local[1].key], [local[0]])
            && Strands(rows, [local[0]])
  {
    var rows, local := ChartTable(c, version, digest), ChartRows(c, version, digest);
    ChartTableLoads(c, version, digest);
    FirstOfTwoDrifts(local[0], local[1]);
    assert SameChartFile(c.repoId, rows[1], rows[2]);
    HelmRunStrandsExactly(c.repoId, rows, local, [local[1].key], [local[0]]);
  }

  /** For instance app 1.0.0 and 2.0.0, both published as chart.tgz, of which upstream lists 2.0.0 only. */
  lemma ChartTgzIsTaken()
    ensures var c := HelmChart(1, "app", "1.0.0", "", "", "[]", "[]", 7, "sha256:aa", "chart.tgz");
            var rows, local := ChartTable(c, "2.0.0", "sha256:bb"), ChartRows(c, "2.0.0", "sha256:bb");
            && UniqueRows(rows) && Loads(HelmProjection(1), rows, local)
            && Drift(local, [Key("app", "2.0.0", "")]) == [local[0]]
            && Strands(rows, [local[0]])
  {
    var c := HelmChart(1, "app", "1.0.0", "", "", "[]", "[]", 7, "sha256:aa", "chart.tgz");
    assert "1.0.0"[0] != "2.0.0"[0];
    var local := ChartRows(c, "2.0.0", "sha256:bb");
    ChartTableLoads(c, "2.0.0", "sha256:bb");
    FirstOfTwoDrifts(local[0], local[1]);
    DroppedVersionTakesTheFile(c, "2.0.0", "sha256:bb");
  }
}
