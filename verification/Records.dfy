/** The four artifact tables a drift purge touches, the JSON snapshot that a purge stores beside
    a trashed file, and the rebuild that a restore runs on it.

    A row's id is the key of the table that holds it, so a record has no id field; uploaded_at is
    regenerated by every insert and is not a field either. */
module Records {
  datatype Kind = PyPI | RPM | DEB | Helm

  datatype PyPIFile = PyPIFile(
    repoId: int, projectNormalized: string, version: string, filename: string, kind: string, requiresPython: string,
    yanked: bool, yankedReason: string, sizeBytes: int, digest: string, coreMetadataJSON: string)

  datatype RPMPackage = RPMPackage(
    repoId: int, name: string, epoch: int, version: string, release: string, arch: string, summary: string,
    description: string, license: string, url: string, sourceRPM: string, sizeBytes: int, digest: string,
    filename: string, filesJSON: string)

  datatype DEBPackage = DEBPackage(
    repoId: int, suiteId: int, package: string, version: string, architecture: string, maintainer: string,
    section: string, priority: string, depends: string, description: string, sizeBytes: int, digest: string,
    filename: string, storagePoolPath: string)

  datatype HelmChart = HelmChart(
    repoId: int, name: string, version: string, appVersion: string, description: string, keywordsJSON: string,
    maintainersJSON: string, sizeBytes: int, digest: string, filename: string)

  /** A row of any of the four tables. */
  datatype Record =
    | PyPIRecord(pypi: PyPIFile)
    | RPMRecord(rpm: RPMPackage)
    | DEBRecord(deb: DEBPackage)
    | HelmRecord(helm: HelmChart)
  {
    function Kind(): Kind {
      match this
      case PyPIRecord(_) => PyPI
      case RPMRecord(_) => RPM
      case DEBRecord(_) => DEB
      case HelmRecord(_) => Helm
    }

    function RepoId(): int {
      match this
      case PyPIRecord(f) => f.repoId
      case RPMRecord(p) => p.repoId
      case DEBRecord(p) => p.repoId
      case HelmRecord(c) => c.repoId
    }

    function Digest(): string {
      match this
      case PyPIRecord(f) => f.digest
      case RPMRecord(p) => p.digest
      case DEBRecord(p) => p.digest
      case HelmRecord(c) => c.digest
    }
  }

  /** Where a row's bytes live. Project, repository name and protocol directory are all fixed by
      (kind, repo), so files of different repositories never collide. */
  datatype Path = Path(kind: Kind, repo: int, rel: string)

  /** COALESCE(NULLIF(storage_pool_path, ''), filename). */
  function PoolPath(p: DEBPackage): string {
    if p.storagePoolPath != "" then p.storagePoolPath else p.filename
  }

  function PathOf(r: Record): Path {
    match r
    case PyPIRecord(f) => Path(PyPI, f.repoId, "packages/" + f.filename)
    case RPMRecord(p) => Path(RPM, p.repoId, "packages/" + p.filename)
    case DEBRecord(p) => Path(DEB, p.repoId, PoolPath(p))
    case HelmRecord(c) => Path(Helm, c.repoId, "charts/" + c.filename)
  }

  /** The UNIQUE constraint of each table, on which Insert upserts. */
  datatype UniqueKey =
    | UPyPI(repo: int, filename: string)
    | URPM(repo: int, name: string, epoch: int, version: string, release: string, arch: string)
    | UDEB(repo: int, suite: int, package: string, version: string, architecture: string)
    | UHelm(repo: int, name: string, version: string)

  function UniqueKeyOf(r: Record): UniqueKey {
    match r
    case PyPIRecord(f) => UPyPI(f.repoId, f.filename)
    case RPMRecord(p) => URPM(p.repoId, p.name, p.epoch, p.version, p.release, p.arch)
    case DEBRecord(p) => UDEB(p.repoId, p.suiteId, p.package, p.version, p.architecture)
    case HelmRecord(c) => UHelm(c.repoId, c.name, c.version)
  }

  // ---- The same in columns ----

  /** Two rows violate the UNIQUE constraint of their table together: the four constraints, column by
      column. */
  predicate SameKeyColumns(r: Record, s: Record) {
    match (r, s)
    case (PyPIRecord(f), PyPIRecord(g)) => f.repoId == g.repoId && f.filename == g.filename
    case (RPMRecord(p), RPMRecord(q)) => p.repoId == q.repoId && p.name == q.name && p.epoch == q.epoch &&
                                         p.version == q.version && p.release == q.release && p.arch == q.arch
    case (DEBRecord(p), DEBRecord(q)) => p.repoId == q.repoId && p.suiteId == q.suiteId && p.package == q.package &&
                                         p.version == q.version && p.architecture == q.architecture
    case (HelmRecord(c), HelmRecord(d)) => c.repoId == d.repoId && c.name == d.name && c.version == d.version
    case _ => false
  }

  lemma KeyColumnsExactly(r: Record, s: Record)
    ensures UniqueKeyOf(r) == UniqueKeyOf(s) <==> SameKeyColumns(r, s)
  {
  }

  /** Two APT rows name one pool file: the pool path decides, and where a row has none its file name
      stands in for it. */
  predicate SamePoolFile(p: DEBPackage, q: DEBPackage) {
    p.repoId == q.repoId &&
    match (p.storagePoolPath == "", q.storagePoolPath == "")
    case (false, false) => p.storagePoolPath == q.storagePoolPath
    case (false, true) => p.storagePoolPath == q.filename
    case (true, false) => p.filename == q.storagePoolPath
    case (true, true) => p.filename == q.filename
  }

  /** Two rows name one file exactly when they are of one repository and kind and their file columns
      agree. */
  lemma SameFileExactly(r: Record, s: Record)
    ensures PathOf(r) == PathOf(s) <==>
            match (r, s)
            case (PyPIRecord(f), PyPIRecord(g)) => f.repoId == g.repoId && f.filename == g.filename
            case (RPMRecord(p), RPMRecord(q)) => p.repoId == q.repoId && p.filename == q.filename
            case (DEBRecord(p), DEBRecord(q)) => SamePoolFile(p, q)
            case (HelmRecord(c), HelmRecord(d)) => c.repoId == d.repoId && c.filename == d.filename
            case _ => false
  {
    match (r, s)
    case (PyPIRecord(f), PyPIRecord(g)) => PrefixCancels("packages/", f.filename, g.filename);
    case (RPMRecord(p), RPMRecord(q)) => PrefixCancels("packages/", p.filename, q.filename);
    case (HelmRecord(c), HelmRecord(d)) => PrefixCancels("charts/", c.filename, d.filename);
    case _ =>
  }

  lemma PrefixCancels(prefix: string, a: string, b: string)
    ensures prefix + a == prefix + b <==> a == b
  {
    assert (prefix + a)[|prefix|..] == a && (prefix + b)[|prefix|..] == b;
  }

  // ---- Integers through JSON: binary64 ----

  const MAX_EXACT: int := 0x20_0000_0000_0000 // 2^53
  const INT64_LIMIT: int := 0x8000_0000_0000_0000 // 2^63

  function Pow2(e: nat): (p: nat)
    ensures p > 0
  {
    if e == 0 then 1 else 2 * Pow2(e - 1)
  }

  /** The number of low-order bits that do not fit a 53-bit significand. */
  function DroppedBits(n: nat): nat {
    if n < MAX_EXACT then 0 else 1 + DroppedBits(n / 2)
  }

  /** The whole number nearest to q + r / unit, ties to even. */
  function NearestEven(q: int, r: int, unit: int): (k: int)
    ensures 2 * r < unit ==> k == q
    ensures 2 * r > unit ==> k == q + 1
    ensures 2 * r == unit ==> k % 2 == 0 && q <= k <= q + 1
  {
    if 2 * r < unit || (2 * r == unit && q % 2 == 0) then q else q + 1
  }

  /** Round to nearest, ties to even, at the granularity binary64 has around n. */
  function RoundNat(n: nat): int {
    var unit := Pow2(DroppedBits(n));
    NearestEven(n / unit, n % unit, unit) * unit
  }

  /** The double an integer JSON number decodes to. */
  function Binary64(n: int): int {
    if n >= 0 then RoundNat(n) else -RoundNat(-n)
  }

  /** Go's int64(float64) on amd64: out of range gives the most negative value. */
  function Int64Of(v: int): int {
    if -INT64_LIMIT <= v < INT64_LIMIT then v else -INT64_LIMIT
  }

  /** n has at most 53 significant bits. */
  predicate Representable(n: int) {
    var m := if n >= 0 then n else -n;
    m % Pow2(DroppedBits(m)) == 0
  }

  predicate IsInt64(n: int) { -INT64_LIMIT <= n < INT64_LIMIT }

  /** The rounding is to a nearest multiple of the granularity; it is the identity exactly on the
      multiples. */
  lemma RoundNatExact(n: nat)
    ensures RoundNat(n) == n <==> n % Pow2(DroppedBits(n)) == 0
    ensures 2 * (RoundNat(n) - n) <= Pow2(DroppedBits(n)) && 2 * (n - RoundNat(n)) <= Pow2(DroppedBits(n))
  {
    var unit := Pow2(DroppedBits(n));
    var q, r := n / unit, n % unit;
    assert n == q * unit + r;
    assert (q + 1) * unit == q * unit + unit;
  }

  /** The granularity is the least that leaves a 53-bit significand. */
  lemma {:induction false} DroppedBitsExact(n: nat)
    ensures n < MAX_EXACT * Pow2(DroppedBits(n))
    ensures DroppedBits(n) > 0 ==> n >= MAX_EXACT * Pow2(DroppedBits(n) - 1)
  {
    if n >= MAX_EXACT { DroppedBitsExact(n / 2); }
  }

  lemma {:induction false} Pow2Splits(d: nat, e: nat)
    requires d <= e
    ensures Pow2(e) == Pow2(e - d) * Pow2(d) && Pow2(d) <= Pow2(e)
  {
    if d < e {
      Pow2Splits(d, e - 1);
      assert 2 * (Pow2(e - 1 - d) * Pow2(d)) == 2 * Pow2(e - 1 - d) * Pow2(d);
    }
  }

  /** n is a 53-bit number k shifted left by e bits, with either sign. */
  predicate HasSignificand(n: int, k: nat, e: nat) {
    k < MAX_EXACT && (if n >= 0 then n else -n) == k * Pow2(e)
  }

  /** What "53 significant bits" means, without the rounding. */
  lemma RepresentableExactly(n: int)
    ensures Representable(n) <==> exists k: nat, e: nat :: HasSignificand(n, k, e)
  {
    var m := if n >= 0 then n else -n;
    DroppedBitsExact(m);
    if Representable(n) {
      var k := Quotient(m, Pow2(DroppedBits(m)));
      BelowLimit(k, Pow2(DroppedBits(m)), m);
      assert HasSignificand(n, k, DroppedBits(m));
    }
    if k: nat, e: nat :| HasSignificand(n, k, e) { ShiftIsRepresentable(m, k, e); }
  }

  lemma ShiftIsRepresentable(m: nat, k: nat, e: nat)
    requires k < MAX_EXACT && m == k * Pow2(e)
    ensures Representable(m)
  {
    var d := DroppedBits(m);
    DroppedBitsExact(m);
    BelowScaled(k, Pow2(e), m);
    if d > e {
      Pow2Splits(e, d - 1);
    } else {
      Pow2Splits(d, e);
      Regroup(k, Pow2(e - d), Pow2(d));
      NoRemainder(m, k * Pow2(e - d), Pow2(d));
    }
  }

  lemma Quotient(m: nat, unit: nat) returns (k: nat)
    requires unit > 0 && m % unit == 0
    ensures m == k * unit
  {
    k := m / unit;
  }

  lemma AtLeast(k: int, limit: int, unit: nat)
    ensures k >= limit ==> k * unit >= limit * unit
  {
  }

  lemma BelowLimit(k: nat, unit: nat, m: nat)
    requires m == k * unit && m < MAX_EXACT * unit
    ensures k < MAX_EXACT
  {
    AtLeast(k, MAX_EXACT, unit);
  }

  lemma BelowScaled(k: nat, unit: nat, m: nat)
    requires unit > 0 && k < MAX_EXACT && m == k * unit
    ensures m < MAX_EXACT * unit
  {
    assert (MAX_EXACT - k) * unit > 0;
  }

  lemma Regroup(a: int, b: int, c: int)
    ensures a * (b * c) == a * b * c
  {
  }

  lemma NoRemainder(m: nat, k: int, unit: nat)
    requires unit > 0 && m == k * unit
    ensures m % unit == 0
  {
    var q, r := m / unit, m % unit;
    assert m == q * unit + r;
    SmallMultiple(k - q, unit, r) by { assert (k - q) * unit == k * unit - q * unit; }
  }

  lemma SmallMultiple(a: int, unit: nat, r: int)
    requires a * unit == r && 0 <= r < unit
    ensures r == 0
  {
    AtLeast(a, 1, unit);
  }

  /** An int64 survives the trip through binary64 exactly when it has at most 53 significant bits. */
  lemma IntegerSurvives(n: int)
    requires IsInt64(n)
    ensures Int64Of(Binary64(n)) == n <==> Representable(n)
  {
    var m := if n >= 0 then n else -n;
    RoundNatExact(m);
    if n == -INT64_LIMIT {
      MinInt64IsExact();
    } else if Binary64(n) != n && !(-INT64_LIMIT <= Binary64(n) < INT64_LIMIT) {
      assert Int64Of(Binary64(n)) == -INT64_LIMIT != n;
    }
  }

  /** A full 53-bit significand h shifted by e drops exactly e bits. */
  lemma {:induction false} DroppedBitsOfShift(h: nat, e: nat)
    requires MAX_EXACT <= 2 * h < 2 * MAX_EXACT
    ensures DroppedBits(h * Pow2(e)) == e
  {
    if e > 0 {
      DroppedBitsOfShift(h, e - 1);
      var m := h * Pow2(e - 1);
      assert h * Pow2(e) == 2 * m;
      assert m >= h by { assert h * Pow2(e - 1) >= h * 1; }
    }
  }

  lemma MinInt64IsExact()
    ensures Representable(-INT64_LIMIT)
  {
    assert Pow2(11) == 2 * Pow2(10) == 4 * Pow2(9) == 8 * Pow2(8);
    assert Pow2(8) == 2 * Pow2(7) == 4 * Pow2(6) == 8 * Pow2(5) == 16 * Pow2(4) == 32 * Pow2(3);
    DroppedBitsOfShift(MAX_EXACT / 2, 11);
  }

  /** The bound the repository relies on: every integer up to 2^53 in magnitude is exact ... */
  lemma SmallIntegersExact(n: int)
    requires -MAX_EXACT <= n <= MAX_EXACT
    ensures Representable(n)
  {
    assert DroppedBits(0x20_0000_0000_0000) == 1 + DroppedBits(0x10_0000_0000_0000);
    assert Pow2(1) == 2;
  }

  /** ... and the next one up is not. */
  lemma FirstInexactInteger()
    ensures !Representable(MAX_EXACT + 1)
    ensures Int64Of(Binary64(MAX_EXACT + 1)) == MAX_EXACT
  {
    assert (MAX_EXACT + 1) / 2 == 0x10_0000_0000_0000;
    assert DroppedBits(MAX_EXACT + 1) == 1 + DroppedBits(0x10_0000_0000_0000) == 1;
    assert Pow2(1) == 2;
    assert (MAX_EXACT + 1) % 2 == 1;
  }

  /** The largest int64 rounds up to 2^63, which converts back to the smallest. */
  lemma LargestInt64TurnsNegative()
    ensures Int64Of(Binary64(INT64_LIMIT - 1)) == -INT64_LIMIT
  {
    var n := INT64_LIMIT - 1;
    assert Pow2(10) == 32 * Pow2(5) == 1024 by { assert Pow2(10) == 4 * Pow2(8) && Pow2(8) == 8 * Pow2(5); }
    assert Pow2(9) == 512;
    DroppedBitsExact(n);
    var d := DroppedBits(n);
    if d < 10 { Pow2Splits(d, 9); } else if d > 10 { Pow2Splits(10, d - 1); }
    assert d == 10;
    assert n / 1024 == MAX_EXACT - 1 && n % 1024 == 1023;
  }

  // ---- Snapshot and rebuild ----

  /** The JSON keys of the four snapshots. */
  datatype Column =
    | RepoIdCol | ProjectNormalizedCol | VersionCol | FilenameCol | KindCol | RequiresPythonCol | YankedCol
    | YankedReasonCol | SizeBytesCol | DigestCol | CoreMetadataJsonCol | NameCol | EpochCol | ReleaseCol | ArchCol
    | SummaryCol | DescriptionCol | LicenseCol | UrlCol | SourceRpmCol | SuiteIdCol | PackageCol | ArchitectureCol
    | MaintainerCol | SectionCol | PriorityCol | DependsCol | StoragePoolPathCol | AppVersionCol | KeywordsJsonCol
    | MaintainersJsonCol

  /** A JSON object, its members grouped by the type of their value. */
  datatype Snapshot = Snapshot(strings: map<Column, string>, numbers: map<Column, int>, booleans: map<Column, bool>)

  /** What the PyPI adapter's Purge puts in the sidecar. */
  function PyPISnapshot(f: PyPIFile): Snapshot {
    Snapshot(
      map[ProjectNormalizedCol := f.projectNormalized, VersionCol := f.version, FilenameCol := f.filename,
          KindCol := f.kind, RequiresPythonCol := f.requiresPython, YankedReasonCol := f.yankedReason,
          DigestCol := f.digest, CoreMetadataJsonCol := f.coreMetadataJSON],
      map[RepoIdCol := f.repoId, SizeBytesCol := f.sizeBytes],
      map[YankedCol := f.yanked])
  }

  /** What the RPM adapter's Purge puts in the sidecar. */
  function RPMSnapshot(p: RPMPackage): Snapshot {
    Snapshot(
      map[NameCol := p.name, VersionCol := p.version, ReleaseCol := p.release, ArchCol := p.arch,
          SummaryCol := p.summary, DescriptionCol := p.description, LicenseCol := p.license,
          UrlCol := p.url, SourceRpmCol := p.sourceRPM, DigestCol := p.digest, FilenameCol := p.filename],
      map[RepoIdCol := p.repoId, EpochCol := p.epoch, SizeBytesCol := p.sizeBytes],
      map[])
  }

  /** What the DEB adapter's Purge puts in the sidecar. */
  function DEBSnapshot(p: DEBPackage): Snapshot {
    Snapshot(
      map[PackageCol := p.package, VersionCol := p.version, ArchitectureCol := p.architecture,
          MaintainerCol := p.maintainer, SectionCol := p.section, PriorityCol := p.priority,
          DependsCol := p.depends, DescriptionCol := p.description, DigestCol := p.digest,
          FilenameCol := p.filename, StoragePoolPathCol := p.storagePoolPath],
      map[RepoIdCol := p.repoId, SuiteIdCol := p.suiteId, SizeBytesCol := p.sizeBytes],
      map[])
  }

  /** What the Helm adapter's Purge puts in the sidecar. */
  function HelmSnapshot(c: HelmChart): Snapshot {
    Snapshot(
      map[NameCol := c.name, VersionCol := c.version, AppVersionCol := c.appVersion,
          DescriptionCol := c.description, KeywordsJsonCol := c.keywordsJSON,
          MaintainersJsonCol := c.maintainersJSON, DigestCol := c.digest, FilenameCol := c.filename],
      map[RepoIdCol := c.repoId, SizeBytesCol := c.sizeBytes],
      map[])
  }

  function SnapshotOf(r: Record): Snapshot {
    match r
    case PyPIRecord(f) => PyPISnapshot(f)
    case RPMRecord(p) => RPMSnapshot(p)
    case DEBRecord(p) => DEBSnapshot(p)
    case HelmRecord(c) => HelmSnapshot(c)
  }

  /** Marshal to JSON and decode into map[string]any: every number comes back as a double. */
  function ThroughJSON(s: Snapshot): Snapshot {
    s.(numbers := map c | c in s.numbers :: Binary64(s.numbers[c]))
  }

  function SnapStr(s: Snapshot, c: Column): string {
    if c in s.strings then s.strings[c] else ""
  }

  function SnapInt64(s: Snapshot, c: Column): int {
    if c in s.numbers then Int64Of(s.numbers[c]) else 0
  }

  function RebuildPyPIFile(s: Snapshot): PyPIFile {
    PyPIFile(SnapInt64(s, RepoIdCol), SnapStr(s, ProjectNormalizedCol), SnapStr(s, VersionCol),
             SnapStr(s, FilenameCol), SnapStr(s, KindCol), SnapStr(s, RequiresPythonCol),
             YankedCol in s.booleans && s.booleans[YankedCol], SnapStr(s, YankedReasonCol),
             SnapInt64(s, SizeBytesCol), SnapStr(s, DigestCol), SnapStr(s, CoreMetadataJsonCol))
  }

  function RebuildRPMPackage(s: Snapshot): RPMPackage {
    RPMPackage(SnapInt64(s, RepoIdCol), SnapStr(s, NameCol), SnapInt64(s, EpochCol), SnapStr(s, VersionCol),
               SnapStr(s, ReleaseCol), SnapStr(s, ArchCol), SnapStr(s, SummaryCol), SnapStr(s, DescriptionCol),
               SnapStr(s, LicenseCol), SnapStr(s, UrlCol), SnapStr(s, SourceRpmCol), SnapInt64(s, SizeBytesCol),
               SnapStr(s, DigestCol), SnapStr(s, FilenameCol), "")
  }

  function RebuildDEBPackage(s: Snapshot): DEBPackage {
    DEBPackage(SnapInt64(s, RepoIdCol), SnapInt64(s, SuiteIdCol), SnapStr(s, PackageCol), SnapStr(s, VersionCol),
               SnapStr(s, ArchitectureCol), SnapStr(s, MaintainerCol), SnapStr(s, SectionCol),
               SnapStr(s, PriorityCol), SnapStr(s, DependsCol), SnapStr(s, DescriptionCol),
               SnapInt64(s, SizeBytesCol), SnapStr(s, DigestCol), SnapStr(s, FilenameCol),
               SnapStr(s, StoragePoolPathCol))
  }

  function RebuildHelmChart(s: Snapshot): HelmChart {
    HelmChart(SnapInt64(s, RepoIdCol), SnapStr(s, NameCol), SnapStr(s, VersionCol), SnapStr(s, AppVersionCol),
              SnapStr(s, DescriptionCol), SnapStr(s, KeywordsJsonCol), SnapStr(s, MaintainersJsonCol),
              SnapInt64(s, SizeBytesCol), SnapStr(s, DigestCol), SnapStr(s, FilenameCol))
  }

  function Rebuild(kind: Kind, s: Snapshot): Record {
    match kind
    case PyPI => PyPIRecord(RebuildPyPIFile(s))
    case RPM => RPMRecord(RebuildRPMPackage(s))
    case DEB => DEBRecord(RebuildDEBPackage(s))
    case Helm => HelmRecord(RebuildHelmChart(s))
  }

  function OrDefault(s: string, default: string): string { if s == "" then default else s }

  /** The defaults each repository's Insert writes in place of an empty JSON column. */
  function Stored(r: Record): Record {
    match r
    case PyPIRecord(f) => PyPIRecord(f.(coreMetadataJSON := OrDefault(f.coreMetadataJSON, "{}")))
    case RPMRecord(p) => RPMRecord(p.(filesJSON := OrDefault(p.filesJSON, "[]")))
    case DEBRecord(p) => r
    case HelmRecord(c) => HelmRecord(c.(keywordsJSON := OrDefault(c.keywordsJSON, "[]"),
                                        maintainersJSON := OrDefault(c.maintainersJSON, "[]")))
  }

  /** The columns each repository's Insert refuses to leave empty. */
  predicate Insertable(r: Record) {
    match r
    case PyPIRecord(f) => f.filename != "" && f.projectNormalized != "" && f.version != "" && f.digest != "" &&
                          (f.kind == "wheel" || f.kind == "sdist")
    case RPMRecord(p) => p.name != "" && p.version != "" && p.release != "" && p.arch != "" && p.digest != "" &&
                         p.filename != ""
    case DEBRecord(p) => p.package != "" && p.version != "" && p.architecture != "" && p.digest != "" &&
                         p.filename != ""
    case HelmRecord(c) => c.name != "" && c.version != "" && c.digest != "" && c.filename != ""
  }

  /** The row a restore hands to the table for a purged row r. */
  function Restored(r: Record): Record {
    Stored(Rebuild(r.Kind(), ThroughJSON(SnapshotOf(r))))
  }

  /** An int64 column after the trip through the snapshot. */
  function Reread(n: int): int { Int64Of(Binary64(n)) }

  /** r as the snapshot reads back: integers reread, an RPM file list missing. */
  function Decoded(r: Record): Record {
    match r
    case PyPIRecord(f) => PyPIRecord(f.(repoId := Reread(f.repoId), sizeBytes := Reread(f.sizeBytes)))
    case RPMRecord(p) => RPMRecord(p.(repoId := Reread(p.repoId), sizeBytes := Reread(p.sizeBytes),
                                      epoch := Reread(p.epoch), filesJSON := ""))
    case DEBRecord(p) => DEBRecord(p.(repoId := Reread(p.repoId), sizeBytes := Reread(p.sizeBytes),
                                      suiteId := Reread(p.suiteId)))
    case HelmRecord(c) => HelmRecord(c.(repoId := Reread(c.repoId), sizeBytes := Reread(c.sizeBytes)))
  }

  lemma RebuildsPyPIFile(f: PyPIFile)
    ensures PyPIRecord(RebuildPyPIFile(ThroughJSON(PyPISnapshot(f)))) == Decoded(PyPIRecord(f))
  {
  }

  lemma RebuildsRPMPackage(p: RPMPackage)
    ensures RPMRecord(RebuildRPMPackage(ThroughJSON(RPMSnapshot(p)))) == Decoded(RPMRecord(p))
  {
  }

  lemma RebuildsDEBPackage(p: DEBPackage)
    ensures DEBRecord(RebuildDEBPackage(ThroughJSON(DEBSnapshot(p)))) == Decoded(DEBRecord(p))
  {
  }

  lemma RebuildsHelmChart(c: HelmChart)
    ensures HelmRecord(RebuildHelmChart(ThroughJSON(HelmSnapshot(c)))) == Decoded(HelmRecord(c))
  {
  }

  lemma PyPIDecodes(r: Record)
    requires r.PyPIRecord?
    ensures Rebuild(r.Kind(), ThroughJSON(SnapshotOf(r))) == Decoded(r)
  {
    RebuildsPyPIFile(r.pypi);
  }

  lemma RPMDecodes(r: Record)
    requires r.RPMRecord?
    ensures Rebuild(r.Kind(), ThroughJSON(SnapshotOf(r))) == Decoded(r)
  {
    RebuildsRPMPackage(r.rpm);
  }

  lemma DEBDecodes(r: Record)
    requires r.DEBRecord?
    ensures Rebuild(r.Kind(), ThroughJSON(SnapshotOf(r))) == Decoded(r)
  {
    RebuildsDEBPackage(r.deb);
  }

  lemma HelmDecodes(r: Record)
    requires r.HelmRecord?
    ensures Rebuild(r.Kind(), ThroughJSON(SnapshotOf(r))) == Decoded(r)
  {
    RebuildsHelmChart(r.helm);
  }

  lemma RebuildDecodes(r: Record)
    ensures Rebuild(r.Kind(), ThroughJSON(SnapshotOf(r))) == Decoded(r)
  {
    if r.PyPIRecord? {
      PyPIDecodes(r);
    } else if r.RPMRecord? {
      RPMDecodes(r);
    } else if r.DEBRecord? {
      DEBDecodes(r);
    } else {
      HelmDecodes(r);
    }
  }

  /** The row a restore produces, column by column: every column is read from the key it was written
      under, integers are reread, defaulted columns filled in and an RPM file list emptied. */
  lemma RestoredColumns(r: Record)
    ensures Restored(r) == Stored(Decoded(r))
  {
    RebuildDecodes(r);
  }

  predicate Int64Fields(r: Record) {
    match r
    case PyPIRecord(f) => IsInt64(f.repoId) && IsInt64(f.sizeBytes)
    case RPMRecord(p) => IsInt64(p.repoId) && IsInt64(p.sizeBytes) && IsInt64(p.epoch)
    case DEBRecord(p) => IsInt64(p.repoId) && IsInt64(p.sizeBytes) && IsInt64(p.suiteId)
    case HelmRecord(c) => IsInt64(c.repoId) && IsInt64(c.sizeBytes)
  }

  /** What a purged row must look like for its restore to be exact. The RPM clause is there because
      the RPM snapshot leaves files_json out. */
  predicate Faithful(r: Record) {
    match r
    case PyPIRecord(f) => Representable(f.repoId) && Representable(f.sizeBytes) && f.coreMetadataJSON != ""
    case RPMRecord(p) => Representable(p.repoId) && Representable(p.sizeBytes) && Representable(p.epoch) &&
                         p.filesJSON == "[]"
    case DEBRecord(p) => Representable(p.repoId) && Representable(p.sizeBytes) && Representable(p.suiteId)
    case HelmRecord(c) => Representable(c.repoId) && Representable(c.sizeBytes) && c.keywordsJSON != "" &&
                          c.maintainersJSON != ""
  }

  /** Purge then restore gives back the row itself exactly when Faithful holds, for every record. */
  lemma RestoreRoundTrip(r: Record)
    requires Int64Fields(r)
    ensures Restored(r) == r <==> Faithful(r)
  {
    RestoredColumns(r);
    match r
    case PyPIRecord(f) =>
      IntegerSurvives(f.repoId); IntegerSurvives(f.sizeBytes);
    case RPMRecord(p) =>
      IntegerSurvives(p.repoId); IntegerSurvives(p.sizeBytes); IntegerSurvives(p.epoch);
    case DEBRecord(p) =>
      IntegerSurvives(p.repoId); IntegerSurvives(p.sizeBytes); IntegerSurvives(p.suiteId);
    case HelmRecord(c) =>
      IntegerSurvives(c.repoId); IntegerSurvives(c.sizeBytes);
  }

  predicate Small(n: int) { -MAX_EXACT <= n <= MAX_EXACT }

  predicate SmallFields(r: Record) {
    match r
    case PyPIRecord(f) => Small(f.repoId) && Small(f.sizeBytes)
    case RPMRecord(p) => Small(p.repoId) && Small(p.sizeBytes) && Small(p.epoch)
    case DEBRecord(p) => Small(p.repoId) && Small(p.sizeBytes) && Small(p.suiteId)
    case HelmRecord(c) => Small(c.repoId) && Small(c.sizeBytes)
  }

  lemma SmallReread(n: int)
    requires Small(n)
    ensures Reread(n) == n
  {
    SmallIntegersExact(n);
    IntegerSurvives(n);
  }

  /** The bound the source relies on: integers up to 2^53, on rows as Insert stores them. APT, PyPI
      and Helm rows come back exactly; an RPM row comes back with an empty file list. */
  lemma RestoreUpTo53Bits(r: Record)
    requires SmallFields(r) && Stored(r) == r
    ensures Restored(r) == if r.RPMRecord? then RPMRecord(r.rpm.(filesJSON := "[]")) else r
  {
    RestoredColumns(r);
    SmallReread(r.RepoId());
    match r
    case PyPIRecord(f) => SmallReread(f.sizeBytes);
    case RPMRecord(p) => SmallReread(p.sizeBytes); SmallReread(p.epoch);
    case DEBRecord(p) => SmallReread(p.sizeBytes); SmallReread(p.suiteId);
    case HelmRecord(c) => SmallReread(c.sizeBytes);
  }

  /** Any row with integers up to 2^53, stored or not: nothing changes but blank JSON columns, which come
      back as the empty object or list, and the RPM file list. */
  lemma RestoreFillsBlanks(r: Record)
    requires SmallFields(r)
    ensures Restored(r) ==
            match r
            case PyPIRecord(f) => if f.coreMetadataJSON == "" then PyPIRecord(f.(coreMetadataJSON := "{}")) else r
            case RPMRecord(p) => RPMRecord(p.(filesJSON := "[]"))
            case DEBRecord(_) => r
            case HelmRecord(c) =>
              HelmRecord(c.(keywordsJSON := if c.keywordsJSON == "" then "[]" else c.keywordsJSON,
                            maintainersJSON := if c.maintainersJSON == "" then "[]" else c.maintainersJSON))
  {
    StoredTwice(r);
    RestoredColumns(r);
    SmallReread(r.RepoId());
    match r
    case PyPIRecord(f) => SmallReread(f.sizeBytes);
    case RPMRecord(p) => SmallReread(p.sizeBytes); SmallReread(p.epoch);
    case DEBRecord(p) => SmallReread(p.sizeBytes); SmallReread(p.suiteId);
    case HelmRecord(c) => SmallReread(c.sizeBytes);
  }

  /** What an Insert demands: the named columns are not blank, and a PyPI file is a wheel or an sdist. */
  lemma InsertableExactly(r: Record)
    ensures Insertable(r) <==>
            match r
            case PyPIRecord(f) => "" !in [f.filename, f.projectNormalized, f.version, f.digest] &&
                                  f.kind in ["wheel", "sdist"]
            case RPMRecord(p) => "" !in [p.name, p.version, p.release, p.arch, p.digest, p.filename]
            case DEBRecord(p) => "" !in [p.package, p.version, p.architecture, p.digest, p.filename]
            case HelmRecord(c) => "" !in [c.name, c.version, c.digest, c.filename]
  {
    match r
    case PyPIRecord(f) =>
      var s := [f.filename, f.projectNormalized, f.version, f.digest];
      assert s[0] == f.filename && s[1] == f.projectNormalized && s[2] == f.version && s[3] == f.digest;
    case RPMRecord(p) =>
      var s := [p.name, p.version, p.release, p.arch, p.digest, p.filename];
      assert s[0] == p.name && s[1] == p.version && s[2] == p.release && s[3] == p.arch && s[4] == p.digest &&
             s[5] == p.filename;
    case DEBRecord(p) =>
      var s := [p.package, p.version, p.architecture, p.digest, p.filename];
      assert s[0] == p.package && s[1] == p.version && s[2] == p.architecture && s[3] == p.digest && s[4] == p.filename;
    case HelmRecord(c) =>
      var s := [c.name, c.version, c.digest, c.filename];
      assert s[0] == c.name && s[1] == c.version && s[2] == c.digest && s[3] == c.filename;
  }

  /** Rows as a sync hands them to Insert, which sets no RPM file list: once stored, a purge and a restore
      bring every one of them back exactly. */
  lemma SyncedRowsComeBack(r: Record)
    requires SmallFields(r) && (r.RPMRecord? ==> r.rpm.filesJSON == "")
    ensures Restored(Stored(r)) == Stored(r)
  {
    StoredTwice(r);
    RestoreUpTo53Bits(Stored(r));
  }

  lemma StoredTwice(r: Record)
    ensures Stored(Stored(r)) == Stored(r)
    ensures SmallFields(r) ==> SmallFields(Stored(r))
    ensures r.RPMRecord? && r.rpm.filesJSON == "" ==> Stored(r).rpm.filesJSON == "[]"
  {
  }

  /** The gap in the RPM snapshot: a row that has a file list loses it. Only an upload writes one. */
  lemma RPMFileListLost()
    ensures var r := RPMRecord(RPMPackage(1, "bash", 0, "5.2", "1", "x86_64", "", "", "", "", "", 10, "sha256:aa",
                                          "bash-5.2-1.x86_64.rpm", "[\"/bin/bash\"]"));
            Insertable(r) && Stored(r) == r && Restored(r) != r
  {
    var r := RPMRecord(RPMPackage(1, "bash", 0, "5.2", "1", "x86_64", "", "", "", "", "", 10, "sha256:aa",
                                  "bash-5.2-1.x86_64.rpm", "[\"/bin/bash\"]"));
    assert |r.rpm.filesJSON| == 13;
    RestoreUpTo53Bits(r);
  }

  /** Whatever the other columns do, a restored row of a repository whose id is at most 2^53 points
      at the file its snapshot was taken from. */
  lemma RestoredKeepsFile(r: Record)
    requires Small(r.RepoId())
    ensures PathOf(Restored(r)) == PathOf(r)
    ensures Restored(r).Digest() == r.Digest() && Restored(r).RepoId() == r.RepoId()
    ensures Restored(r).Kind() == r.Kind()
  {
    RestoredColumns(r);
    SmallReread(r.RepoId());
  }
}
