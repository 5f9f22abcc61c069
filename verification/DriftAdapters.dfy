/** The four adapters' projections of table rows to drift keys. */
module DriftAdapters {
  import opened Options
  import opened Records
  import opened DriftEngine
  import opened DriftTheorems

  /** A row of one repository with its id, as ListByRepo returns it. */
  datatype Listed = Listed(id: int, row: Record)

  predicate OfRepo(kind: Kind, repo: int, r: Record) {
    r.Kind() == kind && r.RepoId() == repo
  }

  /** ListByRepo lists exactly the rows of one repository in one table, each once. */
  ghost predicate Lists(rows: Table, kind: Kind, repo: int, listed: seq<Listed>) {
    && (forall i, j :: 0 <= i < j < |listed| ==> listed[i].id != listed[j].id)
    && (forall l :: l in listed ==> l.id in rows && rows[l.id] == l.row && OfRepo(kind, repo, l.row))
    && (forall id :: id in rows && OfRepo(kind, repo, rows[id]) ==> exists l :: l in listed && l.id == id)
  }

  /** The listed rows that take part, each with its key. */
  function Projected(project: Projection, listed: seq<Listed>): seq<LocalRow> {
    if listed == [] then []
    else
      var last := listed[|listed| - 1];
      var rest := Projected(project, listed[..|listed| - 1]);
      if project(last.row).Some? then rest + [LocalRow(last.id, last.row, project(last.row).value)] else rest
  }

  lemma {:induction false} ProjectedMembers(project: Projection, listed: seq<Listed>)
    ensures forall r :: r in Projected(project, listed) <==>
                        Listed(r.id, r.rec) in listed && project(r.rec) == Some(r.key)
  {
    if listed != [] {
      var n := |listed| - 1;
      ProjectedMembers(project, listed[..n]);
      assert listed == listed[..n] + [listed[n]];
    }
  }

  lemma {:induction false} ProjectedDistinct(project: Projection, listed: seq<Listed>)
    requires forall i, j :: 0 <= i < j < |listed| ==> listed[i].id != listed[j].id
    ensures DistinctIds(Projected(project, listed))
  {
    if listed != [] {
      var n := |listed| - 1;
      ProjectedDistinct(project, listed[..n]);
      ProjectedMembers(project, listed[..n]);
      var rest := Projected(project, listed[..n]);
      forall i | 0 <= i < |rest| ensures rest[i].id != listed[n].id {
        assert rest[i] in rest;
      }
    }
  }

  /** Every adapter below returns Projected of its projection, so what it returns loads the table. */
  lemma ProjectedLoads(project: Projection, rows: Table, kind: Kind, repo: int, listed: seq<Listed>)
    requires Lists(rows, kind, repo, listed)
    requires forall r :: project(r).Some? ==> OfRepo(kind, repo, r)
    ensures Loads(project, rows, Projected(project, listed))
  {
    ProjectedMembers(project, listed);
    ProjectedDistinct(project, listed);
    forall id | id in rows && project(rows[id]).Some?
      ensures exists r :: r in Projected(project, listed) && r.id == id
    {
      var l :| l in listed && l.id == id;
      assert LocalRow(id, rows[id], project(rows[id]).value) in Projected(project, listed);
    }
  }

  // ---- RPM and Helm: the key is read off the row ----

  function RPMProjection(repo: int): Projection {
    (r: Record) => if OfRepo(RPM, repo, r) then Some(Key(r.rpm.name, r.rpm.version, r.rpm.arch)) else None
  }

  function HelmProjection(repo: int): Projection {
    (r: Record) => if OfRepo(Helm, repo, r) then Some(Key(r.helm.name, r.helm.version, "")) else None
  }

  method RPMLocalRows(repo: int, listed: seq<Listed>) returns (out: seq<LocalRow>)
    requires forall l :: l in listed ==> OfRepo(RPM, repo, l.row)
    ensures out == Projected(RPMProjection(repo), listed)
  {
    out := [];
    for i := 0 to |listed|
      invariant out == Projected(RPMProjection(repo), listed[..i])
    {
      assert listed[..i + 1][..i] == listed[..i] && listed[i] in listed;
      var p := listed[i].row.rpm;
      out := out + [LocalRow(listed[i].id, listed[i].row, Key(p.name, p.version, p.arch))];
    }
    assert listed[..|listed|] == listed;
  }

  method HelmLocalRows(repo: int, listed: seq<Listed>) returns (out: seq<LocalRow>)
    requires forall l :: l in listed ==> OfRepo(Helm, repo, l.row)
    ensures out == Projected(HelmProjection(repo), listed)
  {
    out := [];
    for i := 0 to |listed|
      invariant out == Projected(HelmProjection(repo), listed[..i])
    {
      assert listed[..i + 1][..i] == listed[..i] && listed[i] in listed;
      var c := listed[i].row.helm;
      out := out + [LocalRow(listed[i].id, listed[i].row, Key(c.name, c.version, ""))];
    }
    assert listed[..|listed|] == listed;
  }

  /** A row that takes part is purged exactly when upstream does not list its key. */
  lemma GoesIfUnlisted(project: Projection, rows: Table, local: seq<LocalRow>, upstream: seq<Key>, id: int)
    requires Loads(project, rows, local) && id in rows
    ensures id in IdsOf(Drift(local, upstream)) <==>
            project(rows[id]).Some? && project(rows[id]).value !in upstream
  {
    DriftMembers(local, upstream);
    if project(rows[id]).Some? {
      var r :| r in local && r.id == id;
      if r.key !in upstream { assert r in Drift(local, upstream); }
    }
  }

  /** An RPM row of the repository is kept exactly when upstream lists its name, version and
      architecture. */
  lemma RPMKept(repo: int, rows: Table, local: seq<LocalRow>, upstream: seq<Key>, id: int, p: RPMPackage)
    requires Loads(RPMProjection(repo), rows, local)
    requires id in rows && rows[id] == RPMRecord(p)
    ensures id !in IdsOf(Drift(local, upstream)) <==> p.repoId != repo || Key(p.name, p.version, p.arch) in upstream
  {
    GoesIfUnlisted(RPMProjection(repo), rows, local, upstream, id);
  }

  /** A chart exactly when upstream lists its name and version. */
  lemma HelmKept(repo: int, rows: Table, local: seq<LocalRow>, upstream: seq<Key>, id: int, c: HelmChart)
    requires Loads(HelmProjection(repo), rows, local)
    requires id in rows && rows[id] == HelmRecord(c)
    ensures id !in IdsOf(Drift(local, upstream)) <==> c.repoId != repo || Key(c.name, c.version, "") in upstream
  {
    GoesIfUnlisted(HelmProjection(repo), rows, local, upstream, id);
  }

  // ---- PyPI ----

  /** The row's key: the digest is dropped when upstream lists the file without one. */
  function PyPIKey(upstream: seq<Key>, f: PyPIFile): Key {
    var hashless := Key(f.projectNormalized, f.filename, "");
    if hashless in upstream then hashless else Key(f.projectNormalized, f.filename, f.digest)
  }

  function PyPIProjection(upstream: seq<Key>, repo: int): Projection {
    (r: Record) => if OfRepo(PyPI, repo, r) then Some(PyPIKey(upstream, r.pypi)) else None
  }

  /** A PyPI row is kept exactly when upstream lists it with its digest or without any. */
  lemma PyPIKept(upstream: seq<Key>, repo: int, rows: Table, local: seq<LocalRow>, id: int, f: PyPIFile)
    requires Loads(PyPIProjection(upstream, repo), rows, local)
    requires id in rows && rows[id] == PyPIRecord(f)
    ensures id !in IdsOf(Drift(local, upstream)) <==>
            || f.repoId != repo
            || Key(f.projectNormalized, f.filename, f.digest) in upstream
            || Key(f.projectNormalized, f.filename, "") in upstream
  {
    GoesIfUnlisted(PyPIProjection(upstream, repo), rows, local, upstream, id);
  }

  method PyPILocalRows(upstream: seq<Key>, repo: int, listed: seq<Listed>) returns (out: seq<LocalRow>)
    requires forall l :: l in listed ==> OfRepo(PyPI, repo, l.row)
    ensures out == Projected(PyPIProjection(upstream, repo), listed)
  {
    var hashless: map<Key, bool> := map[];
    for i := 0 to |upstream|
      invariant forall k :: k in hashless <==> k in upstream[..i] && k.c == ""
    {
      if upstream[i].c == "" {
        hashless := hashless[upstream[i] := true];
      }
    }
    out := [];
    for i := 0 to |listed|
      invariant out == Projected(PyPIProjection(upstream, repo), listed[..i])
    {
      assert listed[..i + 1][..i] == listed[..i] && listed[i] in listed;
      var f := listed[i].row.pypi;
      var digest := if Key(f.projectNormalized, f.filename, "") in hashless then "" else f.digest;
      out := out + [LocalRow(listed[i].id, listed[i].row, Key(f.projectNormalized, f.filename, digest))];
    }
    assert listed[..|listed|] == listed;
  }

  // ---- APT ----

  datatype AptSuite = AptSuite(id: int, suite: string, component: string)

  datatype SuiteRef = SuiteRef(suite: string, component: string)

  function DEBKey(ref: SuiteRef, p: DEBPackage): Key {
    Key(p.package + "|" + ref.component + "|" + ref.suite, p.version, p.architecture)
  }

  /** The key the sync handler projects an upstream entry to. */
  function UpstreamDEBKey(package: string, component: string, suite: string, version: string, arch: string): Key {
    Key(package + "|" + component + "|" + suite, version, arch)
  }

  /** The suite id's (suite, component), the last listed one if an id were listed twice; the zero
      value when the id is unknown. */
  function RefOf(suites: seq<AptSuite>, suiteId: int): SuiteRef {
    if suites == [] then SuiteRef("", "")
    else
      var last := suites[|suites| - 1];
      if last.id == suiteId then SuiteRef(last.suite, last.component) else RefOf(suites[..|suites| - 1], suiteId)
  }

  /** A row takes part only if its suite was synced this run. */
  function DEBProjection(suites: seq<AptSuite>, synced: seq<string>, repo: int): Projection {
    (r: Record) =>
      if OfRepo(DEB, repo, r) then
        var ref := RefOf(suites, r.deb.suiteId);
        if ref.suite != "" && ref.suite in synced then Some(DEBKey(ref, r.deb)) else None
      else None
  }

  method SuiteRefs(suites: seq<AptSuite>) returns (refs: map<int, SuiteRef>)
    ensures forall id :: RefOf(suites, id) == if id in refs then refs[id] else SuiteRef("", "")
  {
    refs := map[];
    for i := 0 to |suites|
      invariant forall id :: RefOf(suites[..i], id) == if id in refs then refs[id] else SuiteRef("", "")
    {
      assert suites[..i + 1][..i] == suites[..i];
      refs := refs[suites[i].id := SuiteRef(suites[i].suite, suites[i].component)];
    }
    assert suites[..|suites|] == suites;
  }

  method Scope(synced: seq<string>) returns (scope: set<string>)
    ensures forall s :: s in scope <==> s in synced && s != ""
  {
    scope := {};
    for i := 0 to |synced|
      invariant forall s :: s in scope <==> s in synced[..i] && s != ""
    {
      if synced[i] != "" {
        scope := scope + {synced[i]};
      }
    }
  }

  method DEBLocalRows(suites: seq<AptSuite>, synced: seq<string>, repo: int, listed: seq<Listed>)
    returns (out: seq<LocalRow>)
    requires forall l :: l in listed ==> OfRepo(DEB, repo, l.row)
    ensures out == Projected(DEBProjection(suites, synced, repo), listed)
  {
    var scope := Scope(synced);
    var refs := SuiteRefs(suites);
    out := [];
    for i := 0 to |listed|
      invariant out == Projected(DEBProjection(suites, synced, repo), listed[..i])
    {
      assert listed[..i + 1][..i] == listed[..i] && listed[i] in listed;
      var p := listed[i].row.deb;
      var ref := if p.suiteId in refs then refs[p.suiteId] else SuiteRef("", "");
      assert ref == RefOf(suites, p.suiteId);
      if ref.suite in scope {
        out := out + [LocalRow(listed[i].id, listed[i].row, DEBKey(ref, p))];
      }
    }
    assert listed[..|listed|] == listed;
  }

  predicate DistinctSuites(suites: seq<AptSuite>) {
    forall i, j :: 0 <= i < j < |suites| ==> suites[i].id != suites[j].id
  }

  lemma {:induction false} RefOfSuite(suites: seq<AptSuite>, s: AptSuite)
    requires DistinctSuites(suites) && s in suites
    ensures RefOf(suites, s.id) == SuiteRef(s.suite, s.component)
  {
    var n := |suites| - 1;
    var i :| 0 <= i <= n && suites[i] == s;
    if i < n {
      assert suites[..n][i] == s;
      RefOfSuite(suites[..n], s);
    }
  }

  lemma {:induction false} RefOfUnknown(suites: seq<AptSuite>, id: int)
    requires forall s :: s in suites ==> s.id != id
    ensures RefOf(suites, id) == SuiteRef("", "")
  {
    if suites != [] {
      assert suites[|suites| - 1] in suites;
      RefOfUnknown(suites[..|suites| - 1], id);
    }
  }

  /** An APT row of the repository is purged exactly when its suite, by the suite table, has a name, was
      synced, and upstream does not list the package with that component and suite. */
  lemma DEBGoes(suites: seq<AptSuite>, synced: seq<string>, repo: int, rows: Table, local: seq<LocalRow>,
                upstream: seq<Key>, id: int, p: DEBPackage)
    requires Loads(DEBProjection(suites, synced, repo), rows, local) && DistinctSuites(suites)
    requires id in rows && rows[id] == DEBRecord(p)
    ensures id in IdsOf(Drift(local, upstream)) <==>
            && p.repoId == repo
            && exists s :: s in suites && s.id == p.suiteId && s.suite != "" && s.suite in synced &&
                           Key(p.package + "|" + s.component + "|" + s.suite, p.version, p.architecture) !in upstream
  {
    GoesIfUnlisted(DEBProjection(suites, synced, repo), rows, local, upstream, id);
    forall s | s in suites && s.id == p.suiteId ensures RefOf(suites, p.suiteId) == SuiteRef(s.suite, s.component) {
      RefOfSuite(suites, s);
    }
    if forall s :: s in suites ==> s.id != p.suiteId { RefOfUnknown(suites, p.suiteId); }
  }

  /** The same for a row whose suite is known. */
  lemma DEBKept(suites: seq<AptSuite>, synced: seq<string>, repo: int, rows: Table, local: seq<LocalRow>,
                upstream: seq<Key>, id: int, p: DEBPackage, s: AptSuite)
    requires Loads(DEBProjection(suites, synced, repo), rows, local) && DistinctSuites(suites)
    requires id in rows && rows[id] == DEBRecord(p) && p.repoId == repo && s in suites && s.id == p.suiteId
    ensures id !in IdsOf(Drift(local, upstream)) <==>
            || s.suite == "" || s.suite !in synced
            || Key(p.package + "|" + s.component + "|" + s.suite, p.version, p.architecture) in upstream
  {
    GoesIfUnlisted(DEBProjection(suites, synced, repo), rows, local, upstream, id);
    RefOfSuite(suites, s);
  }

  /** A row of a suite that was not synced, or whose suite is unknown, is never purged. */
  lemma UnsyncedSuitesAreSafe(suites: seq<AptSuite>, synced: seq<string>, repo: int, rows: Table,
                              local: seq<LocalRow>, upstream: seq<Key>, id: int)
    requires Loads(DEBProjection(suites, synced, repo), rows, local)
    requires id in rows && rows[id].DEBRecord?
    requires var suite := RefOf(suites, rows[id].deb.suiteId).suite; suite == "" || suite !in synced
    ensures id !in IdsOf(Drift(local, upstream))
  {
    DriftMembers(local, upstream);
  }

  /** Cutting a flattened name at its first bar. */
  lemma {:induction false} FirstBar(p: string, q: string, a: string, b: string)
    requires '|' !in p && '|' !in q
    requires p + "|" + a == q + "|" + b
    ensures p == q && a == b
  {
    var s, t := p + "|" + a, q + "|" + b;
    if p == "" || q == "" {
      assert s[0] == t[0];
      assert p == "" && q == "";
      assert s[1..] == a && t[1..] == b;
    } else {
      assert p[0] == s[0] == t[0] == q[0];
      assert s[1..] == p[1..] + "|" + a && t[1..] == q[1..] + "|" + b;
      FirstBar(p[1..], q[1..], a, b);
      assert p == [p[0]] + p[1..] && q == [q[0]] + q[1..];
    }
  }

  /** The flattened key of a row equals an upstream key exactly when all five fields match, as long as
      package and component hold no bar. */
  lemma DEBKeyIsInjective(ref: SuiteRef, p: DEBPackage, package: string, component: string, suite: string,
                          version: string, arch: string)
    requires '|' !in p.package && '|' !in ref.component && '|' !in package && '|' !in component
    ensures DEBKey(ref, p) == UpstreamDEBKey(package, component, suite, version, arch) <==>
            p.package == package && ref.component == component && ref.suite == suite &&
            p.version == version && p.architecture == arch
  {
    if DEBKey(ref, p) == UpstreamDEBKey(package, component, suite, version, arch) {
      var a, b := ref.component + "|" + ref.suite, component + "|" + suite;
      assert p.package + "|" + ref.component + "|" + ref.suite == p.package + "|" + a;
      assert package + "|" + component + "|" + suite == package + "|" + b;
      FirstBar(p.package, package, a, b);
      FirstBar(ref.component, component, ref.suite, suite);
    }
  }

  /** With a bar in a package name two different tuples share a key. */
  lemma BarsCollide()
    ensures UpstreamDEBKey("a|b", "c", "d", "1", "x") == UpstreamDEBKey("a", "b|c", "d", "1", "x")
  {
  }
}
