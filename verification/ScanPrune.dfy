/** Pruning of finished scans, and the views of "the latest scan" that must not notice it. */
module ScanPrune {
  import opened Options

  datatype Status = Pending | Running | Done | Failed

  datatype Counts = Counts(critical: int, high: int, medium: int, low: int, unknown: int)

  datatype Scan = Scan(repo: int, kind: string, artifact: string, status: Status, summary: Counts)

  type Scans = map<int, Scan> // by id

  // ---- The latest scan of an artifact ----

  predicate Of(s: Scan, repo: int, kind: string, artifact: string) {
    s.repo == repo && s.kind == kind && s.artifact == artifact
  }

  predicate Finished(s: Scan) { s.status.Done? || s.status.Failed? }

  predicate IsMax(ids: set<int>, id: int) {
    id in ids && forall k :: k in ids ==> k <= id
  }

  lemma {:induction false} MaxExists(ids: set<int>) returns (id: int)
    requires ids != {}
    ensures IsMax(ids, id)
  {
    EmptyOrNot(ids);
    var k :| k in ids;
    if ids == {k} {
      id := k;
    } else {
      var rest := ids - {k};
      assert ids == rest + {k};
      var m := MaxExists(rest);
      id := if m > k then m else k;
    }
  }

  lemma EmptyOrNot(ids: set<int>)
    ensures ids == {} || exists k :: k in ids
  {
    if forall k :: k !in ids { assert ids == {}; }
  }

  function ScanIds(scans: Scans, repo: int, kind: string, artifact: string): set<int> {
    set id | id in scans && Of(scans[id], repo, kind, artifact)
  }

  function FinishedIds(scans: Scans, repo: int, kind: string, artifact: string): set<int> {
    set id | id in scans && Of(scans[id], repo, kind, artifact) && Finished(scans[id])
  }

  /** The row latestScanJoin picks: MAX(id) over the artifact's scans, if there are any. */
  ghost function LatestScan(scans: Scans, repo: int, kind: string, artifact: string): Option<int> {
    var ids := ScanIds(scans, repo, kind, artifact);
    if ids == {} then None
    else MaxIsThere(ids); var id :| IsMax(ids, id); Some(id)
  }

  lemma MaxIsThere(ids: set<int>)
    requires ids != {}
    ensures exists id :: IsMax(ids, id)
  {
    var id := MaxExists(ids);
  }

  /** Latest means: of the artifact's own scans, the one with the highest id, whatever its status. */
  lemma LatestScanExactly(scans: Scans, repo: int, kind: string, artifact: string, id: int)
    ensures LatestScan(scans, repo, kind, artifact) == Some(id) <==>
            && id in scans && scans[id].repo == repo && scans[id].kind == kind && scans[id].artifact == artifact
            && forall k :: k in scans && scans[k].repo == repo && scans[k].kind == kind && scans[k].artifact == artifact
                           ==> k <= id
    ensures LatestScan(scans, repo, kind, artifact).None? <==>
            forall k :: k in scans && scans[k].repo == repo && scans[k].kind == kind ==> scans[k].artifact != artifact
  {
    var ids := ScanIds(scans, repo, kind, artifact);
    assert forall k :: k in ids <==>
                       k in scans && scans[k].repo == repo && scans[k].kind == kind && scans[k].artifact == artifact;
    EmptyOrNot(ids);
    LatestIsThere(scans, repo, kind, artifact);
  }

  // ---- What is derived from it ----

  datatype Severity = NeverScanned | Scanning | ScanFailed | Critical | High | Medium | Low | Unknown | Clean

  function DeriveScanSeverity(status: Option<Status>, c: Counts): Severity {
    match status
    case None => NeverScanned
    case Some(Pending) => Scanning
    case Some(Running) => Scanning
    case Some(Failed) => ScanFailed
    case Some(Done) =>
      if c.critical > 0 then Critical else if c.high > 0 then High else if c.medium > 0 then Medium
      else if c.low > 0 then Low else if c.unknown > 0 then Unknown else Clean
  }

  /** The listed severity of a finished scan is the worst bucket with a finding in it. */
  lemma SeverityIsWorstFinding(c: Counts)
    ensures var s := DeriveScanSeverity(Some(Done), c);
            && (s == Critical <==> c.critical > 0)
            && (s == High <==> c.high > 0 && c.critical <= 0)
            && (s == Medium <==> c.medium > 0 && c.critical <= 0 && c.high <= 0)
            && (s == Low <==> c.low > 0 && c.critical <= 0 && c.high <= 0 && c.medium <= 0)
            && (s == Unknown <==> c.unknown > 0 && c.critical <= 0 && c.high <= 0 && c.medium <= 0 && c.low <= 0)
            && (s == Clean <==> c.critical <= 0 && c.high <= 0 && c.medium <= 0 && c.low <= 0 && c.unknown <= 0)
  {
  }

  /** Without a finished scan the counts do not matter. */
  lemma UnfinishedSeverity(c: Counts)
    ensures DeriveScanSeverity(None, c) == NeverScanned && DeriveScanSeverity(Some(Failed), c) == ScanFailed
    ensures DeriveScanSeverity(Some(Pending), c) == DeriveScanSeverity(Some(Running), c) == Scanning
  {
  }

  /** The severity listed for an artifact. */
  ghost function ListedSeverity(scans: Scans, repo: int, kind: string, artifact: string): Severity {
    match LatestScan(scans, repo, kind, artifact)
    case None => NeverScanned
    case Some(id) => LatestIsThere(scans, repo, kind, artifact);
                     DeriveScanSeverity(Some(scans[id].status), scans[id].summary)
  }

  lemma LatestIsThere(scans: Scans, repo: int, kind: string, artifact: string)
    ensures var l := LatestScan(scans, repo, kind, artifact);
            l.Some? ==> IsMax(ScanIds(scans, repo, kind, artifact), l.value) && l.value in scans
  {
  }

  /** The latest scans of the children of an index; each child once, unscanned ones left out. */
  ghost function ChildScans(scans: Scans, repo: int, digests: seq<string>): seq<Scan> {
    if digests == [] then []
    else
      var rest := ChildScans(scans, repo, digests[..|digests| - 1]);
      var d := digests[|digests| - 1];
      match LatestScan(scans, repo, "docker", d)
      case None => rest
      case Some(id) => LatestIsThere(scans, repo, "docker", d);
                       if d in digests[..|digests| - 1] then rest else rest + [scans[id]]
  }

  /** The listed children that have a scan. */
  ghost function Scanned(scans: Scans, repo: int, digests: seq<string>): set<string> {
    set d | d in digests && LatestScan(scans, repo, "docker", d).Some?
  }

  /** A row of ChildScans is the latest scan of a listed child, every scanned child has its row, and a child
      listed twice is counted once. */
  lemma {:induction false} ChildScansExactly(scans: Scans, repo: int, digests: seq<string>)
    ensures forall s :: s in ChildScans(scans, repo, digests) <==>
                        exists d :: d in digests && IsLatestOf(scans, repo, d, s)
    ensures |ChildScans(scans, repo, digests)| == |Scanned(scans, repo, digests)|
  {
    if digests != [] {
      var n := |digests| - 1;
      ChildScansExactly(scans, repo, digests[..n]);
      OneChildMore(scans, repo, digests);
      assert digests == digests[..n] + [digests[n]];
    }
  }

  lemma OneChildMore(scans: Scans, repo: int, digests: seq<string>)
    requires digests != []
    ensures var n := |digests| - 1; var d := digests[n];
            var rest, all := ChildScans(scans, repo, digests[..n]), ChildScans(scans, repo, digests);
            && Scanned(scans, repo, digests) == Scanned(scans, repo, digests[..n]) +
                 (if LatestScan(scans, repo, "docker", d).Some? then {d} else {})
            && (if LatestScan(scans, repo, "docker", d).None? || d in digests[..n] then all == rest
                else |all| == |rest| + 1 && forall s :: s in all <==> s in rest || IsLatestOf(scans, repo, d, s))
  {
    var n := |digests| - 1;
    assert digests == digests[..n] + [digests[n]];
    LatestIsThere(scans, repo, "docker", digests[n]);
  }

  ghost predicate IsLatestOf(scans: Scans, repo: int, d: string, s: Scan) {
    var l := LatestScan(scans, repo, "docker", d);
    l.Some? && l.value in scans && scans[l.value] == s
  }

  function DoneSum(rows: seq<Scan>): Counts {
    if rows == [] then Counts(0, 0, 0, 0, 0)
    else
      var s, r := DoneSum(rows[..|rows| - 1]), rows[|rows| - 1];
      if r.status.Done?
      then Counts(s.critical + r.summary.critical, s.high + r.summary.high, s.medium + r.summary.medium,
                  s.low + r.summary.low, 0)
      else s
  }

  predicate Any(rows: seq<Scan>, status: Status) {
    exists r :: r in rows && r.status == status
  }

  /** What the aggregate of the children says: in flight beats done beats failed; counts are summed over
      the finished ones and carry no unknown bucket. */
  function Aggregate(rows: seq<Scan>): Option<(Status, Counts)> {
    if Any(rows, Pending) || Any(rows, Running) then Some((Pending, DoneSum(rows)))
    else if Any(rows, Failed) && !Any(rows, Done) then Some((Failed, DoneSum(rows)))
    else if Any(rows, Done) then Some((Done, DoneSum(rows)))
    else None
  }

  /** The loop over the children's rows. */
  method AggregateIndexScan(rows: seq<Scan>) returns (r: Option<(Status, Counts)>)
    ensures r == Aggregate(rows)
    ensures r.None? <==> rows == []
  {
    var sum := Counts(0, 0, 0, 0, 0);
    var anyScanning, anyFailed, anyDone := false, false, false;
    for i := 0 to |rows|
      invariant sum == DoneSum(rows[..i])
      invariant anyScanning <==> Any(rows[..i], Pending) || Any(rows[..i], Running)
      invariant anyFailed <==> Any(rows[..i], Failed)
      invariant anyDone <==> Any(rows[..i], Done)
      invariant i > 0 ==> anyScanning || anyFailed || anyDone
    {
      RowCounted(rows, i);
      match rows[i].status {
        case Pending => anyScanning := true;
        case Running => anyScanning := true;
        case Failed => anyFailed := true;
        case Done =>
          anyDone := true;
          var c := rows[i].summary;
          sum := Counts(sum.critical + c.critical, sum.high + c.high, sum.medium + c.medium, sum.low + c.low, 0);
      }
    }
    assert rows[..|rows|] == rows;
    if anyScanning { r := Some((Pending, sum)); }
    else if anyFailed && !anyDone { r := Some((Failed, sum)); }
    else if anyDone { r := Some((Done, sum)); }
    else { r := None; }
  }

  lemma AnyGrows(rows: seq<Scan>, row: Scan, st: Status)
    ensures Any(rows + [row], st) <==> Any(rows, st) || row.status == st
  {
    if Any(rows, st) {
      var r :| r in rows && r.status == st;
      assert r in rows + [row];
    }
    if row.status == st { assert row in rows + [row]; }
  }

  /** One row more. */
  lemma RowCounted(rows: seq<Scan>, i: nat)
    requires i < |rows|
    ensures forall st :: Any(rows[..i + 1], st) <==> Any(rows[..i], st) || rows[i].status == st
    ensures DoneSum(rows[..i + 1]) ==
            var s, c := DoneSum(rows[..i]), rows[i].summary;
            if rows[i].status.Done?
            then Counts(s.critical + c.critical, s.high + c.high, s.medium + c.medium, s.low + c.low, 0) else s
  {
    assert rows[..i + 1] == rows[..i] + [rows[i]] && rows[..i + 1][..i] == rows[..i];
    forall st ensures Any(rows[..i + 1], st) <==> Any(rows[..i], st) || rows[i].status == st {
      AnyGrows(rows[..i], rows[i], st);
    }
  }

  function Plus(a: Counts, b: Counts): Counts {
    Counts(a.critical + b.critical, a.high + b.high, a.medium + b.medium, a.low + b.low, a.unknown + b.unknown)
  }

  /** The counts of two lists of rows add up ... */
  lemma {:induction false} DoneSumAdds(a: seq<Scan>, b: seq<Scan>)
    ensures DoneSum(a + b) == Plus(DoneSum(a), DoneSum(b))
  {
    if b == [] {
      assert a + b == a;
      UnknownIsZero(a);
    } else {
      var n := |b| - 1;
      DoneSumAdds(a, b[..n]);
      assert (a + b)[..|a + b| - 1] == a + b[..n] && (a + b)[|a + b| - 1] == b[n];
      UnknownIsZero(a);
      UnknownIsZero(b[..n]);
    }
  }

  /** ... a finished row adds its four buckets, any other row nothing. */
  lemma DoneSumOfOne(r: Scan)
    ensures DoneSum([r]) == if r.status == Done then r.summary.(unknown := 0) else Counts(0, 0, 0, 0, 0)
  {
    assert [r][..0] == [];
  }

  lemma {:induction false} UnknownIsZero(rows: seq<Scan>)
    ensures DoneSum(rows).unknown == 0
  {
    if rows != [] { UnknownIsZero(rows[..|rows| - 1]); }
  }

  /** What the aggregate says of the children: nothing exactly without rows; in flight if one is; failed if
      all are; done if one is and none is in flight. */
  lemma AggregateExactly(rows: seq<Scan>)
    ensures var agg := Aggregate(rows);
            && (agg.None? <==> rows == [])
            && (rows != [] ==>
                  && agg.value.1 == DoneSum(rows)
                  && (agg.value.0 == Pending <==> exists r :: r in rows && r.status in {Pending, Running})
                  && (agg.value.0 == Failed <==> forall r :: r in rows ==> r.status == Failed)
                  && (agg.value.0 == Done <==> (exists r :: r in rows && r.status == Done) &&
                                               forall r :: r in rows ==> r.status in {Done, Failed}))
  {
    if rows != [] {
      assert rows[0] in rows;
      var st := rows[0].status;
      assert Any(rows, st);
    }
  }

  /** The severity listed for a multi-arch index that has no scan of its own. */
  ghost function IndexSeverity(scans: Scans, repo: int, digests: seq<string>): Severity {
    match Aggregate(ChildScans(scans, repo, digests))
    case None => NeverScanned
    case Some((status, counts)) => DeriveScanSeverity(Some(status), counts)
  }

  // ---- Pruning ----

  /** Finished, and not the newest finished scan of its artifact. */
  predicate Prunable(scans: Scans, repo: int, id: int) {
    && id in scans && scans[id].repo == repo && Finished(scans[id])
    && !IsMax(FinishedIds(scans, repo, scans[id].kind, scans[id].artifact), id)
  }

  function PruneSet(scans: Scans, repo: int): set<int> {
    set id | id in scans && Prunable(scans, repo, id)
  }

  /** The tables a prune writes: scans, the vulnerabilities found by each scan, and the search index of
      CVE ids, which has no foreign key. */
  class ScanTables {
    var scans: Scans
    var vulnerabilities: map<int, set<string>>
    var cvesFts: set<string>

    constructor (scans: Scans, vulnerabilities: map<int, set<string>>)
      ensures this.scans == scans && this.vulnerabilities == vulnerabilities && cvesFts == Cves(vulnerabilities)
    {
      this.scans, this.vulnerabilities := scans, vulnerabilities;
      this.cvesFts := Cves(vulnerabilities);
    }

    /** Drop a scan's findings, and from the index those CVEs no other scan reports. */
    method DeleteVulnerabilitiesByScan(id: int)
      requires cvesFts == Cves(vulnerabilities)
      modifies this`vulnerabilities, this`cvesFts
      ensures vulnerabilities == old(vulnerabilities) - {id} && cvesFts == Cves(vulnerabilities)
    {
      ghost var before := vulnerabilities;
      if id in vulnerabilities {
        var orphans := set c | c in vulnerabilities[id] && !ReportedElsewhere(vulnerabilities, id, c);
        cvesFts := cvesFts - orphans;
        vulnerabilities := vulnerabilities - {id};
        OrphansGo(before, id);
      } else {
        vulnerabilities := vulnerabilities - {id};
        assert vulnerabilities == before;
      }
    }

    /** The prune transaction: collect the ids, then delete one by one. */
    method Prune(repo: int) returns (deleted: nat)
      requires cvesFts == Cves(vulnerabilities)
      modifies this
      ensures scans == old(scans) - PruneSet(old(scans), repo)
      ensures vulnerabilities == old(vulnerabilities) - PruneSet(old(scans), repo)
      ensures cvesFts == Cves(vulnerabilities)
      ensures deleted == |PruneSet(old(scans), repo)|
    {
      var ids := PruneSet(scans, repo);
      deleted := |ids|;
      var rest := ids;
      while rest != {}
        invariant rest <= ids
        invariant scans == old(scans) - (ids - rest)
        invariant vulnerabilities == old(vulnerabilities) - (ids - rest)
        invariant cvesFts == Cves(vulnerabilities)
      {
        var id :| id in rest;
        DeleteVulnerabilitiesByScan(id);
        scans := scans - {id};
        assert ids - (rest - {id}) == (ids - rest) + {id};
        rest := rest - {id};
      }
    }
  }

  function Cves(v: map<int, set<string>>): set<string> {
    set id, c | id in v && c in v[id] :: c
  }

  predicate ReportedElsewhere(v: map<int, set<string>>, id: int, c: string) {
    exists k :: k in v && k != id && c in v[k]
  }

  lemma OrphansGo(v: map<int, set<string>>, id: int)
    requires id in v
    ensures Cves(v - {id}) == Cves(v) - set c | c in v[id] && !ReportedElsewhere(v, id, c)
  {
    var left := v - {id};
    var orphans := set c | c in v[id] && !ReportedElsewhere(v, id, c);
    forall c | c in Cves(v) - orphans ensures c in Cves(left) {
      var k :| k in v && c in v[k];
      if k == id {
        var m :| m in v && m != id && c in v[m];
        assert m in left && c in left[m];
      } else {
        assert k in left && c in left[k];
      }
    }
    forall c | c in Cves(left) ensures c in Cves(v) - orphans {
      var k :| k in left && c in left[k];
      assert k in v && k != id && c in v[k];
    }
  }

  // ---- What a prune deletes ----

  /** A scan goes if and only if it is a finished one of the repository and its artifact has a newer finished
      one. */
  lemma PrunedExactly(scans: Scans, repo: int, id: int)
    requires id in scans
    ensures id !in scans - PruneSet(scans, repo) <==>
            var s := scans[id];
            && s.repo == repo && s.status in {Done, Failed}
            && exists k :: k in scans && k > id && scans[k].repo == repo && scans[k].kind == s.kind &&
                           scans[k].artifact == s.artifact && scans[k].status in {Done, Failed}
  {
    var s := scans[id];
    var finished := FinishedIds(scans, repo, s.kind, s.artifact);
    assert forall k :: k in finished <==>
                       k in scans && scans[k].repo == repo && scans[k].kind == s.kind &&
                       scans[k].artifact == s.artifact && scans[k].status in {Done, Failed};
  }

  /** The search index holds exactly the CVEs some scan reports. */
  lemma IndexedExactly(v: map<int, set<string>>, c: string)
    ensures c in Cves(v) <==> exists id :: id in v && c in v[id]
  {
  }

  // ---- Pruning changes no view ----

  /** The newest scan of an artifact is never pruned. */
  lemma NewestStays(scans: Scans, repo: int, kind: string, artifact: string, r: int, id: int)
    requires IsMax(ScanIds(scans, r, kind, artifact), id)
    ensures id !in PruneSet(scans, repo)
  {
    var finished := FinishedIds(scans, r, kind, artifact);
    assert finished <= ScanIds(scans, r, kind, artifact);
    if Finished(scans[id]) { assert IsMax(finished, id); }
  }

  /** For every artifact of every repository the latest scan row is the same before and after. */
  lemma PruneKeepsLatest(scans: Scans, repo: int, r: int, kind: string, artifact: string)
    ensures LatestScan(scans - PruneSet(scans, repo), r, kind, artifact) == LatestScan(scans, r, kind, artifact)
  {
    var left := scans - PruneSet(scans, repo);
    var before, after := ScanIds(scans, r, kind, artifact), ScanIds(left, r, kind, artifact);
    assert after <= before;
    if before != {} {
      var id := MaxExists(before);
      NewestStays(scans, repo, kind, artifact, r, id);
      assert id in left && id in after;
      assert IsMax(after, id);
      assert LatestScan(scans, r, kind, artifact) == Some(id);
      assert LatestScan(left, r, kind, artifact) == Some(id);
    }
  }

  lemma PruneKeepsListedSeverity(scans: Scans, repo: int, r: int, kind: string, artifact: string)
    ensures ListedSeverity(scans - PruneSet(scans, repo), r, kind, artifact) == ListedSeverity(scans, r, kind, artifact)
  {
    PruneKeepsLatest(scans, repo, r, kind, artifact);
    LatestIsThere(scans, r, kind, artifact);
    LatestIsThere(scans - PruneSet(scans, repo), r, kind, artifact);
  }

  lemma {:induction false} PruneKeepsChildren(scans: Scans, repo: int, r: int, digests: seq<string>)
    ensures ChildScans(scans - PruneSet(scans, repo), r, digests) == ChildScans(scans, r, digests)
  {
    if digests != [] {
      var n := |digests| - 1;
      PruneKeepsChildren(scans, repo, r, digests[..n]);
      PruneKeepsLatest(scans, repo, r, "docker", digests[n]);
      LatestIsThere(scans, r, "docker", digests[n]);
      LatestIsThere(scans - PruneSet(scans, repo), r, "docker", digests[n]);
    }
  }

  /** The severity of any multi-arch index is the same before and after. */
  lemma PruneKeepsIndexSeverity(scans: Scans, repo: int, r: int, digests: seq<string>)
    ensures IndexSeverity(scans - PruneSet(scans, repo), r, digests) == IndexSeverity(scans, r, digests)
  {
    PruneKeepsChildren(scans, repo, r, digests);
  }

  /** Scans in flight survive, as does everything in other repositories. */
  lemma PruneSparesInFlight(scans: Scans, repo: int, id: int)
    requires id in scans && (!Finished(scans[id]) || scans[id].repo != repo)
    ensures var left := scans - PruneSet(scans, repo); id in left && left[id] == scans[id]
  {
    assert id !in PruneSet(scans, repo);
  }

  /** Pruning again deletes nothing. */
  lemma PruneTwice(scans: Scans, repo: int)
    ensures PruneSet(scans - PruneSet(scans, repo), repo) == {}
  {
    var left := scans - PruneSet(scans, repo);
    forall id | id in left && left[id].repo == repo && Finished(left[id])
      ensures IsMax(FinishedIds(left, repo, left[id].kind, left[id].artifact), id)
    {
      assert id !in PruneSet(scans, repo);
      assert IsMax(FinishedIds(scans, repo, left[id].kind, left[id].artifact), id);
      assert FinishedIds(left, repo, left[id].kind, left[id].artifact) <=
             FinishedIds(scans, repo, left[id].kind, left[id].artifact);
    }
    assert forall id :: id in left ==> !Prunable(left, repo, id);
  }
}
