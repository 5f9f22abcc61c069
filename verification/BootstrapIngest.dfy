/** First-boot seeding: the one transaction that ingests a validated file, and when the schema of the
    database lets it through. */
module BootstrapIngest {
  import opened Options
  import opened Bootstrap

  /** A key's token stands for its SHA-256. */
  datatype Row =
    | UserRow(id: int, login: string, isSuperAdmin: bool)
    | ProjectRow(id: int, name: string)
    | MemberRow(projectId: int, userId: int)
    | RepoRow(projectId: int, repoType: string, name: string, blockOnSeverity: string)
    | KeyRow(ownerKind: string, ownerUserId: Option<int>, ownerProjectId: Option<int>, name: string, prefix: string,
             token: string)
    | SettingRow(key: string)

  datatype Report = Report(users: nat, projects: nat, members: nat, repos: nat, apiKeys: nat)

  /** A lookup that finds nothing, as against an INSERT the database refuses. */
  datatype Failure = LookupFailed | InsertFailed

  /** Whether the database takes a row after the ones the transaction has inserted. */
  type Database = (seq<Row>, Row) -> bool

  /** The open transaction, and the id the database gives the n-th row. */
  class Tx {
    const accepts: Database
    const ids: nat -> int
    var rows: seq<Row>

    constructor (accepts: Database, ids: nat -> int)
      ensures this.accepts == accepts && this.ids == ids && rows == []
    {
      this.accepts, this.ids, this.rows := accepts, ids, [];
    }

    method Insert(row: Row) returns (ok: bool)
      modifies this
      ensures ok == accepts(old(rows), row)
      ensures rows == if ok then old(rows) + [row] else old(rows)
    {
      ok := accepts(rows, row);
      if ok { rows := rows + [row]; }
    }
  }

  // ---- The rows of a file, in the order of their inserts ----

  type Ids = map<string, int>

  function IdIn(ids: Ids, name: string): int { if name in ids then ids[name] else 0 }

  /** The super-admin's row is the first, the n-th user's follows the n before it. */
  function UserRows(f: File, ids: nat -> int, n: nat): (rows: seq<Row>)
    requires n <= |f.users|
    ensures |rows| == n + 1
  {
    if n == 0 then [UserRow(ids(0), f.superAdmin.login, true)]
    else UserRows(f, ids, n - 1) + [UserRow(ids(n), f.users[n - 1].login, false)]
  }

  function UserIds(f: File, ids: nat -> int, n: nat): Ids
    requires n <= |f.users|
  {
    if n == 0 then map[f.superAdmin.login := ids(0)]
    else UserIds(f, ids, n - 1)[f.users[n - 1].login := ids(n)]
  }

  function MemberRows(pid: int, members: seq<string>, users: Ids): seq<Row> {
    seq(|members|, i requires 0 <= i < |members| => MemberRow(pid, IdIn(users, members[i])))
  }

  function ProjectBlock(pid: int, p: Project, users: Ids): seq<Row> {
    [ProjectRow(pid, p.name)] + MemberRows(pid, p.members, users)
  }

  /** The rows after the first n projects, each with its members, have followed the ones before. */
  function WithProjects(before: seq<Row>, projects: seq<Project>, n: nat, ids: nat -> int, users: Ids): seq<Row>
    requires n <= |projects|
  {
    if n == 0 then before
    else
      var done := WithProjects(before, projects, n - 1, ids, users);
      done + ProjectBlock(ids(|done|), projects[n - 1], users)
  }

  function ProjectIds(before: seq<Row>, projects: seq<Project>, n: nat, ids: nat -> int, users: Ids): Ids
    requires n <= |projects|
  {
    if n == 0 then map[]
    else
      var done := WithProjects(before, projects, n - 1, ids, users);
      ProjectIds(before, projects, n - 1, ids, users)[projects[n - 1].name := ids(|done|)]
  }

  function SeverityOf(r: Repo): string {
    if r.blockOnSeverity.Some? && r.blockOnSeverity.value != "" then r.blockOnSeverity.value else "none"
  }

  function RepoRowOf(r: Repo, projects: Ids): Row {
    RepoRow(IdIn(projects, r.project), r.repoType, r.name, SeverityOf(r))
  }

  function RepoRows(repos: seq<Repo>, projects: Ids): seq<Row> {
    seq(|repos|, i requires 0 <= i < |repos| => RepoRowOf(repos[i], projects))
  }

  /** The lookups for one key: token, kind, owner. */
  predicate KeyResolves(k: APIKey, users: Ids, projects: Ids) {
    && ParseAPIKey(k.token).Some?
    && if k.ownerKind == "user" then ParseAPIKey(k.token).value.kind == 'u' && k.owner in users
       else k.ownerKind == "project" && ParseAPIKey(k.token).value.kind == 'p' && k.owner in projects
  }

  function KeyRowOf(k: APIKey, users: Ids, projects: Ids): Row {
    var prefix := match ParseAPIKey(k.token) case Some(parsed) => parsed.prefix case None => "";
    if k.ownerKind == "user" then KeyRow("user", Some(IdIn(users, k.owner)), None, k.name, prefix, k.token)
    else KeyRow("project", None, Some(IdIn(projects, k.owner)), k.name, prefix, k.token)
  }

  function KeyRows(keys: seq<APIKey>, users: Ids, projects: Ids): seq<Row> {
    seq(|keys|, i requires 0 <= i < |keys| => KeyRowOf(keys[i], users, projects))
  }

  const SETTINGS: seq<Row> := [SettingRow("seeded_from_bootstrap"), SettingRow("bootstrap_sha256")]

  function UsersOf(f: File, ids: nat -> int): Ids { UserIds(f, ids, |f.users|) }

  function UserPart(f: File, ids: nat -> int): seq<Row> { UserRows(f, ids, |f.users|) }

  function ProjectsOf(f: File, ids: nat -> int): Ids {
    ProjectIds(UserPart(f, ids), f.projects, |f.projects|, ids, UsersOf(f, ids))
  }

  /** The users and then the projects. */
  function ProjectPart(f: File, ids: nat -> int): seq<Row> {
    WithProjects(UserPart(f, ids), f.projects, |f.projects|, ids, UsersOf(f, ids))
  }

  function RepoPart(f: File, ids: nat -> int): seq<Row> { RepoRows(f.repos, ProjectsOf(f, ids)) }

  function KeyPart(f: File, ids: nat -> int): seq<Row> { KeyRows(f.apiKeys, UsersOf(f, ids), ProjectsOf(f, ids)) }

  function AllRows(f: File, ids: nat -> int): seq<Row> {
    ProjectPart(f, ids) + RepoPart(f, ids) + KeyPart(f, ids) + SETTINGS
  }

  function MemberCount(projects: seq<Project>, n: nat): nat
    requires n <= |projects|
  {
    if n == 0 then 0 else MemberCount(projects, n - 1) + |projects[n - 1].members|
  }

  function CountsOf(f: File): Report {
    Report(1 + |f.users|, |f.projects|, MemberCount(f.projects, |f.projects|), |f.repos|, |f.apiKeys|)
  }

  // ---- Which inserts go through ----

  /** The database takes every row from position start on, one after the other. */
  ghost predicate AcceptedFrom(accepts: Database, rows: seq<Row>, start: nat) {
    forall k :: start <= k < |rows| ==> accepts(rows[..k], rows[k])
  }

  lemma OneTaken(accepts: Database, rows: seq<Row>, row: Row, start: nat)
    requires start <= |rows| && AcceptedFrom(accepts, rows, start) && accepts(rows, row)
    ensures AcceptedFrom(accepts, rows + [row], start)
  {
    forall k | start <= k < |rows + [row]| ensures accepts((rows + [row])[..k], (rows + [row])[k]) {
      assert (rows + [row])[..k] == rows[..k];
      assert k == |rows| ==> rows[..k] == rows;
    }
  }

  lemma OneRefused(accepts: Database, rows: seq<Row>, row: Row, all: seq<Row>, start: nat)
    requires start <= |rows| && rows + [row] <= all && !accepts(rows, row)
    ensures !AcceptedFrom(accepts, all, start)
  {
    assert all[..|rows|] == rows && all[|rows|] == (rows + [row])[|rows|] == row;
  }

  lemma Stages(accepts: Database, a: seq<Row>, b: seq<Row>, start: nat)
    requires start <= |a| && a <= b
    ensures AcceptedFrom(accepts, b, start) <==> AcceptedFrom(accepts, a, start) && AcceptedFrom(accepts, b, |a|)
  {
    forall k | 0 <= k < |a| ensures b[..k] == a[..k] && b[k] == a[k] {}
  }

  // ---- The loops of the transaction ----

  lemma {:induction false} UserRowsGrow(f: File, ids: nat -> int, i: nat, n: nat)
    requires i <= n <= |f.users|
    ensures UserRows(f, ids, i) <= UserRows(f, ids, n)
  {
    if i < n { UserRowsGrow(f, ids, i, n - 1); }
  }

  /** One user more: the next row, and what becomes of the whole if it is refused. */
  lemma UserStep(accepts: Database, f: File, ids: nat -> int, i: nat)
    requires i < |f.users|
    ensures var rows, row := UserRows(f, ids, i), UserRow(ids(i + 1), f.users[i].login, false);
            && UserRows(f, ids, i + 1) == rows + [row]
            && (AcceptedFrom(accepts, rows, 0) && accepts(rows, row) ==> AcceptedFrom(accepts, rows + [row], 0))
            && (!accepts(rows, row) ==> !AcceptedFrom(accepts, UserPart(f, ids), 0))
  {
    var rows, row := UserRows(f, ids, i), UserRow(ids(i + 1), f.users[i].login, false);
    UserRowsGrow(f, ids, i + 1, |f.users|);
    if !accepts(rows, row) {
      OneRefused(accepts, rows, row, UserPart(f, ids), 0);
    } else if AcceptedFrom(accepts, rows, 0) {
      OneTaken(accepts, rows, row, 0);
    }
  }

  lemma FirstUser(accepts: Database, f: File, ids: nat -> int)
    ensures AcceptedFrom(accepts, UserPart(f, ids), 0) ==> accepts([], UserRow(ids(0), f.superAdmin.login, true))
    ensures accepts([], UserRow(ids(0), f.superAdmin.login, true)) ==> AcceptedFrom(accepts, UserRows(f, ids, 0), 0)
  {
    var row := UserRow(ids(0), f.superAdmin.login, true);
    UserRowsGrow(f, ids, 0, |f.users|);
    if !accepts([], row) {
      OneRefused(accepts, [], row, UserPart(f, ids), 0);
    } else {
      OneTaken(accepts, [], row, 0);
    }
  }

  /** The i-th of the regular users. */
  method IngestUser(tx: Tx, f: File, i: nat) returns (ok: bool, id: int)
    requires i < |f.users| && tx.rows == UserRows(f, tx.ids, i) && AcceptedFrom(tx.accepts, tx.rows, 0)
    modifies tx
    ensures id == tx.ids(i + 1)
    ensures ok ==> tx.rows == UserRows(f, tx.ids, i + 1) && AcceptedFrom(tx.accepts, tx.rows, 0)
    ensures !ok ==> !AcceptedFrom(tx.accepts, UserPart(f, tx.ids), 0)
  {
    id := tx.ids(|tx.rows|);
    UserStep(tx.accepts, f, tx.ids, i);
    ok := tx.Insert(UserRow(id, f.users[i].login, false));
  }

  method IngestSuperAdmin(tx: Tx, f: File) returns (ok: bool, id: int)
    requires tx.rows == []
    modifies tx
    ensures id == tx.ids(0)
    ensures ok ==> tx.rows == UserRows(f, tx.ids, 0) && AcceptedFrom(tx.accepts, tx.rows, 0)
    ensures !ok ==> !AcceptedFrom(tx.accepts, UserPart(f, tx.ids), 0)
  {
    id := tx.ids(|tx.rows|);
    FirstUser(tx.accepts, f, tx.ids);
    ok := tx.Insert(UserRow(id, f.superAdmin.login, true));
  }

  method IngestUsers(tx: Tx, f: File) returns (failure: Option<Failure>, userIDByLogin: Ids, count: nat)
    requires tx.rows == []
    modifies tx
    ensures failure.None? <==> AcceptedFrom(tx.accepts, UserPart(f, tx.ids), 0)
    ensures failure.Some? ==> failure.value.InsertFailed?
    ensures failure.None? ==> tx.rows == UserPart(f, tx.ids) && userIDByLogin == UsersOf(f, tx.ids)
    ensures failure.None? ==> count == 1 + |f.users|
  {
    userIDByLogin, count := map[], 0;
    var ok, id := IngestSuperAdmin(tx, f);
    if !ok { return Some(InsertFailed), userIDByLogin, count; }
    userIDByLogin := userIDByLogin[f.superAdmin.login := id];
    count := 1;
    for i := 0 to |f.users|
      invariant count == 1 + i && tx.rows == UserRows(f, tx.ids, i) && userIDByLogin == UserIds(f, tx.ids, i)
      invariant AcceptedFrom(tx.accepts, tx.rows, 0)
    {
      ok, id := IngestUser(tx, f, i);
      if !ok { return Some(InsertFailed), userIDByLogin, count; }
      userIDByLogin := userIDByLogin[f.users[i].login := id];
      count := count + 1;
    }
    failure := None;
  }

  lemma MemberRowsGrow(pid: int, members: seq<string>, users: Ids, i: nat)
    requires i < |members|
    ensures MemberRows(pid, members[..i + 1], users) ==
            MemberRows(pid, members[..i], users) + [MemberRow(pid, IdIn(users, members[i]))]
    ensures MemberRows(pid, members[..i + 1], users) <= MemberRows(pid, members, users)
  {
  }

  method IngestMembers(tx: Tx, pid: int, p: Project, users: Ids) returns (failure: Option<Failure>, count: nat)
    modifies tx
    ensures failure == Some(LookupFailed) ==> !MembersIn(p, users.Keys)
    ensures var all := old(tx.rows) + MemberRows(pid, p.members, users);
            && (failure.None? ==> MembersIn(p, users.Keys) && tx.rows == all && count == |p.members|)
            && (failure != Some(LookupFailed) ==>
                  (failure.None? <==> AcceptedFrom(tx.accepts, all, |old(tx.rows)|)))
  {
    count := 0;
    ghost var start := tx.rows;
    for i := 0 to |p.members|
      invariant count == i && tx.rows == start + MemberRows(pid, p.members[..i], users)
      invariant forall k :: 0 <= k < i ==> p.members[k] in users
      invariant AcceptedFrom(tx.accepts, tx.rows, |start|)
    {
      var m := p.members[i];
      ghost var before := tx.rows;
      if m !in users { return Some(LookupFailed), count; }
      MemberRowsGrow(pid, p.members, users, i);
      var ok := tx.Insert(MemberRow(pid, users[m]));
      if !ok {
        OneRefused(tx.accepts, before, MemberRow(pid, users[m]), start + MemberRows(pid, p.members, users), |start|);
        return Some(InsertFailed), count;
      }
      OneTaken(tx.accepts, before, MemberRow(pid, users[m]), |start|);
      count := count + 1;
    }
    assert p.members[..|p.members|] == p.members;
    failure := None;
  }

  method IngestProject(tx: Tx, p: Project, users: Ids) returns (failure: Option<Failure>, pid: int, members: nat)
    modifies tx
    ensures failure == Some(LookupFailed) ==> !MembersIn(p, users.Keys)
    ensures pid == tx.ids(|old(tx.rows)|)
    ensures var all := old(tx.rows) + ProjectBlock(pid, p, users);
            && (failure.None? ==> MembersIn(p, users.Keys) && tx.rows == all && members == |p.members|)
            && (failure != Some(LookupFailed) ==>
                  (failure.None? <==> AcceptedFrom(tx.accepts, all, |old(tx.rows)|)))
  {
    ghost var start := tx.rows;
    pid := tx.ids(|tx.rows|);
    var row := ProjectRow(pid, p.name);
    ghost var all := start + ProjectBlock(pid, p, users);
    assert all == start + [row] + MemberRows(pid, p.members, users);
    var ok := tx.Insert(row);
    if !ok {
      OneRefused(tx.accepts, start, row, all, |start|);
      return Some(InsertFailed), pid, 0;
    }
    OneTaken(tx.accepts, start, row, |start|);
    Stages(tx.accepts, start + [row], all, |start|);
    failure, members := IngestMembers(tx, pid, p, users);
  }

  lemma {:induction false} WithProjectsGrows(before: seq<Row>, projects: seq<Project>, i: nat, n: nat,
                                             ids: nat -> int, users: Ids)
    requires i <= n <= |projects|
    ensures WithProjects(before, projects, i, ids, users) <= WithProjects(before, projects, n, ids, users)
  {
    if i < n { WithProjectsGrows(before, projects, i, n - 1, ids, users); }
  }

  /** One project more: the next block, and what it means for the whole that it is taken or refused. */
  lemma ProjectStep(accepts: Database, before: seq<Row>, projects: seq<Project>, i: nat, ids: nat -> int, users: Ids)
    requires i < |projects| && before <= WithProjects(before, projects, i, ids, users)
    ensures var done := WithProjects(before, projects, i, ids, users);
            var next := WithProjects(before, projects, i + 1, ids, users);
            && next == done + ProjectBlock(ids(|done|), projects[i], users)
            && (AcceptedFrom(accepts, done, |before|) && AcceptedFrom(accepts, next, |done|) ==>
                  AcceptedFrom(accepts, next, |before|))
            && (!AcceptedFrom(accepts, next, |done|) ==>
                  !AcceptedFrom(accepts, WithProjects(before, projects, |projects|, ids, users), |before|))
  {
    var done := WithProjects(before, projects, i, ids, users);
    var next := WithProjects(before, projects, i + 1, ids, users);
    var all := WithProjects(before, projects, |projects|, ids, users);
    WithProjectsGrows(before, projects, i + 1, |projects|, ids, users);
    Stages(accepts, done, next, |before|);
    Stages(accepts, next, all, |before|);
  }

  predicate UnknownMember(projects: seq<Project>, users: Ids) {
    exists p :: p in projects && !MembersIn(p, users.Keys)
  }

  method IngestProjects(tx: Tx, f: File, users: Ids)
    returns (failure: Option<Failure>, projectIDByName: Ids, count: nat, members: nat)
    modifies tx
    ensures failure == Some(LookupFailed) ==> UnknownMember(f.projects, users)
    ensures var before, n := old(tx.rows), |f.projects|;
            var all := WithProjects(before, f.projects, n, tx.ids, users);
            && (failure.None? ==> tx.rows == all && count == n && members == MemberCount(f.projects, n) &&
                                  projectIDByName == ProjectIds(before, f.projects, n, tx.ids, users))
            && (failure != Some(LookupFailed) ==> (failure.None? <==> AcceptedFrom(tx.accepts, all, |before|)))
  {
    ghost var before := tx.rows;
    projectIDByName, count, members := map[], 0, 0;
    for i := 0 to |f.projects|
      invariant count == i && members == MemberCount(f.projects, i)
      invariant before <= tx.rows == WithProjects(before, f.projects, i, tx.ids, users)
      invariant projectIDByName == ProjectIds(before, f.projects, i, tx.ids, users)
      invariant AcceptedFrom(tx.accepts, tx.rows, |before|)
    {
      var p := f.projects[i];
      assert f.projects[i] in f.projects;
      ProjectStep(tx.accepts, before, f.projects, i, tx.ids, users);
      var pid, n;
      failure, pid, n := IngestProject(tx, p, users);
      if failure.Some? { return; }
      projectIDByName := projectIDByName[p.name := pid];
      count := count + 1;
      members := members + n;
    }
    failure := None;
  }

  predicate UnknownProject(repos: seq<Repo>, projects: Ids) {
    exists r :: r in repos && r.project !in projects
  }

  lemma RepoRowsGrow(repos: seq<Repo>, projects: Ids, i: nat)
    requires i < |repos|
    ensures RepoRows(repos[..i + 1], projects) == RepoRows(repos[..i], projects) + [RepoRowOf(repos[i], projects)]
    ensures RepoRows(repos[..i + 1], projects) <= RepoRows(repos, projects)
  {
  }

  method IngestRepos(tx: Tx, f: File, projects: Ids, stepOK: nat -> bool) returns (failure: Option<Failure>, count: nat)
    modifies tx
    ensures failure == Some(LookupFailed) ==> UnknownProject(f.repos, projects)
    ensures var all := old(tx.rows) + RepoRows(f.repos, projects);
            && (failure.None? ==> tx.rows == all && count == |f.repos|)
            && (failure != Some(LookupFailed) ==>
                  (failure.None? <==> AcceptedFrom(tx.accepts, all, |old(tx.rows)|) &&
                                      forall i :: 0 <= i < |f.repos| ==> stepOK(i)))
  {
    ghost var start := tx.rows;
    count := 0;
    for i := 0 to |f.repos|
      invariant count == i && tx.rows == start + RepoRows(f.repos[..i], projects)
      invariant AcceptedFrom(tx.accepts, tx.rows, |start|) && forall k :: 0 <= k < i ==> stepOK(k)
    {
      var r := f.repos[i];
      ghost var before := tx.rows;
      if r.project !in projects {
        assert r in f.repos;
        return Some(LookupFailed), count;
      }
      var bos := "none";
      if r.blockOnSeverity.Some? && r.blockOnSeverity.value != "" { bos := r.blockOnSeverity.value; }
      var row := RepoRow(projects[r.project], r.repoType, r.name, bos);
      RepoRowsGrow(f.repos, projects, i);
      var ok := tx.Insert(row);
      if !ok {
        OneRefused(tx.accepts, before, row, start + RepoRows(f.repos, projects), |start|);
        return Some(InsertFailed), count;
      }
      if !stepOK(i) { return Some(InsertFailed), count; } // search index and create hook
      OneTaken(tx.accepts, before, row, |start|);
      count := count + 1;
    }
    assert f.repos[..|f.repos|] == f.repos;
    failure := None;
  }

  predicate UnresolvedKey(keys: seq<APIKey>, users: Ids, projects: Ids) {
    exists k :: k in keys && !KeyResolves(k, users, projects)
  }

  lemma KeyRowsGrow(keys: seq<APIKey>, users: Ids, projects: Ids, i: nat)
    requires i < |keys|
    ensures KeyRows(keys[..i + 1], users, projects) ==
            KeyRows(keys[..i], users, projects) + [KeyRowOf(keys[i], users, projects)]
    ensures KeyRows(keys[..i + 1], users, projects) <= KeyRows(keys, users, projects)
  {
  }

  method IngestKeys(tx: Tx, f: File, users: Ids, projects: Ids) returns (failure: Option<Failure>, count: nat)
    modifies tx
    ensures failure == Some(LookupFailed) ==> UnresolvedKey(f.apiKeys, users, projects)
    ensures var all := old(tx.rows) + KeyRows(f.apiKeys, users, projects);
            && (failure.None? ==> tx.rows == all && count == |f.apiKeys|)
            && (failure != Some(LookupFailed) ==>
                  (failure.None? <==> AcceptedFrom(tx.accepts, all, |old(tx.rows)|)))
  {
    ghost var start := tx.rows;
    count := 0;
    for i := 0 to |f.apiKeys|
      invariant count == i && tx.rows == start + KeyRows(f.apiKeys[..i], users, projects)
      invariant AcceptedFrom(tx.accepts, tx.rows, |start|)
    {
      var k := f.apiKeys[i];
      assert k in f.apiKeys;
      ghost var before := tx.rows;
      var parsed := ParseAPIKey(k.token);
      if parsed.None? { return Some(LookupFailed), count; }
      var ownerUserId, ownerProjectId: Option<int> := None, None;
      if k.ownerKind == "user" {
        if parsed.value.kind != 'u' || k.owner !in users { return Some(LookupFailed), count; }
        ownerUserId := Some(users[k.owner]);
      } else if k.ownerKind == "project" {
        if parsed.value.kind != 'p' || k.owner !in projects { return Some(LookupFailed), count; }
        ownerProjectId := Some(projects[k.owner]);
      } else {
        return Some(LookupFailed), count;
      }
      var row := KeyRow(k.ownerKind, ownerUserId, ownerProjectId, k.name, parsed.value.prefix, k.token);
      assert row == KeyRowOf(k, users, projects);
      KeyRowsGrow(f.apiKeys, users, projects, i);
      var ok := tx.Insert(row);
      if !ok {
        OneRefused(tx.accepts, before, row, start + KeyRows(f.apiKeys, users, projects), |start|);
        return Some(InsertFailed), count;
      }
      OneTaken(tx.accepts, before, row, |start|);
      count := count + 1;
    }
    assert f.apiKeys[..|f.apiKeys|] == f.apiKeys;
    failure := None;
  }

  method IngestSettings(tx: Tx) returns (failure: Option<Failure>)
    modifies tx
    ensures failure.Some? ==> failure.value.InsertFailed?
    ensures failure.None? <==> AcceptedFrom(tx.accepts, old(tx.rows) + SETTINGS, |old(tx.rows)|)
    ensures failure.None? ==> tx.rows == old(tx.rows) + SETTINGS
  {
    ghost var start := tx.rows;
    var first, second := SettingRow("seeded_from_bootstrap"), SettingRow("bootstrap_sha256");
    assert start + SETTINGS == start + [first] + [second];
    var ok := tx.Insert(first);
    if !ok {
      OneRefused(tx.accepts, start, first, start + SETTINGS, |start|);
      return Some(InsertFailed);
    }
    OneTaken(tx.accepts, start, first, |start|);
    ok := tx.Insert(second);
    if !ok {
      OneRefused(tx.accepts, start + [first], second, start + SETTINGS, |start|);
      return Some(InsertFailed);
    }
    OneTaken(tx.accepts, start + [first], second, |start|);
    failure := None;
  }

  // ---- The whole transaction ----

  lemma {:induction false} UserIdsKeys(f: File, ids: nat -> int, n: nat)
    requires n <= |f.users|
    ensures UserIds(f, ids, n).Keys == {f.superAdmin.login} + LoginsOf(f.users[..n])
  {
    if n > 0 {
      UserIdsKeys(f, ids, n - 1);
      LoginsOfGrow(f.users, n - 1);
    }
  }

  lemma {:induction false} ProjectIdsKeys(before: seq<Row>, projects: seq<Project>, n: nat, ids: nat -> int, users: Ids)
    requires n <= |projects|
    ensures ProjectIds(before, projects, n, ids, users).Keys == NamesOf(projects[..n])
  {
    if n > 0 {
      ProjectIdsKeys(before, projects, n - 1, ids, users);
      NamesOfGrow(projects, n - 1);
    }
  }

  /** A validated file resolves every member, project, owner, token and kind lookup of the transaction. */
  lemma ValidFileResolves(f: File, reserved: set<string>, ids: nat -> int)
    requires ValidFile(f, reserved)
    ensures UsersOf(f, ids).Keys == Logins(f) && ProjectsOf(f, ids).Keys == ProjectNames(f)
    ensures !UnknownMember(f.projects, UsersOf(f, ids)) && !UnknownProject(f.repos, ProjectsOf(f, ids))
    ensures !UnresolvedKey(f.apiKeys, UsersOf(f, ids), ProjectsOf(f, ids))
  {
    UserIdsKeys(f, ids, |f.users|);
    assert f.users[..|f.users|] == f.users;
    ProjectIdsKeys(UserPart(f, ids), f.projects, |f.projects|, ids, UsersOf(f, ids));
    assert f.projects[..|f.projects|] == f.projects;
  }

  lemma FiveStages(accepts: Database, u: seq<Row>, p: seq<Row>, r: seq<Row>, k: seq<Row>, all: seq<Row>)
    requires u <= p <= r <= k <= all
    ensures AcceptedFrom(accepts, all, 0) <==>
            && AcceptedFrom(accepts, u, 0) && AcceptedFrom(accepts, p, |u|) && AcceptedFrom(accepts, r, |p|)
            && AcceptedFrom(accepts, k, |r|) && AcceptedFrom(accepts, all, |k|)
  {
    Stages(accepts, u, p, 0);
    Stages(accepts, p, r, 0);
    Stages(accepts, r, k, 0);
    Stages(accepts, k, all, 0);
  }

  predicate StepsOK(f: File, stepOK: nat -> bool) {
    forall i :: 0 <= i < |f.repos| ==> stepOK(i)
  }

  /** The body of the write transaction, on a file that passed validation. */
  method Ingest(tx: Tx, f: File, reserved: set<string>, stepOK: nat -> bool)
    returns (failure: Option<Failure>, report: Report)
    requires ValidFile(f, reserved) && tx.rows == []
    modifies tx
    ensures failure.Some? ==> failure.value.InsertFailed?
    ensures failure.None? <==> AcceptedFrom(tx.accepts, AllRows(f, tx.ids), 0) && StepsOK(f, stepOK)
    ensures failure.None? ==> report == CountsOf(f) && tx.rows == AllRows(f, tx.ids)
  {
    ghost var u, p := UserPart(f, tx.ids), ProjectPart(f, tx.ids);
    ghost var r, k := p + RepoPart(f, tx.ids), p + RepoPart(f, tx.ids) + KeyPart(f, tx.ids);
    WithProjectsGrows(u, f.projects, 0, |f.projects|, tx.ids, UsersOf(f, tx.ids));
    FiveStages(tx.accepts, u, p, r, k, AllRows(f, tx.ids));
    ValidFileResolves(f, reserved, tx.ids);
    report := Report(0, 0, 0, 0, 0);
    var users, projects: Ids;
    var userCount, projectCount, memberCount, repoCount, keyCount;
    failure, users, userCount := IngestUsers(tx, f);
    if failure.Some? { return; }
    failure, projects, projectCount, memberCount := IngestProjects(tx, f, users);
    if failure.Some? { return; }
    failure, repoCount := IngestRepos(tx, f, projects, stepOK);
    if failure.Some? { return; }
    failure, keyCount := IngestKeys(tx, f, users, projects);
    if failure.Some? { return; }
    failure := IngestSettings(tx);
    if failure.Some? { return; }
    report := Report(userCount, projectCount, memberCount, repoCount, keyCount);
  }

  datatype Outcome = Invalid(pointer: Pointer) | Aborted(failure: Failure) | Skipped | Seeded(report: Report)

  /** The whole of it. committed is what the run leaves in the database. */
  method ApplyBootstrap(f: File, reserved: set<string>, usersTableEmpty: bool, accepts: Database,
                        ids: nat -> int, stepOK: nat -> bool, commitOK: bool)
    returns (outcome: Outcome, committed: seq<Row>)
    // A used database is left alone; otherwise validation alone decides whether the file is taken.
    ensures outcome.Skipped? <==> !usersTableEmpty
    ensures outcome.Invalid? <==> usersTableEmpty && !ValidFile(f, reserved)
    // After validation only the database can refuse, and it has to for the run to abort.
    ensures outcome.Aborted? ==> outcome.failure == InsertFailed
    ensures outcome.Seeded? <==>
            && usersTableEmpty && ValidFile(f, reserved)
            && AcceptedFrom(accepts, AllRows(f, ids), 0) && StepsOK(f, stepOK) && commitOK
    // All of the file's rows are stored, or none.
    ensures committed == if outcome.Seeded? then AllRows(f, ids) else []
    ensures outcome.Seeded? ==> outcome.report == CountsOf(f)
  {
    committed := [];
    if !usersTableEmpty { return Skipped, []; }
    var problem := Validate(f, reserved);
    if problem.Some? { return Invalid(problem.value), []; }
    var tx := new Tx(accepts, ids);
    var failure, report := Ingest(tx, f, reserved, stepOK);
    if failure.Some? { return Aborted(failure.value), []; }
    if !commitOK { return Aborted(InsertFailed), []; }
    committed := tx.rows;
    outcome := Seeded(report);
  }

  // ---- What the rows say ----

  function RowCount(r: Report): nat { r.users + r.projects + r.members + r.repos + r.apiKeys }

  lemma {:induction false} ProjectRowCount(before: seq<Row>, projects: seq<Project>, n: nat, ids: nat -> int,
                                           users: Ids)
    requires n <= |projects|
    ensures |WithProjects(before, projects, n, ids, users)| == |before| + n + MemberCount(projects, n)
  {
    if n > 0 { ProjectRowCount(before, projects, n - 1, ids, users); }
  }

  /** As many rows as the report counts, and the two settings. */
  lemma RowsAreCounted(f: File, ids: nat -> int)
    ensures |AllRows(f, ids)| == RowCount(CountsOf(f)) + 2
  {
    ProjectRowCount(UserPart(f, ids), f.projects, |f.projects|, ids, UsersOf(f, ids));
  }

  lemma {:induction false} UserStored(f: File, ids: nat -> int, n: nat, i: nat)
    requires UsersOK(f) && i < n <= |f.users|
    ensures f.users[i].login in UserIds(f, ids, n) && UserIds(f, ids, n)[f.users[i].login] == ids(i + 1)
    ensures UserRow(ids(i + 1), f.users[i].login, false) in UserRows(f, ids, n)
  {
    if i < n - 1 { UserStored(f, ids, n - 1, i); }
  }

  lemma {:induction false} AdminStored(f: File, ids: nat -> int, n: nat)
    requires UsersOK(f) && n <= |f.users|
    ensures f.superAdmin.login in UserIds(f, ids, n) && UserIds(f, ids, n)[f.superAdmin.login] == ids(0)
    ensures UserRow(ids(0), f.superAdmin.login, true) in UserRows(f, ids, n)
  {
    if n > 0 { AdminStored(f, ids, n - 1); }
  }

  predicate NamesDistinct(projects: seq<Project>) {
    forall i, j :: 0 <= i < j < |projects| ==> projects[i].name != projects[j].name
  }

  lemma {:induction false} ProjectStored(before: seq<Row>, projects: seq<Project>, n: nat, ids: nat -> int, users: Ids,
                                         i: nat)
    requires NamesDistinct(projects) && i < n <= |projects|
    ensures var known := ProjectIds(before, projects, n, ids, users);
            var rows := WithProjects(before, projects, n, ids, users);
            var p := projects[i];
            && p.name in known && ProjectRow(known[p.name], p.name) in rows
            && forall m :: m in p.members ==> MemberRow(known[p.name], IdIn(users, m)) in rows
  {
    if i < n - 1 {
      ProjectStored(before, projects, n - 1, ids, users, i);
    } else {
      var done := WithProjects(before, projects, n - 1, ids, users);
      BlockHolds(ids(|done|), projects[i], users);
    }
  }

  lemma BlockHolds(pid: int, p: Project, users: Ids)
    ensures ProjectRow(pid, p.name) in ProjectBlock(pid, p, users)
    ensures forall m :: m in p.members ==> MemberRow(pid, IdIn(users, m)) in ProjectBlock(pid, p, users)
  {
    var block := ProjectBlock(pid, p, users);
    assert block[0] == ProjectRow(pid, p.name);
    forall m | m in p.members ensures MemberRow(pid, IdIn(users, m)) in block {
      var j :| 0 <= j < |p.members| && p.members[j] == m;
      assert block[j + 1] == MemberRow(pid, IdIn(users, m));
    }
  }

  /** Row by row what a seeded database holds: one for every user, the super-admin flag on the super-admin's
      only; for every project and membership; for every repository under its project, its severity or none;
      for every key with its owner's id in the column of its kind and the first eight characters after omr_u_
      or omr_p_. */
  lemma RowsSayTheFile(f: File, reserved: set<string>, ids: nat -> int, u: User, p: Project, m: string, r: Repo,
                       k: APIKey)
    requires ValidFile(f, reserved)
    ensures var rows, users, projects := AllRows(f, ids), UsersOf(f, ids), ProjectsOf(f, ids);
      && users.Keys == Logins(f) && projects.Keys == ProjectNames(f)
      && UserRow(users[f.superAdmin.login], f.superAdmin.login, true) in rows
      && (u in f.users ==> UserRow(users[u.login], u.login, false) in rows)
      && (p in f.projects ==> ProjectRow(projects[p.name], p.name) in rows)
      && (p in f.projects && m in p.members ==> m in users && MemberRow(projects[p.name], users[m]) in rows)
      && (r in f.repos ==>
            r.project in projects &&
            RepoRow(projects[r.project], r.repoType, r.name,
                    if r.blockOnSeverity in {None, Some("")} then "none" else r.blockOnSeverity.value) in rows)
      && (k in f.apiKeys && k.ownerKind == "user" ==>
            k.owner in users &&
            KeyRow("user", Some(users[k.owner]), None, k.name, k.token[6..][..8], k.token) in rows)
      && (k in f.apiKeys && k.ownerKind == "project" ==>
            k.owner in projects &&
            KeyRow("project", None, Some(projects[k.owner]), k.name, k.token[6..][..8], k.token) in rows)
  {
    ValidFileResolves(f, reserved, ids);
    UsersAreStored(f, ids, u);
    if p in f.projects { ProjectsAreStored(f, reserved, ids, p, m); }
    if r in f.repos { RepoIsStored(f, reserved, ids, r); }
    if k in f.apiKeys { KeyIsStored(f, reserved, ids, k); }
  }

  lemma RepoIsStored(f: File, reserved: set<string>, ids: nat -> int, r: Repo)
    requires ValidFile(f, reserved) && r in f.repos
    ensures r.project in ProjectsOf(f, ids)
    ensures RepoRow(ProjectsOf(f, ids)[r.project], r.repoType, r.name,
                    if r.blockOnSeverity in {None, Some("")} then "none" else r.blockOnSeverity.value)
              in AllRows(f, ids)
  {
    ValidFileResolves(f, reserved, ids);
    var i :| 0 <= i < |f.repos| && f.repos[i] == r;
    assert RepoPart(f, ids)[i] == RepoRowOf(r, ProjectsOf(f, ids));
    LaterParts(f, ids, RepoRowOf(r, ProjectsOf(f, ids)));
    SeverityInColumns(r);
  }

  lemma SeverityInColumns(r: Repo)
    ensures SeverityOf(r) == if r.blockOnSeverity in {None, Some("")} then "none" else r.blockOnSeverity.value
  {
  }

  lemma LaterParts(f: File, ids: nat -> int, row: Row)
    ensures row in RepoPart(f, ids) ==> row in AllRows(f, ids)
    ensures row in KeyPart(f, ids) ==> row in AllRows(f, ids)
  {
  }

  lemma KeyIsStored(f: File, reserved: set<string>, ids: nat -> int, k: APIKey)
    requires ValidFile(f, reserved) && k in f.apiKeys
    ensures |k.token| == 34
    ensures k.ownerKind == "user" ==>
              k.owner in UsersOf(f, ids) &&
              KeyRow("user", Some(UsersOf(f, ids)[k.owner]), None, k.name, k.token[6..][..8], k.token)
                in AllRows(f, ids)
    ensures k.ownerKind == "project" ==>
              k.owner in ProjectsOf(f, ids) &&
              KeyRow("project", None, Some(ProjectsOf(f, ids)[k.owner]), k.name, k.token[6..][..8], k.token)
                in AllRows(f, ids)
  {
    ValidFileResolves(f, reserved, ids);
    var i :| 0 <= i < |f.apiKeys| && f.apiKeys[i] == k;
    assert KeyPart(f, ids)[i] == KeyRowOf(k, UsersOf(f, ids), ProjectsOf(f, ids));
    LaterParts(f, ids, KeyRowOf(k, UsersOf(f, ids), ProjectsOf(f, ids)));
    assert KeyResolves(k, UsersOf(f, ids), ProjectsOf(f, ids));
    assert k.token[6..][..8] == k.token[6..14];
  }

  lemma UsersAreStored(f: File, ids: nat -> int, u: User)
    requires UsersOK(f)
    ensures f.superAdmin.login in UsersOf(f, ids)
    ensures UserRow(UsersOf(f, ids)[f.superAdmin.login], f.superAdmin.login, true) in AllRows(f, ids)
    ensures u in f.users ==> u.login in UsersOf(f, ids)
    ensures u in f.users ==> UserRow(UsersOf(f, ids)[u.login], u.login, false) in AllRows(f, ids)
  {
    AdminStored(f, ids, |f.users|);
    WithProjectsGrows(UserPart(f, ids), f.projects, 0, |f.projects|, ids, UsersOf(f, ids));
    InPrefix(UserPart(f, ids), AllRows(f, ids));
    if u in f.users {
      var i :| 0 <= i < |f.users| && f.users[i] == u;
      UserStored(f, ids, |f.users|, i);
    }
  }

  lemma ProjectsAreStored(f: File, reserved: set<string>, ids: nat -> int, p: Project, m: string)
    requires ValidFile(f, reserved) && p in f.projects
    ensures p.name in ProjectsOf(f, ids) && ProjectRow(ProjectsOf(f, ids)[p.name], p.name) in AllRows(f, ids)
    ensures m in p.members ==> m in UsersOf(f, ids)
    ensures m in p.members ==> MemberRow(ProjectsOf(f, ids)[p.name], UsersOf(f, ids)[m]) in AllRows(f, ids)
  {
    ValidFileResolves(f, reserved, ids);
    var i :| 0 <= i < |f.projects| && f.projects[i] == p;
    ProjectStored(UserPart(f, ids), f.projects, |f.projects|, ids, UsersOf(f, ids), i);
    InPrefix(ProjectPart(f, ids), AllRows(f, ids));
    assert MembersIn(p, UsersOf(f, ids).Keys);
  }

  lemma InPrefix(a: seq<Row>, b: seq<Row>)
    requires a <= b
    ensures forall x :: x in a ==> x in b
  {
    forall x | x in a ensures x in b {
      var i :| 0 <= i < |a| && a[i] == x;
      assert b[i] == x;
    }
  }
}
