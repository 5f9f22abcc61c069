/** Which validated files the database schema lets through: the UNIQUE and CHECK constraints of the tables a
    first boot fills, against the rows it inserts. */
module BootstrapSchema {
  import opened Options
  import opened Bootstrap
  import opened BootstrapIngest

  // ---- The constraints ----

  predicate ChecksOK(row: Row) {
    match row
    case RepoRow(_, repoType, _, severity) =>
      && repoType in ["rpm", "deb", "pypi", "docker", "helm", "git", "raw", "go", "npm", "maven"]
      && severity in ["none", "low", "medium", "high", "critical"]
    case KeyRow(kind, user, project, _, _, _) =>
      (kind == "user" && user.Some? && project.None?) || (kind == "project" && project.Some? && user.None?)
    case _ => true
  }

  /** Two rows violate a UNIQUE constraint together: the login, the project name, the membership, the
      repository triple, the token, or the name of a key of one owner. Settings are upserted. */
  predicate Clash(a: Row, b: Row) {
    match (a, b)
    case (UserRow(_, login, _), UserRow(_, login', _)) => login == login'
    case (ProjectRow(_, name), ProjectRow(_, name')) => name == name'
    case (MemberRow(_, _), MemberRow(_, _)) => a == b
    case (RepoRow(project, repoType, name, _), RepoRow(project', repoType', name', _)) =>
      project == project' && repoType == repoType' && name == name'
    case (KeyRow(kind, user, project, name, prefix, token), KeyRow(kind', user', project', name', prefix', token')) =>
      || (prefix == prefix' && token == token')
      || (kind == kind' == "user" && user == user' && name == name')
      || (kind == kind' == "project" && project == project' && name == name')
    case _ => false
  }

  /** The schema takes a row after those inserted so far, nothing else being in the tables. */
  predicate SchemaAllows(rows: seq<Row>, row: Row) {
    ChecksOK(row) && forall r :: r in rows ==> !Clash(r, row)
  }

  predicate NoClash(rows: seq<Row>) {
    forall j, k :: 0 <= j < k < |rows| ==> !Clash(rows[j], rows[k])
  }

  predicate AllCheck(rows: seq<Row>) {
    forall k :: 0 <= k < |rows| ==> ChecksOK(rows[k])
  }

  /** Taking the rows one after the other means that no two of them clash. */
  lemma AcceptedBySchema(rows: seq<Row>)
    ensures AcceptedFrom(SchemaAllows, rows, 0) <==> AllCheck(rows) && NoClash(rows)
  {
    if AcceptedFrom(SchemaAllows, rows, 0) {
      forall k | 0 <= k < |rows| ensures ChecksOK(rows[k]) && forall j :: 0 <= j < k ==> !Clash(rows[j], rows[k]) {
        assert SchemaAllows(rows[..k], rows[k]);
        forall j | 0 <= j < k ensures !Clash(rows[j], rows[k]) { assert rows[..k][j] in rows[..k]; }
      }
    }
    if AllCheck(rows) && NoClash(rows) {
      forall k | 0 <= k < |rows| ensures SchemaAllows(rows[..k], rows[k]) {
        forall r | r in rows[..k] ensures !Clash(r, rows[k]) {
          var j :| 0 <= j < k && rows[j] == r;
        }
      }
    }
  }

  // ---- What validation leaves open ----

  predicate Once(names: seq<string>) {
    forall i, j :: 0 <= i < j < |names| ==> names[i] != names[j]
  }

  /** No project lists a member twice. */
  predicate MembersOnce(projects: seq<Project>, n: nat)
    requires n <= |projects|
  {
    forall i :: 0 <= i < n ==> Once(projects[i].members)
  }

  /** No token is used twice, and no owner has two keys of one name. */
  predicate KeysOnce(keys: seq<APIKey>) {
    forall i, j :: 0 <= i < j < |keys| ==> !SameKey(keys[i], keys[j])
  }

  predicate SameKey(k: APIKey, l: APIKey) {
    k.token == l.token || (k.ownerKind == l.ownerKind && k.owner == l.owner && k.name == l.name)
  }

  // ---- Ids ----

  /** Rows of one table have different ids. */
  predicate IdsDistinct(rows: seq<Row>) {
    forall j, k :: 0 <= j < k < |rows| ==>
      && (rows[j].UserRow? && rows[k].UserRow? ==> rows[j].id != rows[k].id)
      && (rows[j].ProjectRow? && rows[k].ProjectRow? ==> rows[j].id != rows[k].id)
  }

  predicate Injective(ids: Ids) {
    forall a, b :: a in ids && b in ids && ids[a] == ids[b] ==> a == b
  }

  /** Every id in the map is that of a user row in rows, under the same login. */
  ghost predicate UserIdsFrom(known: Ids, rows: seq<Row>) {
    forall l :: l in known ==> exists j :: 0 <= j < |rows| && rows[j].UserRow? && rows[j].id == known[l]
  }

  lemma {:induction false} UserIdsInjective(f: File, ids: nat -> int, n: nat)
    requires n <= |f.users| && IdsDistinct(UserRows(f, ids, n))
    ensures Injective(UserIds(f, ids, n)) && UserIdsFrom(UserIds(f, ids, n), UserRows(f, ids, n))
  {
    var rows := UserRows(f, ids, n);
    if n > 0 {
      var done, known := UserRows(f, ids, n - 1), UserIds(f, ids, n - 1);
      PrefixIds(done, rows);
      UserIdsInjective(f, ids, n - 1);
      assert rows[|done|] == UserRow(ids(n), f.users[n - 1].login, false);
      forall l | l in known ensures known[l] != ids(n) {
        var j :| 0 <= j < |done| && done[j].UserRow? && done[j].id == known[l];
        assert rows[j] == done[j];
      }
      forall l | l in UserIds(f, ids, n)
        ensures exists j :: 0 <= j < |rows| && rows[j].UserRow? && rows[j].id == UserIds(f, ids, n)[l]
      {
        if l != f.users[n - 1].login {
          var j :| 0 <= j < |done| && done[j].UserRow? && done[j].id == known[l];
          assert rows[j] == done[j];
        }
      }
    } else {
      assert rows[0] == UserRow(ids(0), f.superAdmin.login, true);
    }
  }

  ghost predicate ProjectIdsFrom(known: Ids, rows: seq<Row>) {
    forall l :: l in known ==> exists j :: 0 <= j < |rows| && rows[j].ProjectRow? && rows[j].id == known[l]
  }

  lemma {:induction false} ProjectIdsInjective(before: seq<Row>, projects: seq<Project>, n: nat, ids: nat -> int,
                                               users: Ids)
    requires n <= |projects| && IdsDistinct(WithProjects(before, projects, n, ids, users))
    ensures Injective(ProjectIds(before, projects, n, ids, users))
    ensures ProjectIdsFrom(ProjectIds(before, projects, n, ids, users), WithProjects(before, projects, n, ids, users))
  {
    if n > 0 {
      var rows := WithProjects(before, projects, n, ids, users);
      var done := WithProjects(before, projects, n - 1, ids, users);
      var known := ProjectIds(before, projects, n - 1, ids, users);
      PrefixIds(done, rows);
      ProjectIdsInjective(before, projects, n - 1, ids, users);
      assert rows[|done|] == ProjectRow(ids(|done|), projects[n - 1].name);
      forall l | l in known ensures known[l] != ids(|done|) {
        var j :| 0 <= j < |done| && done[j].ProjectRow? && done[j].id == known[l];
        assert rows[j] == done[j];
      }
      forall l | l in known && l != projects[n - 1].name
        ensures exists j :: 0 <= j < |rows| && rows[j].ProjectRow? && rows[j].id == known[l]
      {
        var j :| 0 <= j < |done| && done[j].ProjectRow? && done[j].id == known[l];
        assert rows[j] == done[j];
      }
    }
  }

  lemma PrefixIds(a: seq<Row>, b: seq<Row>)
    requires a <= b && IdsDistinct(b)
    ensures IdsDistinct(a)
  {
    forall k | 0 <= k < |a| ensures a[k] == b[k] {}
  }

  // ---- Clashes, part by part ----

  predicate Apart(a: seq<Row>, b: seq<Row>) {
    forall x, y :: x in a && y in b ==> !Clash(x, y)
  }

  lemma NoClashJoin(a: seq<Row>, b: seq<Row>)
    ensures NoClash(a + b) <==> NoClash(a) && NoClash(b) && Apart(a, b)
    ensures AllCheck(a + b) <==> AllCheck(a) && AllCheck(b)
  {
    var ab := a + b;
    forall k | 0 <= k < |a| ensures ab[k] == a[k] {}
    forall k | 0 <= k < |b| ensures ab[|a| + k] == b[k] {}
    if NoClash(ab) {
      forall x, y | x in a && y in b ensures !Clash(x, y) {
        var j :| 0 <= j < |a| && a[j] == x;
        var k :| 0 <= k < |b| && b[k] == y;
        assert !Clash(ab[j], ab[|a| + k]);
      }
      forall j, k | 0 <= j < k < |b| ensures !Clash(b[j], b[k]) { assert !Clash(ab[|a| + j], ab[|a| + k]); }
    }
  }

  lemma {:induction false} UsersDoNotClash(f: File, ids: nat -> int, n: nat)
    requires n <= |f.users| && UsersOK(f)
    ensures NoClash(UserRows(f, ids, n)) && AllCheck(UserRows(f, ids, n))
    ensures forall x :: x in UserRows(f, ids, n) ==>
                        x.UserRow? && (x.login == f.superAdmin.login || x.login in LoginsOf(f.users[..n]))
  {
    if n > 0 {
      var done, u := UserRows(f, ids, n - 1), f.users[n - 1];
      UsersDoNotClash(f, ids, n - 1);
      LoginsOfGrow(f.users, n - 1);
      NoClashJoin(done, [UserRow(ids(n), u.login, false)]);
      forall x | x in done ensures x.login != u.login {
        if x.login in LoginsOf(f.users[..n - 1]) {
          var v :| v in f.users[..n - 1] && v.login == x.login;
          var i :| 0 <= i < n - 1 && f.users[i] == v;
        }
      }
    }
  }

  lemma MembersClash(pid: int, members: seq<string>, users: Ids)
    requires Injective(users) && forall m :: m in members ==> m in users
    ensures NoClash(MemberRows(pid, members, users)) <==> Once(members)
  {
    var rows := MemberRows(pid, members, users);
    forall i, j | 0 <= i < j < |members| ensures Clash(rows[i], rows[j]) <==> members[i] == members[j] {
      assert members[i] in members && members[j] in members;
    }
  }

  lemma BlockClash(pid: int, p: Project, users: Ids)
    requires Injective(users) && MembersIn(p, users.Keys)
    ensures NoClash(ProjectBlock(pid, p, users)) <==> Once(p.members)
    ensures AllCheck(ProjectBlock(pid, p, users))
  {
    MembersClash(pid, p.members, users);
    NoClashJoin([ProjectRow(pid, p.name)], MemberRows(pid, p.members, users));
  }

  /** The rows up to some project: users, projects by their names, members of those projects. */
  ghost predicate Known(rows: seq<Row>, names: set<string>) {
    forall j :: 0 <= j < |rows| ==> KnownRow(rows, names, rows[j])
  }

  ghost predicate KnownRow(rows: seq<Row>, names: set<string>, x: Row) {
    x.UserRow? || (x.ProjectRow? && x.name in names) || (x.MemberRow? && HasProject(rows, x.projectId))
  }

  ghost predicate HasProject(rows: seq<Row>, id: int) {
    exists j :: 0 <= j < |rows| && rows[j].ProjectRow? && rows[j].id == id
  }

  lemma HasProjectStays(done: seq<Row>, rows: seq<Row>, id: int)
    requires done <= rows && HasProject(done, id)
    ensures HasProject(rows, id)
  {
    var j :| 0 <= j < |done| && done[j].ProjectRow? && done[j].id == id;
    assert rows[j] == done[j];
  }

  lemma BlockIsKnown(done: seq<Row>, pid: int, p: Project, users: Ids, names: set<string>)
    requires Known(done, names)
    ensures Known(done + ProjectBlock(pid, p, users), names + {p.name})
  {
    var block := ProjectBlock(pid, p, users);
    var rows := done + block;
    assert rows[|done|] == ProjectRow(pid, p.name);
    assert HasProject(rows, pid);
    forall j | 0 <= j < |rows| ensures KnownRow(rows, names + {p.name}, rows[j]) {
      if j < |done| {
        assert KnownRow(done, names, done[j]) && rows[j] == done[j];
        if rows[j].MemberRow? { HasProjectStays(done, rows, rows[j].projectId); }
      } else {
        assert rows[j] == block[j - |done|];
      }
    }
  }

  /** A new project clashes with nothing before it: its name and its id are new. */
  lemma BlockIsApart(done: seq<Row>, pid: int, p: Project, users: Ids, names: set<string>)
    requires Known(done, names) && p.name !in names && IdsDistinct(done + ProjectBlock(pid, p, users))
    ensures Apart(done, ProjectBlock(pid, p, users))
  {
    var block := ProjectBlock(pid, p, users);
    assert (done + block)[|done|] == ProjectRow(pid, p.name);
    forall j | 0 <= j < |done| && done[j].ProjectRow? ensures done[j].id != pid {
      assert (done + block)[j] == done[j];
    }
    assert !HasProject(done, pid);
    forall x, y | x in done && y in block ensures !Clash(x, y) {
      var j :| 0 <= j < |done| && done[j] == x;
      assert KnownRow(done, names, done[j]);
      assert y == ProjectRow(pid, p.name) || (y.MemberRow? && y.projectId == pid);
    }
  }

  lemma OneProjectMore(done: seq<Row>, pid: int, p: Project, users: Ids, names: set<string>)
    requires Known(done, names) && p.name !in names && IdsDistinct(done + ProjectBlock(pid, p, users))
    requires Injective(users) && MembersIn(p, users.Keys)
    ensures NoClash(done + ProjectBlock(pid, p, users)) <==> NoClash(done) && Once(p.members)
    ensures AllCheck(done + ProjectBlock(pid, p, users)) <==> AllCheck(done)
    ensures Known(done + ProjectBlock(pid, p, users), names + {p.name})
  {
    BlockIsKnown(done, pid, p, users, names);
    BlockIsApart(done, pid, p, users, names);
    BlockClash(pid, p, users);
    NoClashJoin(done, ProjectBlock(pid, p, users));
  }

  /** What is known of the rows up to the first n projects. */
  ghost predicate ClashUpTo(rows: seq<Row>, projects: seq<Project>, n: nat)
    requires n <= |projects|
  {
    (NoClash(rows) <==> MembersOnce(projects, n)) && AllCheck(rows) && Known(rows, NamesOf(projects[..n]))
  }

  lemma NextProject(done: seq<Row>, pid: int, projects: seq<Project>, i: nat, users: Ids)
    requires i < |projects| && NamesDistinct(projects) && ClashUpTo(done, projects, i)
    requires Injective(users) && MembersIn(projects[i], users.Keys)
    requires IdsDistinct(done + ProjectBlock(pid, projects[i], users))
    ensures ClashUpTo(done + ProjectBlock(pid, projects[i], users), projects, i + 1)
  {
    NamesOfGrow(projects, i);
    NewName(projects, i);
    OneProjectMore(done, pid, projects[i], users, NamesOf(projects[..i]));
    MembersOnceGrows(projects, i);
  }

  lemma NextRows(before: seq<Row>, projects: seq<Project>, i: nat, ids: nat -> int, users: Ids)
    requires i < |projects| && NamesDistinct(projects) && Injective(users) && MembersIn(projects[i], users.Keys)
    requires ClashUpTo(WithProjects(before, projects, i, ids, users), projects, i)
    requires IdsDistinct(WithProjects(before, projects, i + 1, ids, users))
    ensures ClashUpTo(WithProjects(before, projects, i + 1, ids, users), projects, i + 1)
  {
    var done := WithProjects(before, projects, i, ids, users);
    NextProject(done, ids(|done|), projects, i, users);
  }

  lemma {:induction false} ProjectsClash(before: seq<Row>, projects: seq<Project>, n: nat, ids: nat -> int, users: Ids)
    requires n <= |projects| && NamesDistinct(projects) && Injective(users)
    requires forall i :: 0 <= i < n ==> MembersIn(projects[i], users.Keys)
    requires ClashUpTo(before, projects, 0)
    requires IdsDistinct(WithProjects(before, projects, n, ids, users))
    ensures ClashUpTo(WithProjects(before, projects, n, ids, users), projects, n)
  {
    if n > 0 {
      WithProjectsGrows(before, projects, n - 1, n, ids, users);
      PrefixIds(WithProjects(before, projects, n - 1, ids, users), WithProjects(before, projects, n, ids, users));
      ProjectsClash(before, projects, n - 1, ids, users);
      NextRows(before, projects, n - 1, ids, users);
    }
  }

  lemma MembersOnceGrows(projects: seq<Project>, i: nat)
    requires i < |projects|
    ensures MembersOnce(projects, i + 1) <==> MembersOnce(projects, i) && Once(projects[i].members)
  {
  }

  lemma NewName(projects: seq<Project>, i: nat)
    requires i < |projects| && NamesDistinct(projects)
    ensures projects[i].name !in NamesOf(projects[..i])
  {
    forall p | p in projects[..i] ensures p.name != projects[i].name {
      var j :| 0 <= j < i && projects[j] == p;
    }
  }

  lemma ReposDoNotClash(f: File, reserved: set<string>, projects: Ids)
    requires ValidFile(f, reserved) && Injective(projects) && !UnknownProject(f.repos, projects)
    ensures NoClash(RepoRows(f.repos, projects)) && AllCheck(RepoRows(f.repos, projects))
  {
    var rows := RepoRows(f.repos, projects);
    forall i | 0 <= i < |rows| ensures ChecksOK(rows[i]) {
      assert f.repos[i] in f.repos && RepoOK(f, f.repos[i], reserved);
      TypeIsAllowed(f.repos[i].repoType);
      SeverityIsAllowed(f.repos[i]);
    }
    forall i, j | 0 <= i < j < |rows| ensures !Clash(rows[i], rows[j]) {
      assert f.repos[i] in f.repos && f.repos[j] in f.repos && !SameRepo(f.repos[i], f.repos[j]);
    }
  }

  lemma TypeIsAllowed(repoType: string)
    requires repoType in REPO_TYPES
    ensures repoType in ["rpm", "deb", "pypi", "docker", "helm", "git", "raw", "go", "npm", "maven"]
  {
    var types := ["rpm", "deb", "pypi", "docker", "helm", "git", "raw", "go", "npm", "maven"];
    assert types[0] == "rpm" && types[1] == "deb" && types[2] == "pypi" && types[3] == "docker" &&
           types[4] == "helm" && types[5] == "git" && types[6] == "raw";
  }

  lemma SeverityIsAllowed(r: Repo)
    requires r.blockOnSeverity.Some? && r.blockOnSeverity.value != "" ==> r.blockOnSeverity.value in SEVERITIES
    ensures SeverityOf(r) in ["none", "low", "medium", "high", "critical"]
  {
    var severities := ["none", "low", "medium", "high", "critical"];
    assert severities[0] == "none" && severities[1] == "low" && severities[2] == "medium" &&
           severities[3] == "high" && severities[4] == "critical";
  }

  lemma KeysClash(f: File, users: Ids, projects: Ids)
    requires forall k :: k in f.apiKeys ==> KeyOK(f, k)
    requires Injective(users) && Injective(projects) && !UnresolvedKey(f.apiKeys, users, projects)
    ensures NoClash(KeyRows(f.apiKeys, users, projects)) <==> KeysOnce(f.apiKeys)
    ensures AllCheck(KeyRows(f.apiKeys, users, projects))
  {
    var rows, keys := KeyRows(f.apiKeys, users, projects), f.apiKeys;
    forall i | 0 <= i < |keys| ensures ChecksOK(rows[i]) {
      assert keys[i] in keys;
    }
    forall i, j | 0 <= i < j < |keys| ensures Clash(rows[i], rows[j]) <==> SameKey(keys[i], keys[j]) {
      assert keys[i] in keys && keys[j] in keys;
      KeyPairClash(f, keys[i], keys[j], users, projects);
    }
  }

  lemma KeyPairClash(f: File, k: APIKey, l: APIKey, users: Ids, projects: Ids)
    requires KeyOK(f, k) && KeyOK(f, l) && Injective(users) && Injective(projects)
    requires KeyResolves(k, users, projects) && KeyResolves(l, users, projects)
    ensures Clash(KeyRowOf(k, users, projects), KeyRowOf(l, users, projects)) <==> SameKey(k, l)
  {
  }

  // ---- The theorem ----

  /** On an otherwise empty database a validated file is taken if and only if no project lists a member twice,
      no token is used twice and no owner has two keys of one name: validation looks for none of these. */
  lemma SchemaAcceptsExactly(f: File, reserved: set<string>, ids: nat -> int)
    requires ValidFile(f, reserved) && IdsDistinct(ProjectPart(f, ids))
    ensures AcceptedFrom(SchemaAllows, AllRows(f, ids), 0) <==>
            MembersOnce(f.projects, |f.projects|) && KeysOnce(f.apiKeys)
  {
    var users, projects := UsersOf(f, ids), ProjectsOf(f, ids);
    ValidFileResolves(f, reserved, ids);
    WithProjectsGrows(UserPart(f, ids), f.projects, 0, |f.projects|, ids, users);
    PrefixIds(UserPart(f, ids), ProjectPart(f, ids));
    UserIdsInjective(f, ids, |f.users|);
    ProjectIdsInjective(UserPart(f, ids), f.projects, |f.projects|, ids, users);
    UsersDoNotClash(f, ids, |f.users|);
    assert ClashUpTo(UserPart(f, ids), f.projects, 0);
    ProjectsClash(UserPart(f, ids), f.projects, |f.projects|, ids, users);
    ReposDoNotClash(f, reserved, projects);
    KeysClash(f, users, projects);
    PartsClash(f, ids, NamesOf(f.projects[..|f.projects|]));
    AcceptedBySchema(AllRows(f, ids));
  }

  /** Such files do pass validation. */
  lemma ValidationMissesRepeats()
    ensures var f := File(1, User("root", "r@x", "pw"), [], [Project("acme", ["root", "root"])], [], []);
            ValidFile(f, {}) && !MembersOnce(f.projects, |f.projects|)
  {
    var members := ["root", "root"];
    var f := File(1, User("root", "r@x", "pw"), [], [Project("acme", members)], [], []);
    assert members[0] == members[1];
    assert f.projects[0].members == members && !Once(f.projects[0].members);
  }

  function TableOf(row: Row): nat {
    match row
    case UserRow(_, _, _) => 0
    case ProjectRow(_, _) => 1
    case MemberRow(_, _) => 2
    case RepoRow(_, _, _, _) => 3
    case KeyRow(_, _, _, _, _, _) => 4
    case SettingRow(_) => 5
  }

  predicate Within(rows: seq<Row>, lo: nat, hi: nat) {
    forall x :: x in rows ==> lo <= TableOf(x) <= hi
  }

  /** Rows of different tables do not clash. */
  lemma OtherTables(a: seq<Row>, b: seq<Row>, hi: nat)
    requires Within(a, 0, hi) && Within(b, hi + 1, hi + 1)
    ensures Apart(a, b) && Within(a + b, 0, hi + 1)
  {
  }

  lemma JoinTables(a: seq<Row>, b: seq<Row>, hi: nat)
    requires Within(a, 0, hi) && Within(b, hi + 1, hi + 1)
    ensures Within(a + b, 0, hi + 1)
    ensures NoClash(a + b) <==> NoClash(a) && NoClash(b)
    ensures AllCheck(a + b) <==> AllCheck(a) && AllCheck(b)
  {
    OtherTables(a, b, hi);
    NoClashJoin(a, b);
  }

  lemma KnownTables(rows: seq<Row>, names: set<string>)
    requires Known(rows, names)
    ensures Within(rows, 0, 2)
  {
  }

  lemma RepoTable(repos: seq<Repo>, projects: Ids)
    ensures Within(RepoRows(repos, projects), 3, 3)
  {
  }

  lemma KeyTable(keys: seq<APIKey>, users: Ids, projects: Ids)
    ensures Within(KeyRows(keys, users, projects), 4, 4)
  {
  }

  lemma SettingsTable()
    ensures Within(SETTINGS, 5, 5) && NoClash(SETTINGS) && AllCheck(SETTINGS)
  {
  }

  lemma PartsClash(f: File, ids: nat -> int, names: set<string>)
    requires Known(ProjectPart(f, ids), names)
    ensures NoClash(AllRows(f, ids)) <==>
            NoClash(ProjectPart(f, ids)) && NoClash(RepoPart(f, ids)) && NoClash(KeyPart(f, ids))
    ensures AllCheck(AllRows(f, ids)) <==>
            AllCheck(ProjectPart(f, ids)) && AllCheck(RepoPart(f, ids)) && AllCheck(KeyPart(f, ids))
  {
    var p, r, k := ProjectPart(f, ids), RepoPart(f, ids), KeyPart(f, ids);
    KnownTables(p, names);
    RepoTable(f.repos, ProjectsOf(f, ids));
    KeyTable(f.apiKeys, UsersOf(f, ids), ProjectsOf(f, ids));
    SettingsTable();
    JoinTables(p, r, 2);
    JoinTables(p + r, k, 3);
    JoinTables(p + r + k, SETTINGS, 4);
  }
}
