/** First-boot seeding: bootstrap.json and its validation pass. */
module Bootstrap {
  import opened Options

  datatype User = User(login: string, email: string, password: string)
  datatype Project = Project(name: string, members: seq<string>)
  datatype Repo = Repo(project: string, repoType: string, name: string, blockOnSeverity: Option<string>)
  datatype APIKey = APIKey(ownerKind: string, owner: string, name: string, token: string)

  datatype File = File(schemaVersion: int, superAdmin: User, users: seq<User>, projects: seq<Project>,
                       repos: seq<Repo>, apiKeys: seq<APIKey>)

  // ---- Names and tokens ----

  predicate Lower(c: char) { 'a' <= c <= 'z' }
  predicate Upper(c: char) { 'A' <= c <= 'Z' }
  predicate Numeral(c: char) { '0' <= c <= '9' }

  /** ^[a-zA-Z0-9][a-zA-Z0-9._-]{0,62}$ */
  predicate LoginValid(s: string) {
    && 1 <= |s| <= 63 && (Lower(s[0]) || Upper(s[0]) || Numeral(s[0]))
    && forall c :: c in s ==> Lower(c) || Upper(c) || Numeral(c) || c == '.' || c == '_' || c == '-'
  }

  /** ^[a-z0-9][a-z0-9._-]{0,62}$ and not a reserved route prefix. */
  predicate ProjectNameValid(s: string, reserved: set<string>) {
    && 1 <= |s| <= 63 && (Lower(s[0]) || Numeral(s[0]))
    && (forall c :: c in s ==> Lower(c) || Numeral(c) || c == '.' || c == '_' || c == '-')
    && s !in reserved
  }

  predicate Base62(c: char) { Lower(c) || Upper(c) || Numeral(c) }

  /** ^omr_([up])_([0-9A-Za-z]{28})$ */
  predicate APIKeyMatches(t: string) {
    && |t| == 34 && t[..4] == "omr_" && (t[4] == 'u' || t[4] == 'p') && t[5] == '_'
    && forall c :: c in t[6..] ==> Base62(c)
  }

  datatype ParsedKey = ParsedKey(kind: char, prefix: string)

  function ParseAPIKey(t: string): (k: Option<ParsedKey>)
    ensures k.Some? <==> APIKeyMatches(t)
    ensures k.Some? ==> k.value.kind == t[4] && |k.value.prefix| == 8 && k.value.prefix <= t[6..]
  {
    if APIKeyMatches(t) then Some(ParsedKey(t[4], t[6..14])) else None
  }

  /** A login has up to 63 characters of its alphabet and starts with a letter or a digit; a project name is
      the same in lower case, and no reserved word. */
  lemma NamesExactly(s: string, reserved: set<string>)
    ensures LoginValid(s) <==>
            && s != "" && |s| <= 63 && s[0] !in "._-"
            && forall c :: c in s ==> '0' <= c <= '9' || 'A' <= c <= 'Z' || 'a' <= c <= 'z' || c in "._-"
    ensures ProjectNameValid(s, reserved) <==>
            && LoginValid(s) && s !in reserved && forall c :: c in s ==> !('A' <= c <= 'Z')
  {
    assert "._-"[0] == '.' && "._-"[1] == '_' && "._-"[2] == '-';
    if s != "" { assert s[0] in s; }
  }

  /** Every key as the generator makes it parses to its kind and the first eight characters of its
      suffix. */
  lemma GeneratedKeyParses(kind: char, suffix: string)
    requires kind == 'u' || kind == 'p'
    requires |suffix| == 28 && forall c :: c in suffix ==> '0' <= c <= '9' || 'A' <= c <= 'Z' || 'a' <= c <= 'z'
    ensures ParseAPIKey("omr_" + [kind] + "_" + suffix) == Some(ParsedKey(kind, suffix[..8]))
  {
    var t := "omr_" + [kind] + "_" + suffix;
    assert t[..4] == "omr_" && t[4] == kind && t[5] == '_' && t[6..] == suffix;
    assert t[6..14] == suffix[..8];
  }

  /** And nothing else parses. */
  lemma ParsedKeyIsGenerated(t: string) returns (kind: char, suffix: string)
    requires ParseAPIKey(t).Some?
    ensures t == "omr_" + [kind] + "_" + suffix && (kind == 'u' || kind == 'p')
    ensures |suffix| == 28 && forall c :: c in suffix ==> '0' <= c <= '9' || 'A' <= c <= 'Z' || 'a' <= c <= 'z'
  {
    kind, suffix := t[4], t[6..];
    assert t == t[..4] + [t[4]] + [t[5]] + t[6..];
  }

  const REPO_TYPES: set<string> := {"rpm", "deb", "pypi", "docker", "helm", "git", "raw"}
  const SEVERITIES: set<string> := {"none", "low", "medium", "high", "critical"}

  // ---- What a valid file is ----

  function LoginsOf(users: seq<User>): set<string> {
    set u | u in users :: u.login
  }

  lemma LoginsOfGrow(users: seq<User>, i: nat)
    requires i < |users|
    ensures LoginsOf(users[..i + 1]) == LoginsOf(users[..i]) + {users[i].login}
  {
    assert users[..i + 1] == users[..i] + [users[i]];
  }

  function Logins(f: File): set<string> {
    {f.superAdmin.login} + LoginsOf(f.users)
  }

  function NamesOf(projects: seq<Project>): set<string> {
    set p | p in projects :: p.name
  }

  lemma NamesOfGrow(projects: seq<Project>, i: nat)
    requires i < |projects|
    ensures NamesOf(projects[..i + 1]) == NamesOf(projects[..i]) + {projects[i].name}
  {
    assert projects[..i + 1] == projects[..i] + [projects[i]];
  }

  function ProjectNames(f: File): set<string> {
    NamesOf(f.projects)
  }

  predicate UserFieldsOK(u: User) { LoginValid(u.login) && u.email != "" && u.password != "" }

  predicate UsersOK(f: File) {
    && (forall i :: 0 <= i < |f.users| ==> UserFieldsOK(f.users[i]) && f.users[i].login != f.superAdmin.login)
    && (forall i, j :: 0 <= i < j < |f.users| ==> f.users[i].login != f.users[j].login)
  }

  predicate ProjectsOK(f: File, reserved: set<string>) {
    && (forall i :: 0 <= i < |f.projects| ==> ProjectNameValid(f.projects[i].name, reserved))
    && (forall i, j :: 0 <= i < j < |f.projects| ==> f.projects[i].name != f.projects[j].name)
    && (forall p :: p in f.projects ==> MembersIn(p, Logins(f)))
  }

  predicate MembersIn(p: Project, logins: set<string>) {
    forall m :: m in p.members ==> m in logins
  }

  predicate SameRepo(a: Repo, b: Repo) {
    a.project == b.project && a.repoType == b.repoType && a.name == b.name
  }

  predicate RepoOK(f: File, r: Repo, reserved: set<string>) {
    && r.project in ProjectNames(f) && r.repoType in REPO_TYPES && ProjectNameValid(r.name, reserved)
    && (r.blockOnSeverity.Some? && r.blockOnSeverity.value != "" ==> r.blockOnSeverity.value in SEVERITIES)
  }

  predicate ReposOK(f: File, reserved: set<string>) {
    && (forall r :: r in f.repos ==> RepoOK(f, r, reserved))
    && (forall i, j :: 0 <= i < j < |f.repos| ==> !SameRepo(f.repos[i], f.repos[j]))
  }

  predicate KeyOK(f: File, k: APIKey) {
    && ((k.ownerKind == "user" && k.owner in Logins(f)) || (k.ownerKind == "project" && k.owner in ProjectNames(f)))
    && k.name != "" && APIKeyMatches(k.token)
    && k.token[4] == if k.ownerKind == "project" then 'p' else 'u'
  }

  predicate ValidFile(f: File, reserved: set<string>) {
    && f.schemaVersion == 1 && UserFieldsOK(f.superAdmin)
    && UsersOK(f) && ProjectsOK(f, reserved) && ReposOK(f, reserved)
    && forall k :: k in f.apiKeys ==> KeyOK(f, k)
  }

  // ---- The validation pass ----

  /** Where validation stopped. */
  datatype Pointer = SchemaVersion | SuperAdmin | UserAt(i: nat) | ProjectAt(i: nat) | RepoAt(i: nat) | KeyAt(i: nat)

  method Validate(f: File, reserved: set<string>) returns (problem: Option<Pointer>)
    ensures problem.None? <==> ValidFile(f, reserved)
  {
    if f.schemaVersion != 1 { return Some(SchemaVersion); }
    if !LoginValid(f.superAdmin.login) || f.superAdmin.email == "" || f.superAdmin.password == "" {
      return Some(SuperAdmin);
    }
    var seenLogin;
    problem, seenLogin := ValidateUsers(f);
    if problem.Some? { return; }
    var seenProject;
    problem, seenProject := ValidateProjects(f, reserved, seenLogin);
    if problem.Some? { return; }
    problem := ValidateRepos(f, reserved, seenProject);
    if problem.Some? { return; }
    problem := ValidateKeys(f, seenLogin, seenProject);
  }

  method ValidateUsers(f: File) returns (problem: Option<Pointer>, seenLogin: set<string>)
    ensures problem.None? <==> UsersOK(f)
    ensures problem.None? ==> seenLogin == Logins(f)
  {
    seenLogin := {f.superAdmin.login};
    for i := 0 to |f.users|
      invariant seenLogin == {f.superAdmin.login} + LoginsOf(f.users[..i])
      invariant forall k :: 0 <= k < i ==> UserFieldsOK(f.users[k]) && f.users[k].login != f.superAdmin.login
      invariant forall j, k :: 0 <= j < k < i ==> f.users[j].login != f.users[k].login
    {
      var u := f.users[i];
      if !LoginValid(u.login) { return Some(UserAt(i)), seenLogin; }
      if u.login in seenLogin { return Some(UserAt(i)), seenLogin; }
      seenLogin := seenLogin + {u.login};
      LoginsOfGrow(f.users, i);
      if u.email == "" || u.password == "" { return Some(UserAt(i)), seenLogin; }
      forall k | 0 <= k < i ensures f.users[k].login != u.login {
        assert f.users[..i][k] == f.users[k];
      }
    }
    assert f.users[..|f.users|] == f.users;
    problem := None;
  }

  method ValidateMembers(p: Project, seenLogin: set<string>) returns (known: bool)
    ensures known <==> MembersIn(p, seenLogin)
  {
    for j := 0 to |p.members|
      invariant forall k :: 0 <= k < j ==> p.members[k] in seenLogin
    {
      if p.members[j] !in seenLogin { return false; }
    }
    known := true;
  }

  method ValidateProjects(f: File, reserved: set<string>, seenLogin: set<string>)
    returns (problem: Option<Pointer>, seenProject: set<string>)
    requires seenLogin == Logins(f)
    ensures problem.None? <==> ProjectsOK(f, reserved)
    ensures problem.None? ==> seenProject == ProjectNames(f)
  {
    seenProject := {};
    for i := 0 to |f.projects|
      invariant seenProject == NamesOf(f.projects[..i])
      invariant forall k :: 0 <= k < i ==> ProjectNameValid(f.projects[k].name, reserved)
      invariant forall j, k :: 0 <= j < k < i ==> f.projects[j].name != f.projects[k].name
      invariant forall k :: 0 <= k < i ==> MembersIn(f.projects[k], seenLogin)
    {
      var p := f.projects[i];
      if !ProjectNameValid(p.name, reserved) { return Some(ProjectAt(i)), seenProject; }
      if p.name in seenProject { return Some(ProjectAt(i)), seenProject; }
      forall k | 0 <= k < i ensures f.projects[k].name != p.name {
        assert f.projects[..i][k] == f.projects[k];
      }
      seenProject := seenProject + {p.name};
      NamesOfGrow(f.projects, i);
      var known := ValidateMembers(p, seenLogin);
      if !known {
        assert p in f.projects;
        return Some(ProjectAt(i)), seenProject;
      }
    }
    assert f.projects[..|f.projects|] == f.projects;
    problem := None;
  }

  function TripleOf(r: Repo): (string, string, string) { (r.project, r.repoType, r.name) }

  function TriplesOf(repos: seq<Repo>): set<(string, string, string)> {
    set r | r in repos :: TripleOf(r)
  }

  lemma TriplesOfGrow(repos: seq<Repo>, i: nat)
    requires i < |repos|
    ensures TriplesOf(repos[..i + 1]) == TriplesOf(repos[..i]) + {TripleOf(repos[i])}
    ensures TripleOf(repos[i]) in TriplesOf(repos[..i]) <==> exists k :: 0 <= k < i && SameRepo(repos[k], repos[i])
  {
    assert repos[..i + 1] == repos[..i] + [repos[i]];
    if TripleOf(repos[i]) in TriplesOf(repos[..i]) {
      var r :| r in repos[..i] && TripleOf(r) == TripleOf(repos[i]);
      var k :| 0 <= k < i && repos[k] == r;
      assert SameRepo(repos[k], repos[i]);
    }
    if k :| 0 <= k < i && SameRepo(repos[k], repos[i]) {
      assert repos[..i][k] == repos[k] && repos[k] in repos[..i];
      assert TripleOf(repos[k]) == TripleOf(repos[i]);
    }
  }

  method ValidateRepos(f: File, reserved: set<string>, seenProject: set<string>) returns (problem: Option<Pointer>)
    requires seenProject == ProjectNames(f)
    ensures problem.None? <==> ReposOK(f, reserved)
  {
    var seenRepo: set<(string, string, string)> := {};
    for i := 0 to |f.repos|
      invariant seenRepo == TriplesOf(f.repos[..i])
      invariant forall k :: 0 <= k < i ==> RepoOK(f, f.repos[k], reserved)
      invariant forall j, k :: 0 <= j < k < i ==> !SameRepo(f.repos[j], f.repos[k])
    {
      var r := f.repos[i];
      assert r in f.repos;
      if r.project !in seenProject || r.repoType !in REPO_TYPES || !ProjectNameValid(r.name, reserved) {
        return Some(RepoAt(i));
      }
      TriplesOfGrow(f.repos, i);
      if (r.project, r.repoType, r.name) in seenRepo { return Some(RepoAt(i)); }
      seenRepo := seenRepo + {(r.project, r.repoType, r.name)};
      if r.blockOnSeverity.Some? && r.blockOnSeverity.value != "" {
        if r.blockOnSeverity.value !in SEVERITIES { return Some(RepoAt(i)); }
      }
    }
    problem := None;
  }

  method ValidateKeys(f: File, seenLogin: set<string>, seenProject: set<string>) returns (problem: Option<Pointer>)
    requires seenLogin == Logins(f) && seenProject == ProjectNames(f)
    ensures problem.None? <==> forall k :: k in f.apiKeys ==> KeyOK(f, k)
  {
    for i := 0 to |f.apiKeys|
      invariant forall j :: 0 <= j < i ==> KeyOK(f, f.apiKeys[j])
    {
      var k := f.apiKeys[i];
      assert k in f.apiKeys;
      if k.ownerKind == "user" {
        if k.owner !in seenLogin { return Some(KeyAt(i)); }
      } else if k.ownerKind == "project" {
        if k.owner !in seenProject { return Some(KeyAt(i)); }
      } else {
        return Some(KeyAt(i));
      }
      if k.name == "" { return Some(KeyAt(i)); }
      if !APIKeyMatches(k.token) { return Some(KeyAt(i)); }
      var expected := if k.ownerKind == "project" then 'p' else 'u';
      if k.token[4] != expected { return Some(KeyAt(i)); }
    }
    problem := None;
  }
}
