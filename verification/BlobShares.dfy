/** Storage attribution of shared docker blobs: each blob's bytes are split evenly over the repositories
    that reference it, and truncated once per repository. Shares are exact rationals. */
module BlobShares {
  import opened Options

  /** One docker_manifests row: its repository and the digests its body names. */
  datatype Manifest = Manifest(repo: int, layers: seq<Option<string>>, config: Option<string>)

  /** One docker_blobs row. */
  datatype Blob = Blob(digest: string, size: nat)

  predicate References(m: Manifest, digest: string) {
    Some(digest) in m.layers || m.config == Some(digest)
  }

  /** COUNT(DISTINCT m2.repo_id) counts these. */
  function Users(manifests: seq<Manifest>, digest: string): set<int> {
    set m | m in manifests && References(m, digest) :: m.repo
  }

  /** size_bytes * 1.0 / distinct_repos for a repository that references the blob. */
  function BlobShare(users: set<int>, size: nat, repo: int): real {
    if repo in users then size as real / |users| as real else 0.0
  }

  /** The inner SUM, before the cast. */
  function ExactShare(blobs: seq<Blob>, manifests: seq<Manifest>, repo: int): real {
    if blobs == [] then 0.0
    else BlobShare(Users(manifests, blobs[0].digest), blobs[0].size, repo) + ExactShare(blobs[1..], manifests, repo)
  }

  /** CAST(SUM(...) AS INTEGER). */
  function DockerShare(blobs: seq<Blob>, manifests: seq<Manifest>, repo: int): int {
    ExactShare(blobs, manifests, repo).Floor
  }

  /** The dashboard's total over some repositories. */
  function DockerTotal(blobs: seq<Blob>, manifests: seq<Manifest>, repos: seq<int>): int {
    if repos == [] then 0
    else DockerShare(blobs, manifests, repos[0]) + DockerTotal(blobs, manifests, repos[1..])
  }

  function ExactTotal(blobs: seq<Blob>, manifests: seq<Manifest>, repos: seq<int>): real {
    if repos == [] then 0.0
    else ExactShare(blobs, manifests, repos[0]) + ExactTotal(blobs, manifests, repos[1..])
  }

  /** Some listed repository uses the blob. */
  predicate Touches(users: set<int>, repos: seq<int>) {
    exists r :: r in repos && r in users
  }

  /** No repository off the list uses the blob. */
  predicate Covers(users: set<int>, repos: seq<int>) {
    forall r :: r in users ==> r in repos
  }

  /** The bytes of the blobs that some of the repositories reference. */
  function ReferencedBytes(blobs: seq<Blob>, manifests: seq<Manifest>, repos: seq<int>): nat {
    if blobs == [] then 0
    else
      (if Touches(Users(manifests, blobs[0].digest), repos) then blobs[0].size else 0) +
      ReferencedBytes(blobs[1..], manifests, repos)
  }

  predicate Distinct(repos: seq<int>) {
    forall i, j :: 0 <= i < j < |repos| ==> repos[i] != repos[j]
  }

  // ---- Double counting ----

  /** One blob's shares over a list of repositories. */
  function BlobTotal(users: set<int>, size: nat, repos: seq<int>): real {
    if repos == [] then 0.0 else BlobShare(users, size, repos[0]) + BlobTotal(users, size, repos[1..])
  }

  /** Swapping the two sums. */
  lemma {:induction false} SwapSums(blobs: seq<Blob>, manifests: seq<Manifest>, repos: seq<int>)
    requires blobs != []
    ensures ExactTotal(blobs, manifests, repos) ==
            BlobTotal(Users(manifests, blobs[0].digest), blobs[0].size, repos) +
            ExactTotal(blobs[1..], manifests, repos)
  {
    if repos != [] { SwapSums(blobs, manifests, repos[1..]); }
  }

  lemma {:induction false} NoBlobs(manifests: seq<Manifest>, repos: seq<int>)
    ensures ExactTotal([], manifests, repos) == 0.0
  {
    if repos != [] { NoBlobs(manifests, repos[1..]); }
  }

  function Members(users: set<int>, repos: seq<int>): set<int> {
    set r | r in repos && r in users
  }

  lemma MembersSplit(users: set<int>, repos: seq<int>)
    requires Distinct(repos) && repos != []
    ensures |Members(users, repos)| == |Members(users, repos[1..])| + (if repos[0] in users then 1 else 0)
  {
    var r := repos[0];
    assert r !in repos[1..] by { assert forall k :: 0 <= k < |repos[1..]| ==> repos[1..][k] == repos[k + 1]; }
    assert repos == [r] + repos[1..];
    if r in users {
      assert Members(users, repos) == {r} + Members(users, repos[1..]);
    } else {
      assert Members(users, repos) == Members(users, repos[1..]);
    }
  }

  lemma OneMore(k: nat, q: real)
    ensures (k + 1) as real * q == k as real * q + q
  {
  }

  /** One blob's shares add up to its size times the fraction of its users on the list. */
  lemma {:induction false} BlobTotalIsFraction(users: set<int>, size: nat, repos: seq<int>)
    requires Distinct(repos)
    ensures users != {} ==>
              BlobTotal(users, size, repos) == |Members(users, repos)| as real * (size as real / |users| as real)
    ensures users == {} ==> BlobTotal(users, size, repos) == 0.0
  {
    if repos != [] {
      BlobTotalIsFraction(users, size, repos[1..]);
      MembersSplit(users, repos);
      if repos[0] in users {
        OneMore(|Members(users, repos[1..])|, size as real / |users| as real);
      }
    } else {
      assert Members(users, repos) == {};
    }
  }

  lemma Fraction(k: nat, n: nat, size: nat)
    requires k <= n && n > 0
    ensures k as real * (size as real / n as real) <= size as real
    ensures k == n ==> k as real * (size as real / n as real) == size as real
    ensures k as real * (size as real / n as real) == size as real ==> k == n || size == 0
    ensures k as real * (size as real / n as real) >= 0.0
  {
    var q := size as real / n as real;
    assert q >= 0.0 && n as real * q == size as real;
    assert n as real * q - k as real * q == (n - k) as real * q;
    assert (n - k) as real * q >= 0.0;
    if k < n && size > 0 { assert q > 0.0; assert (n - k) as real * q >= 1.0 * q; }
  }

  lemma MembersAreUsers(users: set<int>, repos: seq<int>)
    ensures |Members(users, repos)| <= |users|
    ensures |Members(users, repos)| == |users| <==> Covers(users, repos)
    ensures |Members(users, repos)| > 0 <==> Touches(users, repos)
  {
    var m := Members(users, repos);
    assert users == m + (users - m);
    if |m| == |users| {
      assert users - m == {};
    }
    if forall r :: r in users ==> r in repos { assert m == users; }
    if r :| r in repos && r in users { assert r in m; }
    if !Touches(users, repos) { assert forall r :: r !in m; }
  }

  lemma FractionBound(k: nat, n: nat, size: nat, total: real)
    requires k <= n && total == if n == 0 then 0.0 else k as real * (size as real / n as real)
    ensures var bytes := if k > 0 then size else 0;
            0.0 <= total <= bytes as real && (total == bytes as real <==> bytes == 0 || k == n)
  {
    if n > 0 { Fraction(k, n, size); }
    if k == 0 { assert total == 0.0; }
  }

  /** The share of one blob among some of its users, against its size. */
  lemma BlobTotalBound(users: set<int>, size: nat, repos: seq<int>)
    requires Distinct(repos)
    ensures var bytes := if Touches(users, repos) then size else 0;
            && 0.0 <= BlobTotal(users, size, repos) <= bytes as real
            && (BlobTotal(users, size, repos) == bytes as real <==> bytes == 0 || Covers(users, repos))
  {
    var k := |Members(users, repos)|;
    BlobTotalIsFraction(users, size, repos);
    MembersAreUsers(users, repos);
    assert users == {} <==> |users| == 0;
    FractionBound(k, |users|, size, BlobTotal(users, size, repos));
  }

  /** A manifest of the repository names the digest, as a layer or as its configuration. */
  predicate Named(manifests: seq<Manifest>, digest: string, repo: int) {
    exists m :: m in manifests && m.repo == repo && (Some(digest) in m.layers || m.config == Some(digest))
  }

  lemma UsersExactly(manifests: seq<Manifest>, digest: string, repo: int)
    ensures repo in Users(manifests, digest) <==> Named(manifests, digest, repo)
  {
  }

  /** A repository is charged something if and only if one of its manifests names a blob that has bytes. */
  lemma {:induction false} ChargedExactly(blobs: seq<Blob>, manifests: seq<Manifest>, repo: int)
    ensures ExactShare(blobs, manifests, repo) >= 0.0
    ensures ExactShare(blobs, manifests, repo) > 0.0 <==>
            exists b :: b in blobs && b.size > 0 && Named(manifests, b.digest, repo)
  {
    if blobs != [] {
      var b := blobs[0];
      ChargedExactly(blobs[1..], manifests, repo);
      UsersExactly(manifests, b.digest, repo);
      SharePositive(Users(manifests, b.digest), b.size, repo);
      assert blobs == [b] + blobs[1..];
    }
  }

  lemma SharePositive(users: set<int>, size: nat, repo: int)
    ensures BlobShare(users, size, repo) >= 0.0
    ensures BlobShare(users, size, repo) > 0.0 <==> repo in users && size > 0
  {
    if repo in users {
      assert |users| > 0;
      assert size > 0 ==> size as real / |users| as real > 0.0;
    }
  }

  /** Every repository that names a blob is charged the same for it, the only one all of it. */
  lemma EqualShares(manifests: seq<Manifest>, digest: string, size: nat, repo: int, other: int)
    requires Named(manifests, digest, repo)
    ensures var users := Users(manifests, digest);
            && (Named(manifests, digest, other) ==> BlobShare(users, size, other) == BlobShare(users, size, repo))
            && (!Named(manifests, digest, other) ==> BlobShare(users, size, other) == 0.0)
            && ((forall r :: Named(manifests, digest, r) ==> r == repo) ==>
                  BlobShare(users, size, repo) == size as real)
  {
    var users := Users(manifests, digest);
    UsersExactly(manifests, digest, repo);
    UsersExactly(manifests, digest, other);
    if forall r :: Named(manifests, digest, r) ==> r == repo {
      forall r | r in users ensures r == repo { UsersExactly(manifests, digest, r); }
      assert users == {repo};
    }
  }

  /** No blob of positive size is shared between the listed repositories and others. */
  predicate SharedOnlyWithin(blobs: seq<Blob>, manifests: seq<Manifest>, repos: seq<int>) {
    forall b :: b in blobs && b.size > 0 && Touches(Users(manifests, b.digest), repos) ==>
      Covers(Users(manifests, b.digest), repos)
  }

  /** Exact shares never exceed the bytes referenced, and reach them exactly when nothing is shared with
      a repository off the list. */
  lemma {:induction false} ExactConservation(blobs: seq<Blob>, manifests: seq<Manifest>, repos: seq<int>)
    requires Distinct(repos)
    ensures 0.0 <= ExactTotal(blobs, manifests, repos) <= ReferencedBytes(blobs, manifests, repos) as real
    ensures ExactTotal(blobs, manifests, repos) == ReferencedBytes(blobs, manifests, repos) as real <==>
            SharedOnlyWithin(blobs, manifests, repos)
  {
    if blobs == [] {
      NoBlobs(manifests, repos);
    } else {
      ExactConservation(blobs[1..], manifests, repos);
      SwapSums(blobs, manifests, repos);
      BlobTotalBound(Users(manifests, blobs[0].digest), blobs[0].size, repos);
      assert blobs == [blobs[0]] + blobs[1..];
      SharedSplit(blobs, manifests, repos);
    }
  }

  lemma SharedSplit(blobs: seq<Blob>, manifests: seq<Manifest>, repos: seq<int>)
    requires blobs != []
    ensures SharedOnlyWithin(blobs, manifests, repos) <==>
            SharedOnlyWithin([blobs[0]], manifests, repos) && SharedOnlyWithin(blobs[1..], manifests, repos)
  {
    assert blobs == [blobs[0]] + blobs[1..];
  }

  /** Truncation costs less than a byte per repository. */
  lemma {:induction false} TruncationLoss(blobs: seq<Blob>, manifests: seq<Manifest>, repos: seq<int>)
    ensures DockerTotal(blobs, manifests, repos) as real <= ExactTotal(blobs, manifests, repos)
    ensures ExactTotal(blobs, manifests, repos) <= DockerTotal(blobs, manifests, repos) as real + |repos| as real
    ensures repos != [] ==>
              ExactTotal(blobs, manifests, repos) < DockerTotal(blobs, manifests, repos) as real + |repos| as real
  {
    if repos != [] { TruncationLoss(blobs, manifests, repos[1..]); }
  }

  /** Over any repositories, the docker shares never add up to more than the blobs they reference. */
  lemma SharesNeverExceedBlobs(blobs: seq<Blob>, manifests: seq<Manifest>, repos: seq<int>)
    requires Distinct(repos)
    ensures DockerTotal(blobs, manifests, repos) <= ReferencedBytes(blobs, manifests, repos)
  {
    ExactConservation(blobs, manifests, repos);
    TruncationLoss(blobs, manifests, repos);
  }

  /** Over all repositories with manifests, the shortfall is less than one byte per repository. */
  lemma SharesCoverBlobs(blobs: seq<Blob>, manifests: seq<Manifest>, repos: seq<int>)
    requires Distinct(repos) && repos != []
    requires forall m :: m in manifests ==> m.repo in repos
    ensures ReferencedBytes(blobs, manifests, repos) - DockerTotal(blobs, manifests, repos) < |repos|
  {
    ExactConservation(blobs, manifests, repos);
    TruncationLoss(blobs, manifests, repos);
  }
}
