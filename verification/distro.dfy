/** distro.py: the release-file view of a wet distribution used by the job scripts.
    `RosDistro` maps package names to packages and repository names to
    repositories; `depends`/`depends_on` walk the package dependencies forwards and
    backwards; `RosDistroRepo.get_upstream` reads a repository's bloom
    configuration; packages print their release rosinstall entries. The release
    file, the `package.xml` downloads and the bloom configuration are given as
    data. */
module Distro {
  import opened Base
  import opened Strings
  import Seqs
  import GenDistro

  datatype Error = KeyError(key: string) | UnboundLocalError(name: string) | BuildException(msg: string)
                 | IndexError(msg: string) | URLError(url: string) | TypeError(msg: string)

  // ---------------------------------------------------------------------------
  // Construction

  /** A repository entry of the release file: its URL, its version ("" when the
      entry has none) and its package names, absent for a single-package
      repository. */
  datatype RepoData = RepoData(url: string, version: string, packages: Option<seq<string>>)

  /** `RosDistroPackage`. `preseeded` is whether the package was given empty
      dependencies at construction, which happens when its version is empty. */
  datatype Package = Package(name: string, repo: string, url: string, version: string, preseeded: bool)

  /** `RosDistroRepo`; its `upstream` memo is passed to `GetUpstreamHeld` separately. */
  datatype Repo = Repo(name: string, url: string, version: string, pkgs: seq<Package>)

  datatype RosDistro = RosDistro(repositories: map<string, Repo>, packages: map<string, Package>)

  /** The version kept for a repository or package: an empty version as it is,
      otherwise everything before the first '-'. */
  function Truncate(version: string): (r: string)
    ensures |r| <= |version| && version[..|r|] == r
    ensures '-' !in r
    ensures |r| < |version| ==> version[|r|] == '-'
  {
    if version == "" then version
    else
      FirstFieldPrefix(version, '-');
      FirstField(version, '-')
  }

  /** `RosDistroPackage(name, repo, url, version)`. */
  function MakePackage(name: string, repo: string, url: string, version: string): (p: Package)
    ensures p.name == name && p.repo == repo && p.url == url
    ensures p.version == Truncate(version) && (p.preseeded <==> version == "")
  {
    Package(name, repo, url, Truncate(version), version == "")
  }

  /** The package names of a repository: its `packages`, or the repository itself for
      a single-package repository. */
  function RepoPackageNames(repoName: string, data: RepoData): (r: seq<string>)
    ensures data.packages.None? ==> r == [repoName]
  {
    match data.packages
    case None => [repoName]
    case Some(names) => names
  }

  /** The packages of one repository, in order. */
  function RepoPackages(repoName: string, data: RepoData): (r: seq<Package>)
    ensures |r| == |RepoPackageNames(repoName, data)|
    ensures forall i :: 0 <= i < |r| ==> r[i] == MakePackage(RepoPackageNames(repoName, data)[i], repoName, data.url, data.version)
  {
    var names := RepoPackageNames(repoName, data);
    seq(|names|, i requires 0 <= i < |names| => MakePackage(names[i], repoName, data.url, data.version))
  }

  /** The names of some packages. */
  function NamesOf(pkgs: seq<Package>): (r: set<string>)
    ensures forall i :: 0 <= i < |pkgs| ==> pkgs[i].name in r
    ensures forall n :: n in r ==> exists i :: 0 <= i < |pkgs| && pkgs[i].name == n
  {
    set i | 0 <= i < |pkgs| :: pkgs[i].name
  }

  /** The names of the repositories of the release file. */
  function RepoNames(repos: seq<(string, RepoData)>): (r: set<string>)
    ensures forall i :: 0 <= i < |repos| ==> repos[i].0 in r
    ensures forall n :: n in r ==> exists i :: 0 <= i < |repos| && repos[i].0 == n
  {
    set i | 0 <= i < |repos| :: repos[i].0
  }

  /** Registers the packages of one repository; a name already present is replaced. */
  function AddPackages(packages: map<string, Package>, pkgs: seq<Package>): (r: map<string, Package>)
    ensures r.Keys == packages.Keys + NamesOf(pkgs)
    decreases |pkgs|
  {
    if |pkgs| == 0 then packages
    else
      NamesOfCons(pkgs);
      AddPackages(packages[pkgs[0].name := pkgs[0]], pkgs[1..])
  }

  lemma NamesOfCons(pkgs: seq<Package>)
    requires |pkgs| > 0
    ensures NamesOf(pkgs) == {pkgs[0].name} + NamesOf(pkgs[1..])
  {
    forall n | n in NamesOf(pkgs) ensures n in {pkgs[0].name} + NamesOf(pkgs[1..]) {
      var i :| 0 <= i < |pkgs| && pkgs[i].name == n;
      if i > 0 {
        assert pkgs[1..][i - 1].name == n;
      }
    }
    forall n | n in NamesOf(pkgs[1..]) ensures n in NamesOf(pkgs) {
      var i :| 0 <= i < |pkgs[1..]| && pkgs[1..][i].name == n;
      assert pkgs[i + 1].name == n;
    }
  }

  /** `RosDistro.__init__` on the release file's repositories, in the order the
      dictionary iterates them (Python 2 hash order, so an input here):
      every repository is registered with its truncated version, and every package
      under its name, a later repository's package replacing an earlier one of the
      same name. */
  function Build(repos: seq<(string, RepoData)>): (d: RosDistro)
    ensures d.repositories.Keys == RepoNames(repos)
  {
    RosDistro(RepoMap(repos), PackageMap(repos))
  }

  /** The repositories of the release file, each with its truncated version. */
  function RepoMap(repos: seq<(string, RepoData)>): (r: map<string, Repo>)
    ensures r.Keys == RepoNames(repos)
    decreases |repos|
  {
    if |repos| == 0 then map[]
    else
      var last := |repos| - 1;
      var name := repos[last].0;
      var data := repos[last].1;
      RepoNamesSnoc(repos);
      RepoMap(repos[..last])[name := Repo(name, data.url, Truncate(data.version), RepoPackages(name, data))]
  }

  /** The packages of the release file, a later repository's package replacing an
      earlier one of the same name. */
  function PackageMap(repos: seq<(string, RepoData)>): map<string, Package>
    decreases |repos|
  {
    if |repos| == 0 then map[]
    else AddPackages(PackageMap(repos[..|repos| - 1]), RepoPackages(repos[|repos| - 1].0, repos[|repos| - 1].1))
  }

  lemma RepoNamesSnoc(repos: seq<(string, RepoData)>)
    requires |repos| > 0
    ensures RepoNames(repos) == RepoNames(repos[..|repos| - 1]) + {repos[|repos| - 1].0}
  {
    var last := |repos| - 1;
    forall n | n in RepoNames(repos) ensures n in RepoNames(repos[..last]) + {repos[last].0} {
      var i :| 0 <= i < |repos| && repos[i].0 == n;
      if i < last {
        assert repos[..last][i].0 == n;
      }
    }
    forall n | n in RepoNames(repos[..last]) ensures n in RepoNames(repos) {
      var i :| 0 <= i < last && repos[..last][i].0 == n;
      assert repos[i].0 == n;
    }
  }

  /** The last position at which `pkgs` holds a package named `n`. */
  predicate LastNamed(pkgs: seq<Package>, n: string, i: nat) {
    i < |pkgs| && pkgs[i].name == n && forall j :: i < j < |pkgs| ==> pkgs[j].name != n
  }

  /** The package registered under a name is the last one of that name. */
  lemma {:induction false} AddPackagesLastWins(packages: map<string, Package>, pkgs: seq<Package>, n: string, i: nat)
    requires LastNamed(pkgs, n, i)
    ensures n in AddPackages(packages, pkgs) && AddPackages(packages, pkgs)[n] == pkgs[i]
    decreases |pkgs|
  {
    if i == 0 {
      AddPackagesKeeps(packages[pkgs[0].name := pkgs[0]], pkgs[1..], n);
    } else {
      assert LastNamed(pkgs[1..], n, i - 1);
      AddPackagesLastWins(packages[pkgs[0].name := pkgs[0]], pkgs[1..], n, i - 1);
    }
  }

  /** A name no later package uses keeps its package. */
  lemma {:induction false} AddPackagesKeeps(packages: map<string, Package>, pkgs: seq<Package>, n: string)
    requires n in packages && forall j :: 0 <= j < |pkgs| ==> pkgs[j].name != n
    ensures n in AddPackages(packages, pkgs) && AddPackages(packages, pkgs)[n] == packages[n]
    decreases |pkgs|
  {
    if |pkgs| > 0 {
      AddPackagesKeeps(packages[pkgs[0].name := pkgs[0]], pkgs[1..], n);
    }
  }

  /** The packages of the release file are those of its last repository merged into
      those of the others. */
  /** Repository `i` lists `n` at position `k`, and neither a later position nor a
      later repository lists it. */
  predicate LastListing(repos: seq<(string, RepoData)>, n: string, i: nat, k: nat) {
    i < |repos| &&
    var names := RepoPackageNames(repos[i].0, repos[i].1);
    k < |names| && names[k] == n && (forall k' :: k < k' < |names| ==> names[k'] != n) &&
    forall j :: i < j < |repos| ==> n !in RepoPackageNames(repos[j].0, repos[j].1)
  }

  /** The package registered under a name is the one built from its last listing:
      a later repository's package replaces an earlier one of the same name. */
  lemma {:induction false} BuildLastWins(repos: seq<(string, RepoData)>, n: string, i: nat, k: nat)
    requires LastListing(repos, n, i, k)
    ensures var m := PackageMap(repos);
            n in m && m[n] == RepoPackages(repos[i].0, repos[i].1)[k]
    decreases |repos|
  {
    var last := |repos| - 1;
    var init := PackageMap(repos[..last]);
    if i == last {
      AddLastListing(init, repos[last].0, repos[last].1, n, k);
    } else {
      assert repos[..last][i] == repos[i];
      assert LastListing(repos[..last], n, i, k) by {
        forall j | i < j < last ensures n !in RepoPackageNames(repos[..last][j].0, repos[..last][j].1) {
          assert repos[..last][j] == repos[j];
        }
      }
      BuildLastWins(repos[..last], n, i, k);
      AddUnlisted(init, repos[last].0, repos[last].1, n);
    }
  }

  /** Adding a repository that lists `n` last at position `k` registers its package. */
  lemma AddLastListing(packages: map<string, Package>, repoName: string, data: RepoData, n: string, k: nat)
    requires var names := RepoPackageNames(repoName, data);
             k < |names| && names[k] == n && forall k' :: k < k' < |names| ==> names[k'] != n
    ensures var r := AddPackages(packages, RepoPackages(repoName, data));
            n in r && r[n] == RepoPackages(repoName, data)[k]
  {
    var names := RepoPackageNames(repoName, data);
    var pkgs := RepoPackages(repoName, data);
    assert LastNamed(pkgs, n, k) by {
      forall k' | k < k' < |pkgs| ensures pkgs[k'].name != n {
        assert pkgs[k'].name == names[k'];
      }
    }
    AddPackagesLastWins(packages, pkgs, n, k);
  }

  /** Adding a repository that does not list `n` keeps its package. */
  lemma AddUnlisted(packages: map<string, Package>, repoName: string, data: RepoData, n: string)
    requires n in packages && n !in RepoPackageNames(repoName, data)
    ensures var r := AddPackages(packages, RepoPackages(repoName, data));
            n in r && r[n] == packages[n]
  {
    var names := RepoPackageNames(repoName, data);
    var pkgs := RepoPackages(repoName, data);
    forall j | 0 <= j < |pkgs| ensures pkgs[j].name != n {
      assert pkgs[j].name == names[j];
    }
    AddPackagesKeeps(packages, pkgs, n);
  }

  /** A single-package repository yields one package, named after the repository and
      carrying its truncated version, unless a later repository lists that name. */
  lemma UnaryRepository(repos: seq<(string, RepoData)>, i: nat)
    requires i < |repos| && repos[i].1.packages.None?
    requires forall j :: i < j < |repos| ==> repos[i].0 !in RepoPackageNames(repos[j].0, repos[j].1)
    ensures var d := Build(repos);
            repos[i].0 in d.packages &&
            d.packages[repos[i].0] == MakePackage(repos[i].0, repos[i].0, repos[i].1.url, repos[i].1.version)
  {
    BuildLastWins(repos, repos[i].0, i, 0);
    assert RepoPackages(repos[i].0, repos[i].1)[0] == MakePackage(repos[i].0, repos[i].0, repos[i].1.url, repos[i].1.version);
  }

  // ---------------------------------------------------------------------------
  // Dependencies

  /** A package's dependencies by type (`build`, `test`, `run`). */
  type DepMap = map<string, seq<string>>

  const EmptyDeps: DepMap := map["build" := [], "test" := [], "run" := []]

  /** `RosDistroPackage.get_dependencies`: the empty dependencies of a package built
      without a version, otherwise those read from its `package.xml` (`fetch`), and
      `BuildException` when that cannot be had. */
  function GetDependencies(p: Package, fetch: string -> Option<DepMap>): (r: Result<DepMap, Error>)
    ensures p.preseeded ==> r == Ok(EmptyDeps)
    ensures !p.preseeded ==> (r.Ok? <==> fetch(p.name).Some?) && (r.Ok? ==> r.value == fetch(p.name).value)
  {
    if p.preseeded then Ok(EmptyDeps)
    else match fetch(p.name)
      case Some(deps) => Ok(deps)
      case None => Err(DownloadFailed(p))
  }

  /** The exception a package whose `package.xml` cannot be had raises. */
  function DownloadFailed(p: Package): (r: Error)
    ensures r.BuildException? && EndsWith(r.msg, PackageXmlUrl(p))
  {
    BuildException("Failed to get package.xml at " + PackageXmlUrl(p))
  }

  /** The list of the last dependency type: every type is looked up, in order, and
      only the last lookup is kept. */
  function LastOfTypes(deps: DepMap, types: seq<string>): (r: Result<seq<string>, Error>)
    ensures |types| == 0 ==> r == Err(UnboundLocalError("d"))
    ensures r.Ok? <==> |types| > 0 && forall i :: 0 <= i < |types| ==> types[i] in deps
    ensures r.Ok? ==> r.value == deps[types[|types| - 1]]
    ensures r.Err? && |types| > 0 ==> exists i :: 0 <= i < |types| && r == Err(KeyError(types[i])) && types[i] !in deps
    decreases |types|
  {
    if |types| == 0 then Err(UnboundLocalError("d"))
    else if types[0] !in deps then Err(KeyError(types[0]))
    else if |types| == 1 then Ok(deps[types[0]])
    else
      var r := LastOfTypes(deps, types[1..]);
      assert forall i :: 1 <= i < |types| ==> types[i] == types[1..][i - 1];
      r
  }

  /** `depends1` for one package; a single type is the list of that one type. The
      package is looked up inside the loop over the types, so an empty list of types
      fails on the unassigned result before any lookup. */
  function Depends1(d: RosDistro, fetch: string -> Option<DepMap>, pkg: string, types: seq<string>): (r: Result<seq<string>, Error>)
    ensures |types| == 0 ==> r == Err(UnboundLocalError("d"))
    ensures |types| > 0 && pkg !in d.packages ==> r == Err(KeyError(pkg))
    ensures r.Ok? <==> |types| > 0 && pkg in d.packages && GetDependencies(d.packages[pkg], fetch).Ok? &&
                       forall i :: 0 <= i < |types| ==> types[i] in GetDependencies(d.packages[pkg], fetch).value
    ensures r.Ok? ==> r.value == GetDependencies(d.packages[pkg], fetch).value[types[|types| - 1]]
  {
    if |types| == 0 then Err(UnboundLocalError("d"))
    else if pkg !in d.packages then Err(KeyError(pkg))
    else match GetDependencies(d.packages[pkg], fetch)
      case Err(e) => Err(e)
      case Ok(deps) => LastOfTypes(deps, types)
  }

  /** `depends1` for a list of packages: one result per package. */
  function Depends1Each(d: RosDistro, fetch: string -> Option<DepMap>, pkgs: seq<string>, types: seq<string>)
    : (r: Result<seq<seq<string>>, Error>)
    ensures r.Ok? <==> forall i :: 0 <= i < |pkgs| ==> Depends1(d, fetch, pkgs[i], types).Ok?
    ensures r.Ok? ==> |r.value| == |pkgs| && forall i :: 0 <= i < |pkgs| ==> r.value[i] == Depends1(d, fetch, pkgs[i], types).value
    decreases |pkgs|
  {
    if |pkgs| == 0 then Ok([])
    else
      var rest := Depends1Each(d, fetch, pkgs[1..], types);
      assert forall i :: 1 <= i < |pkgs| ==> pkgs[i] == pkgs[1..][i - 1];
      match Depends1(d, fetch, pkgs[0], types)
      case Err(e) => Err(e)
      case Ok(first) => if rest.Err? then rest else Ok([first] + rest.value)
  }

  /** Some dependency list of the given types names `pkg`. */
  predicate Names(deps: DepMap, types: seq<string>, pkg: string) {
    exists t :: t in types && t in deps && pkg in deps[t]
  }

  /** The dependencies of `n` can be read and have every one of the given types. */
  predicate Readable(d: RosDistro, fetch: string -> Option<DepMap>, n: string, types: seq<string>) {
    n in d.packages && GetDependencies(d.packages[n], fetch).Ok? &&
    forall t :: t in types ==> t in GetDependencies(d.packages[n], fetch).value
  }

  /** The inner loop of `depends_on1`: `name` once for every type whose list holds
      `pkg`; a type the package lacks raises `KeyError`. */
  function TypesNaming(deps: DepMap, types: seq<string>, pkg: string, name: string): (r: Result<seq<string>, Error>)
    ensures r.Ok? <==> forall t :: t in types ==> t in deps
    ensures r.Ok? ==> forall n :: n in r.value ==> n == name
    ensures r.Ok? ==> (name in r.value <==> Names(deps, types, pkg))
    ensures r.Err? ==> r.error.KeyError? && r.error.key in types && r.error.key !in deps
    decreases |types|
  {
    if |types| == 0 then Ok([])
    else if types[0] !in deps then Err(KeyError(types[0]))
    else
      var rest := TypesNaming(deps, types[1..], pkg, name);
      assert forall t :: t in types <==> t == types[0] || t in types[1..];
      assert Names(deps, types, pkg) <==> pkg in deps[types[0]] || Names(deps, types[1..], pkg);
      if rest.Err? then rest
      else if pkg in deps[types[0]] then Ok([name] + rest.value) else rest
  }

  /** The loop of `depends_on1` over the packages in the dictionary's order. */
  function DependsOnEach(d: RosDistro, fetch: string -> Option<DepMap>, order: seq<string>, pkg: string, types: seq<string>)
    : (r: Result<seq<string>, Error>)
    requires Seqs.Distinct(order) && forall n :: n in order ==> n in d.packages
    ensures |types| == 0 ==> r == Ok([])
    ensures |types| > 0 ==> (r.Ok? <==> forall i :: 0 <= i < |order| ==> Readable(d, fetch, order[i], types))
    ensures r.Ok? && |types| > 0 ==>
              forall n :: n in r.value <==> n in order && Names(GetDependencies(d.packages[n], fetch).value, types, pkg)
    decreases |order|
  {
    if |order| == 0 || |types| == 0 then Ok([])
    else
      var n := order[0];
      match GetDependencies(d.packages[n], fetch)
      case Err(e) => Err(e)
      case Ok(deps) =>
        match TypesNaming(deps, types, pkg, n)
        case Err(e) => Err(e)
        case Ok(hits) =>
          var rest := DependsOnEach(d, fetch, order[1..], pkg, types);
          assert forall i :: 1 <= i < |order| ==> order[i] == order[1..][i - 1];
          assert forall m :: m in order <==> m == n || m in order[1..];
          assert n !in order[1..] by {
            forall i | 0 <= i < |order[1..]| ensures order[1..][i] != n {
              assert order[1..][i] == order[i + 1];
            }
          }
          if rest.Err? then rest else Ok(hits + rest.value)
  }

  /** `depends_on1` for one package: the packages, in the dictionary's order
      `order`, whose dependency list of some type names `pkg`, once per such type.
      A package's dependencies are read inside the loop over the types, so with no
      types nothing is read and nothing is found; otherwise any unreadable package
      fails it. */
  function DependsOn1(d: RosDistro, fetch: string -> Option<DepMap>, order: seq<string>, pkg: string, types: seq<string>)
    : (r: Result<seq<string>, Error>)
    requires Seqs.Distinct(order) && forall n :: n in order <==> n in d.packages
    ensures |types| == 0 ==> r == Ok([])
    ensures |types| > 0 ==> (r.Ok? <==> forall n :: n in d.packages ==> Readable(d, fetch, n, types))
    ensures r.Ok? && |types| > 0 ==>
              forall n :: n in r.value <==> n in d.packages && Names(GetDependencies(d.packages[n], fetch).value, types, pkg)
  {
    var r := DependsOnEach(d, fetch, order, pkg, types);
    assert (forall n :: n in d.packages ==> Readable(d, fetch, n, types)) <==>
           (forall i :: 0 <= i < |order| ==> Readable(d, fetch, order[i], types)) by {
      if forall i :: 0 <= i < |order| ==> Readable(d, fetch, order[i], types) {
        forall n | n in d.packages ensures Readable(d, fetch, n, types) {
          var i :| 0 <= i < |order| && order[i] == n;
        }
      }
    }
    r
  }

  // ---------------------------------------------------------------------------
  // The memo of get_dependencies

  /** What `RosDistroPackage.depends1` holds once it is set: a dependency
      dictionary, or the string "Failure" that a failed download leaves behind. */
  datatype Held = Dict(deps: DepMap) | FailureText

  /** Python truth of `depends1`: `None` and an empty dictionary are false. */
  predicate Truthy(h: Option<Held>) {
    h.Some? && (h.value.Dict? ==> h.value.deps != map[])
  }

  /** `depends1` as the constructor sets it: true exactly for a package built
      without a version. */
  function InitialHeld(p: Package): (r: Option<Held>)
    ensures Truthy(r) <==> p.preseeded
  {
    assert "build" in EmptyDeps;
    if p.preseeded then Some(Dict(EmptyDeps)) else None
  }

  /** `get_dependencies` with its memo: the value returned and the memo after the
      call. A true memo is returned without a download, even the string "Failure";
      otherwise the downloaded dictionary is stored and returned, and a failed
      download stores "Failure" and raises. */
  function GetDependenciesHeld(p: Package, held: Option<Held>, fetch: string -> Option<DepMap>)
    : (r: (Result<Held, Error>, Option<Held>))
    ensures Truthy(held) ==> r == (Ok(held.value), held)
    ensures !Truthy(held) ==> (r.0.Ok? <==> fetch(p.name).Some?) &&
                              (r.0.Ok? ==> r.0.value == Dict(fetch(p.name).value)) &&
                              (r.0.Err? ==> r == (Err(DownloadFailed(p)), Some(FailureText)))
    ensures r.0.Ok? ==> r.1 == Some(r.0.value)
    ensures held == InitialHeld(p) ==>
              (r.0.Ok? <==> GetDependencies(p, fetch).Ok?) &&
              (r.0.Ok? ==> r.0.value == Dict(GetDependencies(p, fetch).value)) &&
              (r.0.Err? ==> r.0.error == GetDependencies(p, fetch).error)
  {
    if Truthy(held) then (Ok(held.value), held)
    else match fetch(p.name)
      case Some(deps) => (Ok(Dict(deps)), Some(Dict(deps)))
      case None => (Err(DownloadFailed(p)), Some(FailureText))
  }

  /** The memo a successful call leaves answers the next call the same way, with
      the same downloads. */
  lemma AnswerKept(p: Package, held: Option<Held>, fetch: string -> Option<DepMap>)
    ensures var got := GetDependenciesHeld(p, held, fetch);
            got.0.Ok? ==> GetDependenciesHeld(p, got.1, fetch) == got
  {
  }

  /** Indexing a string with a string. */
  const StringIndices := TypeError("string indices must be integers")

  /** `get_dependencies()[dt]`: the dictionary's list of that type, `KeyError` when
      it has none; on the string "Failure" it raises `TypeError`. */
  function TypeList(h: Held, t: string): (r: Result<seq<string>, Error>)
    ensures h.FailureText? ==> r == Err(StringIndices)
    ensures h.Dict? ==> (r.Ok? <==> t in h.deps) && (r.Ok? ==> r.value == h.deps[t]) &&
                        (r.Err? ==> r.error == KeyError(t))
  {
    match h
    case FailureText => Err(StringIndices)
    case Dict(deps) => if t in deps then Ok(deps[t]) else Err(KeyError(t))
  }

  /** The list of the last type read from a held value: `LastOfTypes` on a
      dictionary; on "Failure", `TypeError` as soon as there is a type. */
  function LastOfHeld(h: Held, types: seq<string>): Result<seq<string>, Error> {
    if h.Dict? then LastOfTypes(h.deps, types)
    else if |types| == 0 then Err(UnboundLocalError("d"))
    else Err(StringIndices)
  }

  /** The loop of `depends1` over the types: `get_dependencies` is called again for
      every type and the list of the last type is kept; `last` is the list of the
      type before. */
  function Depends1Loop(p: Package, held: Option<Held>, fetch: string -> Option<DepMap>, types: seq<string>,
                        last: Option<seq<string>>): (r: (Result<seq<string>, Error>, Option<Held>))
    decreases |types|
  {
    if |types| == 0 then (if last.Some? then Ok(last.value) else Err(UnboundLocalError("d")), held)
    else
      var got := GetDependenciesHeld(p, held, fetch);
      if got.0.Err? then (Err(got.0.error), got.1)
      else match TypeList(got.0.value, types[0])
        case Err(e) => (Err(e), got.1)
        case Ok(v) => Depends1Loop(p, got.1, fetch, types[1..], Some(v))
  }

  /** From a memo that answers itself, the loop reads every type from it and leaves
      it as it is. */
  lemma {:induction false} LoopOnKept(p: Package, h: Held, fetch: string -> Option<DepMap>, types: seq<string>,
                                      last: Option<seq<string>>)
    requires GetDependenciesHeld(p, Some(h), fetch) == (Ok(h), Some(h))
    ensures var r := Depends1Loop(p, Some(h), fetch, types, last);
            r.1 == Some(h) && (|types| > 0 ==> r.0 == LastOfHeld(h, types))
    decreases |types|
  {
    if |types| > 0 {
      match TypeList(h, types[0])
      case Err(_) =>
      case Ok(v) => LoopOnKept(p, h, fetch, types[1..], Some(v));
    }
  }

  /** The loop from any memo: the first call's failure, or every type read from the
      value it returns, which the memo then holds. */
  lemma LoopFromAny(p: Package, held: Option<Held>, fetch: string -> Option<DepMap>, types: seq<string>)
    requires |types| > 0
    ensures var got := GetDependenciesHeld(p, held, fetch);
            var r := Depends1Loop(p, held, fetch, types, None);
            r.1 == got.1 && r.0 == (if got.0.Err? then Err(got.0.error) else LastOfHeld(got.0.value, types))
  {
    var got := GetDependenciesHeld(p, held, fetch);
    if got.0.Ok? {
      AnswerKept(p, held, fetch);
      match TypeList(got.0.value, types[0])
      case Err(_) =>
      case Ok(v) => LoopOnKept(p, got.0.value, fetch, types[1..], Some(v));
    }
  }

  /** The memos of the packages a session has read; a package not in the map still
      holds what its constructor set. */
  type Memos = map<string, Option<Held>>

  function HeldOf(d: RosDistro, memos: Memos, n: string): Option<Held>
    requires n in d.packages
  {
    if n in memos then memos[n] else InitialHeld(d.packages[n])
  }

  /** `depends1` for one package, with the memos before and after the call. On
      packages not read before it is `Depends1`; a package whose download failed
      holds "Failure", which the next call indexes and fails on with `TypeError`;
      a successful call leaves the dictionary it read, which answers the next. */
  function Depends1Held(d: RosDistro, memos: Memos, fetch: string -> Option<DepMap>, pkg: string, types: seq<string>)
    : (r: (Result<seq<string>, Error>, Memos))
    ensures forall n :: n != pkg ==> (n in r.1 <==> n in memos) && (n in memos ==> r.1[n] == memos[n])
    ensures pkg !in memos ==> r.0 == Depends1(d, fetch, pkg, types)
    ensures |types| > 0 && pkg in d.packages && HeldOf(d, memos, pkg) == Some(FailureText) ==>
              r.0 == Err(StringIndices) && HeldOf(d, r.1, pkg) == Some(FailureText)
    ensures |types| > 0 && pkg in d.packages && Truthy(HeldOf(d, memos, pkg)) ==>
              HeldOf(d, r.1, pkg) == HeldOf(d, memos, pkg) && r.0 == LastOfHeld(HeldOf(d, memos, pkg).value, types)
    ensures r.0.Err? && r.0.error.BuildException? ==> pkg in d.packages && HeldOf(d, r.1, pkg) == Some(FailureText)
    ensures r.0.Ok? ==> pkg in d.packages && Truthy(HeldOf(d, r.1, pkg)) && HeldOf(d, r.1, pkg).value.Dict? &&
                        r.0 == LastOfTypes(HeldOf(d, r.1, pkg).value.deps, types)
  {
    if |types| == 0 then (Err(UnboundLocalError("d")), memos)
    else if pkg !in d.packages then (Err(KeyError(pkg)), memos)
    else
      var p := d.packages[pkg];
      var held := HeldOf(d, memos, pkg);
      LoopFromAny(p, held, fetch, types);
      var loop := Depends1Loop(p, held, fetch, types, None);
      assert loop.0.Ok? ==> types[0] in loop.1.value.deps;
      (loop.0, memos[pkg := loop.1])
  }

  /** After a failed download, the next `depends1` of that package, with any types
      and whatever the server answers then, fails with `TypeError` on the stored
      "Failure" rather than downloading again. */
  lemma Depends1AfterFailure(d: RosDistro, memos: Memos, fetch: string -> Option<DepMap>, fetch2: string -> Option<DepMap>,
                             pkg: string, types: seq<string>, types2: seq<string>)
    requires pkg in d.packages && pkg !in memos && |types| > 0 && |types2| > 0
    requires !d.packages[pkg].preseeded && fetch(d.packages[pkg].name).None?
    ensures var first := Depends1Held(d, memos, fetch, pkg, types);
            first.0 == Depends1(d, fetch, pkg, types) == Err(DownloadFailed(d.packages[pkg])) &&
            Depends1Held(d, first.1, fetch2, pkg, types2).0 == Err(StringIndices)
  {
  }

  /** A successful `depends1` is answered again from the memo, whatever the server
      answers then. */
  lemma Depends1Remembers(d: RosDistro, memos: Memos, fetch: string -> Option<DepMap>, fetch2: string -> Option<DepMap>,
                          pkg: string, types: seq<string>)
    requires Depends1Held(d, memos, fetch, pkg, types).0.Ok?
    ensures var first := Depends1Held(d, memos, fetch, pkg, types);
            var second := Depends1Held(d, first.1, fetch2, pkg, types);
            second.0 == first.0 && HeldOf(d, second.1, pkg) == HeldOf(d, first.1, pkg)
  {
  }

  /** The inner loop of `depends_on1` for the package `name`: `get_dependencies` is
      called again for every type, and `name` is collected once for every type whose
      list holds `pkg`. */
  function NamingLoop(p: Package, held: Option<Held>, fetch: string -> Option<DepMap>, types: seq<string>,
                      pkg: string, name: string): (r: (Result<seq<string>, Error>, Option<Held>))
    decreases |types|
  {
    if |types| == 0 then (Ok([]), held)
    else
      var got := GetDependenciesHeld(p, held, fetch);
      if got.0.Err? then (Err(got.0.error), got.1)
      else match TypeList(got.0.value, types[0])
        case Err(e) => (Err(e), got.1)
        case Ok(v) =>
          var rest := NamingLoop(p, got.1, fetch, types[1..], pkg, name);
          if rest.0.Err? then rest
          else (if pkg in v then Ok([name] + rest.0.value) else rest.0, rest.1)
  }

  /** What the inner loop collects from a held value: `TypesNaming` on a
      dictionary; on "Failure", `TypeError` as soon as there is a type. */
  function NamingOfHeld(h: Held, types: seq<string>, pkg: string, name: string): Result<seq<string>, Error> {
    if h.Dict? then TypesNaming(h.deps, types, pkg, name)
    else if |types| == 0 then Ok([])
    else Err(StringIndices)
  }

  /** From a memo that answers itself, the inner loop reads every type from it and
      leaves it as it is. */
  lemma {:induction false} NamingOnKept(p: Package, h: Held, fetch: string -> Option<DepMap>, types: seq<string>,
                                        pkg: string, name: string)
    requires GetDependenciesHeld(p, Some(h), fetch) == (Ok(h), Some(h))
    ensures var r := NamingLoop(p, Some(h), fetch, types, pkg, name);
            r.1 == Some(h) && r.0 == NamingOfHeld(h, types, pkg, name)
    decreases |types|
  {
    if |types| > 0 {
      NamingOnKept(p, h, fetch, types[1..], pkg, name);
    }
  }

  /** The inner loop from any memo: the first call's failure, or every type read
      from the value it returns, which the memo then holds. */
  lemma NamingFromAny(p: Package, held: Option<Held>, fetch: string -> Option<DepMap>, types: seq<string>,
                      pkg: string, name: string)
    requires |types| > 0
    ensures var got := GetDependenciesHeld(p, held, fetch);
            var r := NamingLoop(p, held, fetch, types, pkg, name);
            r.1 == got.1 && r.0 == (if got.0.Err? then Err(got.0.error) else NamingOfHeld(got.0.value, types, pkg, name))
    ensures var r := NamingLoop(p, held, fetch, types, pkg, name);
            (held == Some(FailureText) ==> r.0 == Err(StringIndices)) &&
            (r.0.Err? && r.0.error.TypeError? ==> held == Some(FailureText)) &&
            (r.0.Ok? ==> r.1 != Some(FailureText))
  {
    var got := GetDependenciesHeld(p, held, fetch);
    if got.0.Ok? {
      AnswerKept(p, held, fetch);
      NamingOnKept(p, got.0.value, fetch, types[1..], pkg, name);
    }
  }

  /** The loop of `depends_on1` over the packages in the dictionary's order, with
      the memos before and after. On packages not read before it is
      `DependsOnEach`; it fails whenever one of the packages holds "Failure", and
      its `TypeError` comes only from such a package. */
  function DependsOnEachHeld(d: RosDistro, memos: Memos, fetch: string -> Option<DepMap>, order: seq<string>,
                             pkg: string, types: seq<string>): (r: (Result<seq<string>, Error>, Memos))
    requires forall n :: n in order ==> n in d.packages
    ensures forall n :: n !in order ==> (n in r.1 <==> n in memos) && (n in memos ==> r.1[n] == memos[n])
    ensures Seqs.Distinct(order) && (forall n :: n in order ==> n !in memos) ==>
              r.0 == DependsOnEach(d, fetch, order, pkg, types)
    ensures |types| > 0 && (exists n :: n in order && HeldOf(d, memos, n) == Some(FailureText)) ==> r.0.Err?
    ensures r.0.Err? && r.0.error.TypeError? ==> exists n :: n in order && HeldOf(d, memos, n) == Some(FailureText)
    decreases |order|
  {
    if |order| == 0 || |types| == 0 then (Ok([]), memos)
    else
      var n := order[0];
      var held := HeldOf(d, memos, n);
      NamingFromAny(d.packages[n], held, fetch, types, pkg, n);
      var hits := NamingLoop(d.packages[n], held, fetch, types, pkg, n);
      var memos1 := memos[n := hits.1];
      OrderTail(order);
      if hits.0.Err? then (Err(hits.0.error), memos1)
      else
        var rest := DependsOnEachHeld(d, memos1, fetch, order[1..], pkg, types);
        if rest.0.Err? then rest else (Ok(hits.0.value + rest.0.value), rest.1)
  }

  /** The names after the first: all of them are in the order, and without
      repetitions the first is not among them. */
  lemma OrderTail(order: seq<string>)
    requires |order| > 0
    ensures forall m :: m in order <==> m == order[0] || m in order[1..]
    ensures Seqs.Distinct(order) ==> Seqs.Distinct(order[1..]) && order[0] !in order[1..]
  {
    if Seqs.Distinct(order) {
      forall i | 0 <= i < |order[1..]| ensures order[1..][i] != order[0] {
        assert order[1..][i] == order[i + 1];
      }
    }
  }

  /** After a failed download of package `q`, a later `depends_on1` over a
      dictionary that holds `q` fails, whatever the server answers then. */
  lemma DependsOnAfterFailure(d: RosDistro, memos: Memos, fetch: string -> Option<DepMap>, fetch2: string -> Option<DepMap>,
                              q: string, types: seq<string>, order: seq<string>, pkg: string, types2: seq<string>)
    requires forall n :: n in order ==> n in d.packages
    requires q in order && |types2| > 0
    requires Depends1Held(d, memos, fetch, q, types).0 == Err(DownloadFailed(d.packages[q]))
    ensures DependsOnEachHeld(d, Depends1Held(d, memos, fetch, q, types).1, fetch2, order, pkg, types2).0.Err?
  {
  }

  // ---------------------------------------------------------------------------
  // depends, depends_on: a depth-first closure with an explicit accumulator

  /** One step of a walk: the direct neighbours of a package, or the error raised
      while finding them. */
  type Step = string -> Result<seq<string>, Error>

  /** `a` is the first part of `b`. */
  predicate IsPrefix(a: seq<string>, b: seq<string>) {
    |a| <= |b| && b[..|a|] == a
  }

  lemma PrefixTrans(a: seq<string>, b: seq<string>, c: seq<string>)
    requires IsPrefix(a, b) && IsPrefix(b, c)
    ensures IsPrefix(a, c)
  {
    assert c[..|b|][..|a|] == c[..|a|];
  }

  /** The known packages not yet collected: the measure of the walk. */
  function Remaining(known: set<string>, res: seq<string>): nat {
    |set x | x in known && x !in res|
  }

  lemma PrefixRemaining(known: set<string>, a: seq<string>, b: seq<string>)
    requires IsPrefix(a, b)
    ensures Remaining(known, b) <= Remaining(known, a)
  {
    forall x | x in a ensures x in b {
      var k :| 0 <= k < |a| && a[k] == x;
      assert b[k] == x;
    }
    var after := set x | x in known && x !in b;
    var before := set x | x in known && x !in a;
    assert before == after + (before - after);
  }

  lemma RemainingAdd(known: set<string>, res: seq<string>, x: string)
    requires x in known && x !in res
    ensures Remaining(known, res + [x]) < Remaining(known, res)
  {
    var after := set y | y in known && y !in res + [x];
    var before := set y | y in known && y !in res;
    assert after == before - {x};
  }

  /** The walk from one package: each neighbour that is a known package and not yet
      collected is appended and walked from in turn (`depends` and `depends_on` for
      a single package, with `res` the accumulator). */
  function Walk(known: set<string>, step: Step, pkg: string, res: seq<string>): (r: Result<seq<string>, Error>)
    ensures r.Ok? ==> IsPrefix(res, r.value)
    decreases Remaining(known, res), 1, 0
  {
    match step(pkg)
    case Err(e) => Err(e)
    case Ok(ns) => WalkEach(known, step, ns, 0, res)
  }

  /** The loop over the neighbours `ns` from position `i`. */
  function WalkEach(known: set<string>, step: Step, ns: seq<string>, i: nat, res: seq<string>): (r: Result<seq<string>, Error>)
    ensures r.Ok? ==> IsPrefix(res, r.value)
    decreases Remaining(known, res), 0, |ns| - i
  {
    if i >= |ns| then Ok(res)
    else if ns[i] in known && ns[i] !in res then
      RemainingAdd(known, res, ns[i]);
      var w := Walk(known, step, ns[i], res + [ns[i]]);
      if w.Err? then w
      else
        PrefixTrans(res, res + [ns[i]], w.value);
        PrefixRemaining(known, res + [ns[i]], w.value);
        var r := WalkEach(known, step, ns, i + 1, w.value);
        if r.Ok? then PrefixTrans(res, w.value, r.value); r else r
    else WalkEach(known, step, ns, i + 1, res)
  }

  /** The walk from each of several packages in turn, sharing the accumulator
      (`depends`/`depends_on` given a list). */
  function WalkAll(known: set<string>, step: Step, pkgs: seq<string>, res: seq<string>): (r: Result<seq<string>, Error>)
    ensures r.Ok? ==> IsPrefix(res, r.value)
    decreases |pkgs|
  {
    if |pkgs| == 0 then Ok(res)
    else
      var w := Walk(known, step, pkgs[0], res);
      if w.Err? then w
      else
        var r := WalkAll(known, step, pkgs[1..], w.value);
        if r.Ok? then PrefixTrans(res, w.value, r.value); r else r
  }

  /** What the walk appends: known packages, each not collected before. */
  predicate FreshFrom(known: set<string>, res: seq<string>, from: nat) {
    forall k :: from <= k < |res| ==> res[k] in known && res[k] !in res[..k]
  }

  lemma FreshTrans(known: set<string>, a: seq<string>, b: seq<string>, c: seq<string>)
    requires IsPrefix(a, b) && IsPrefix(b, c)
    requires FreshFrom(known, b, |a|) && FreshFrom(known, c, |b|)
    ensures FreshFrom(known, c, |a|)
  {
    forall k | |a| <= k < |c| ensures c[k] in known && c[k] !in c[..k] {
      if k < |b| {
        assert c[..k] == b[..k];
        assert c[k] == b[k];
      }
    }
  }

  lemma {:induction false} WalkFresh(known: set<string>, step: Step, pkg: string, res: seq<string>)
    ensures var r := Walk(known, step, pkg, res); r.Ok? ==> FreshFrom(known, r.value, |res|)
    decreases Remaining(known, res), 1, 0
  {
    if step(pkg).Ok? {
      WalkEachFresh(known, step, step(pkg).value, 0, res);
    }
  }

  lemma {:induction false} WalkEachFresh(known: set<string>, step: Step, ns: seq<string>, i: nat, res: seq<string>)
    ensures var r := WalkEach(known, step, ns, i, res); r.Ok? ==> FreshFrom(known, r.value, |res|)
    decreases Remaining(known, res), 0, |ns| - i
  {
    if i < |ns| {
      if ns[i] in known && ns[i] !in res {
        var res0 := res + [ns[i]];
        RemainingAdd(known, res, ns[i]);
        var w := Walk(known, step, ns[i], res0);
        if w.Ok? {
          WalkFresh(known, step, ns[i], res0);
          PrefixRemaining(known, res0, w.value);
          WalkEachFresh(known, step, ns, i + 1, w.value);
          var r := WalkEach(known, step, ns, i + 1, w.value);
          if r.Ok? {
            assert res0[..|res|] == res;
            assert FreshFrom(known, res0, |res|);
            FreshTrans(known, res, res0, w.value);
            FreshTrans(known, res, w.value, r.value);
          }
        }
      } else {
        WalkEachFresh(known, step, ns, i + 1, res);
      }
    }
  }

  /** The walk adds no duplicates to a duplicate-free accumulator, and only known
      packages. */
  lemma WalkDistinct(known: set<string>, step: Step, pkg: string, res: seq<string>)
    requires Seqs.Distinct(res)
    ensures var r := Walk(known, step, pkg, res);
            r.Ok? ==> Seqs.Distinct(r.value) && forall k :: |res| <= k < |r.value| ==> r.value[k] in known
  {
    var r := Walk(known, step, pkg, res);
    if r.Ok? {
      WalkFresh(known, step, pkg, res);
      forall i, j | 0 <= i < j < |r.value| ensures r.value[i] != r.value[j] {
        if j >= |res| {
          assert r.value[i] in r.value[..j];
        } else {
          assert r.value[i] == res[i] && r.value[j] == res[j];
        }
      }
    }
  }

  /** Every package appended from position `from` on has a step whose known
      neighbours are all collected. */
  ghost predicate ClosedFrom(known: set<string>, step: Step, res: seq<string>, from: nat) {
    forall k :: from <= k < |res| ==>
      step(res[k]).Ok? && forall n :: n in step(res[k]).value && n in known ==> n in res
  }

  lemma ClosedTrans(known: set<string>, step: Step, a: seq<string>, b: seq<string>, c: seq<string>)
    requires IsPrefix(a, b) && IsPrefix(b, c)
    requires ClosedFrom(known, step, b, |a|) && ClosedFrom(known, step, c, |b|)
    ensures ClosedFrom(known, step, c, |a|)
  {
    forall k | |a| <= k < |b|
      ensures step(c[k]).Ok? && forall n :: n in step(c[k]).value && n in known ==> n in c
    {
      assert c[k] == b[k];
      forall n | n in b ensures n in c {
        var j :| 0 <= j < |b| && b[j] == n;
        assert c[j] == n;
      }
    }
  }

  /** The walk from a package collects the package's known neighbours, and every
      package it appends has its known neighbours collected too: the result is
      closed under the step from the old accumulator's end on. */
  lemma {:induction false} WalkClosed(known: set<string>, step: Step, pkg: string, res: seq<string>)
    ensures var r := Walk(known, step, pkg, res);
            r.Ok? ==> step(pkg).Ok? && ClosedFrom(known, step, r.value, |res|) &&
                      forall n :: n in step(pkg).value && n in known ==> n in r.value
    decreases Remaining(known, res), 1, 0
  {
    if step(pkg).Ok? {
      var ns := step(pkg).value;
      WalkEachClosed(known, step, ns, 0, res);
      var r := Walk(known, step, pkg, res);
      if r.Ok? {
        forall n | n in ns && n in known ensures n in r.value {
          var j :| 0 <= j < |ns| && ns[j] == n;
        }
      }
    }
  }

  lemma {:induction false} WalkEachClosed(known: set<string>, step: Step, ns: seq<string>, i: nat, res: seq<string>)
    ensures var r := WalkEach(known, step, ns, i, res);
            r.Ok? ==> ClosedFrom(known, step, r.value, |res|) &&
                      forall j :: i <= j < |ns| && ns[j] in known ==> ns[j] in r.value
    decreases Remaining(known, res), 0, |ns| - i
  {
    if i < |ns| {
      if ns[i] in known && ns[i] !in res {
        var res0 := res + [ns[i]];
        RemainingAdd(known, res, ns[i]);
        var w := Walk(known, step, ns[i], res0);
        if w.Ok? {
          WalkClosed(known, step, ns[i], res0);
          PrefixRemaining(known, res0, w.value);
          WalkEachClosed(known, step, ns, i + 1, w.value);
          var r := WalkEach(known, step, ns, i + 1, w.value);
          if r.Ok? {
            WalkEachStep(known, step, ns, i, res, w.value, r.value);
          }
        }
      } else {
        WalkEachClosed(known, step, ns, i + 1, res);
        var r := WalkEach(known, step, ns, i + 1, res);
        if r.Ok? && ns[i] in known {
          PrefixHas(res, r.value, ns[i]);
        }
      }
    }
  }

  lemma PrefixHas(a: seq<string>, b: seq<string>, x: string)
    requires IsPrefix(a, b) && x in a
    ensures x in b
  {
    var k :| 0 <= k < |a| && a[k] == x;
    assert b[k] == x;
  }

  /** The step of `WalkEachClosed` that walks from a new neighbour `ns[i]`. */
  lemma WalkEachStep(known: set<string>, step: Step, ns: seq<string>, i: nat, res: seq<string>, w: seq<string>, r: seq<string>)
    requires i < |ns| && ns[i] in known && ns[i] !in res
    requires IsPrefix(res + [ns[i]], w) && IsPrefix(w, r)
    requires step(ns[i]).Ok? && ClosedFrom(known, step, w, |res| + 1)
    requires forall n :: n in step(ns[i]).value && n in known ==> n in w
    requires ClosedFrom(known, step, r, |w|) && forall j :: i + 1 <= j < |ns| && ns[j] in known ==> ns[j] in r
    ensures ClosedFrom(known, step, r, |res|) && forall j :: i <= j < |ns| && ns[j] in known ==> ns[j] in r
  {
    var res0 := res + [ns[i]];
    assert w[|res|] == ns[i];
    assert ClosedFrom(known, step, w, |res|) by {
      forall n | n in step(ns[i]).value && n in known ensures n in w { }
    }
    PrefixTrans(res, res0, w);
    ClosedTrans(known, step, res, w, r);
    assert r[|res|] == ns[i];
  }

  /** Every package appended from position `from` on is a neighbour of a root or of
      a package appended before it: it was reached from the roots. */
  ghost predicate Parented(step: Step, r: seq<string>, from: nat, roots: set<string>) {
    forall k :: from <= k < |r| ==> HasParent(step, r, from, roots, k)
  }

  /** `r[k]` is a neighbour of a root or of a package appended before it. */
  ghost predicate HasParent(step: Step, r: seq<string>, from: nat, roots: set<string>, k: nat)
    requires from <= k < |r|
  {
    exists p :: (p in roots || p in r[from..k]) && step(p).Ok? && r[k] in step(p).value
  }

  /** Joins the parents of two consecutive stretches of a result. */
  lemma ParentedJoin(step: Step, w: seq<string>, r: seq<string>, from: nat, roots: set<string>, roots': set<string>, all: set<string>)
    requires from <= |w| && IsPrefix(w, r) && roots <= all && roots' <= all
    requires Parented(step, w, from, roots) && Parented(step, r, |w|, roots')
    ensures Parented(step, r, from, all)
  {
    forall k | from <= k < |r|
      ensures HasParent(step, r, from, all, k)
    {
      if k < |w| {
        assert HasParent(step, w, from, roots, k);
        var p :| (p in roots || p in w[from..k]) && step(p).Ok? && w[k] in step(p).value;
        assert w[from..k] == r[from..k] && w[k] == r[k];
        assert (p in all || p in r[from..k]) && step(p).Ok? && r[k] in step(p).value;
      } else {
        assert HasParent(step, r, |w|, roots', k);
        var p :| (p in roots' || p in r[|w|..k]) && step(p).Ok? && r[k] in step(p).value;
        if p in r[|w|..k] {
          var j :| 0 <= j < |r[|w|..k]| && r[|w|..k][j] == p;
          assert r[from..k][j + |w| - from] == p;
        }
        assert (p in all || p in r[from..k]) && step(p).Ok? && r[k] in step(p).value;
      }
    }
  }

  /** A stretch reached from one new package, which was itself reached from `pkg`, is
      reached from `pkg`. */
  lemma ParentedNest(step: Step, res: seq<string>, x: string, w: seq<string>, pkg: string)
    requires IsPrefix(res + [x], w) && step(pkg).Ok? && x in step(pkg).value
    requires Parented(step, w, |res| + 1, {x})
    ensures Parented(step, w, |res|, {pkg})
  {
    assert w[|res|] == x;
    forall k | |res| <= k < |w|
      ensures HasParent(step, w, |res|, {pkg}, k)
    {
      if k == |res| {
        assert pkg in {pkg};
      } else {
        assert HasParent(step, w, |res| + 1, {x}, k);
        var p :| (p in {x} || p in w[|res| + 1..k]) && step(p).Ok? && w[k] in step(p).value;
        if p == x {
          assert w[|res|..k][0] == x;
        } else {
          var j :| 0 <= j < |w[|res| + 1..k]| && w[|res| + 1..k][j] == p;
          assert w[|res|..k][j + 1] == p;
        }
      }
    }
  }

  lemma {:induction false} WalkParented(known: set<string>, step: Step, pkg: string, res: seq<string>)
    ensures var r := Walk(known, step, pkg, res); r.Ok? ==> Parented(step, r.value, |res|, {pkg})
    decreases Remaining(known, res), 1, 0
  {
    if step(pkg).Ok? {
      WalkEachParented(known, step, pkg, step(pkg).value, 0, res);
    }
  }

  lemma {:induction false} WalkEachParented(known: set<string>, step: Step, pkg: string, ns: seq<string>, i: nat, res: seq<string>)
    requires step(pkg) == Ok(ns)
    ensures var r := WalkEach(known, step, ns, i, res); r.Ok? ==> Parented(step, r.value, |res|, {pkg})
    decreases Remaining(known, res), 0, |ns| - i
  {
    if i < |ns| {
      if ns[i] in known && ns[i] !in res {
        var res0 := res + [ns[i]];
        RemainingAdd(known, res, ns[i]);
        var w := Walk(known, step, ns[i], res0);
        if w.Ok? {
          WalkParented(known, step, ns[i], res0);
          PrefixRemaining(known, res0, w.value);
          WalkEachParented(known, step, pkg, ns, i + 1, w.value);
          var r := WalkEach(known, step, ns, i + 1, w.value);
          if r.Ok? {
            ParentedNest(step, res, ns[i], w.value, pkg);
            ParentedJoin(step, w.value, r.value, |res|, {pkg}, {pkg}, {pkg});
          }
        }
      } else {
        WalkEachParented(known, step, pkg, ns, i + 1, res);
      }
    }
  }

  /** The walk from several packages: what it appends is reached from them, is
      closed under the step, holds their known neighbours, and repeats nothing. */
  lemma {:induction false} WalkAllSpec(known: set<string>, step: Step, pkgs: seq<string>, res: seq<string>)
    ensures var r := WalkAll(known, step, pkgs, res);
            r.Ok? ==> Parented(step, r.value, |res|, GenDistro.Elements(pkgs)) &&
                      ClosedFrom(known, step, r.value, |res|) && FreshFrom(known, r.value, |res|) &&
                      forall p :: p in pkgs ==> step(p).Ok? && forall n :: n in step(p).value && n in known ==> n in r.value
    decreases |pkgs|
  {
    if |pkgs| > 0 {
      var w := Walk(known, step, pkgs[0], res);
      if w.Ok? {
        WalkAllSpec(known, step, pkgs[1..], w.value);
        var r := WalkAll(known, step, pkgs[1..], w.value);
        if r.Ok? {
          WalkParented(known, step, pkgs[0], res);
          WalkClosed(known, step, pkgs[0], res);
          WalkFresh(known, step, pkgs[0], res);
          ParentedJoin(step, w.value, r.value, |res|, {pkgs[0]}, GenDistro.Elements(pkgs[1..]), GenDistro.Elements(pkgs));
          ClosedTrans(known, step, res, w.value, r.value);
          FreshTrans(known, res, w.value, r.value);
          forall p | p in pkgs
            ensures step(p).Ok? && forall n :: n in step(p).value && n in known ==> n in r.value
          {
            if p == pkgs[0] {
              forall n | n in step(p).value && n in known ensures n in r.value {
                PrefixHas(w.value, r.value, n);
              }
            } else {
              assert p in pkgs[1..];
            }
          }
        }
      }
    }
  }

  /** What a walk from several packages with an empty accumulator collects: known
      packages without repeats, each reached from the given ones, and every known
      neighbour of a given or collected package. */
  lemma WalkAllFromEmpty(known: set<string>, step: Step, pkgs: seq<string>)
    ensures var r := WalkAll(known, step, pkgs, []);
            r.Ok? ==> Seqs.Distinct(r.value) && (forall x :: x in r.value ==> x in known) &&
                      Parented(step, r.value, 0, GenDistro.Elements(pkgs)) &&
                      ClosedFrom(known, step, r.value, 0) &&
                      forall p :: p in pkgs ==> step(p).Ok? && forall n :: n in step(p).value && n in known ==> n in r.value
  {
    var r := WalkAll(known, step, pkgs, []);
    WalkAllSpec(known, step, pkgs, []);
    if r.Ok? {
      forall i, j | 0 <= i < j < |r.value| ensures r.value[i] != r.value[j] {
        assert r.value[i] in r.value[..j];
      }
    }
  }

  /** One step of `depends`: the `depends1` list of a package. */
  function DependsStep(d: RosDistro, fetch: string -> Option<DepMap>, types: seq<string>): (step: Step)
    ensures forall p :: step(p) == Depends1(d, fetch, p, types)
  {
    p => Depends1(d, fetch, p, types)
  }

  /** One step of `depends_on`: the `depends_on1` list of a package. */
  function DependsOnStep(d: RosDistro, fetch: string -> Option<DepMap>, order: seq<string>, types: seq<string>): (step: Step)
    requires Seqs.Distinct(order) && forall n :: n in order <==> n in d.packages
    ensures forall p :: step(p) == DependsOn1(d, fetch, order, p, types)
  {
    p => DependsOn1(d, fetch, order, p, types)
  }

  /** `depends`: the known packages reached through `depends1`, appended to `res`. */
  function Depends(d: RosDistro, fetch: string -> Option<DepMap>, pkgs: seq<string>, types: seq<string>, res: seq<string>)
    : (r: Result<seq<string>, Error>)
    ensures r.Ok? ==> IsPrefix(res, r.value)
  {
    WalkAll(d.packages.Keys, DependsStep(d, fetch, types), pkgs, res)
  }

  /** `depends_on`: the known packages reached through `depends_on1`, appended to
      `res`. */
  function DependsOn(d: RosDistro, fetch: string -> Option<DepMap>, order: seq<string>, pkgs: seq<string>, types: seq<string>,
                     res: seq<string>): (r: Result<seq<string>, Error>)
    requires Seqs.Distinct(order) && forall n :: n in order <==> n in d.packages
    ensures r.Ok? ==> IsPrefix(res, r.value)
  {
    WalkAll(d.packages.Keys, DependsOnStep(d, fetch, order, types), pkgs, res)
  }

  /** `depends` from a fresh accumulator is the closure of the given packages under
      `depends1` within the distribution: every collected package is a dependency of
      a given one or of one collected before it, no package is collected twice, and
      every dependency of a given or collected package that the distribution has is
      collected. */
  lemma DependsIsClosure(d: RosDistro, fetch: string -> Option<DepMap>, pkgs: seq<string>, types: seq<string>)
    ensures var r := Depends(d, fetch, pkgs, types, []);
            r.Ok? ==> Seqs.Distinct(r.value) && (forall x :: x in r.value ==> x in d.packages) &&
                      Parented(DependsStep(d, fetch, types), r.value, 0, GenDistro.Elements(pkgs)) &&
                      forall p :: p in pkgs || p in r.value ==>
                        Depends1(d, fetch, p, types).Ok? &&
                        forall n :: n in Depends1(d, fetch, p, types).value && n in d.packages ==> n in r.value
  {
    var step := DependsStep(d, fetch, types);
    WalkAllFromEmpty(d.packages.Keys, step, pkgs);
    var r := Depends(d, fetch, pkgs, types, []);
    if r.Ok? {
      forall p | p in r.value
        ensures Depends1(d, fetch, p, types).Ok? &&
                forall n :: n in Depends1(d, fetch, p, types).value && n in d.packages ==> n in r.value
      {
        var k :| 0 <= k < |r.value| && r.value[k] == p;
      }
    }
  }

  /** `depends_on` from a fresh accumulator is the closure of the given packages under
      `depends_on1`: every collected package depends on a given one or on one
      collected before it, no package is collected twice, and every package that
      depends on a given or collected package is collected. */
  lemma DependsOnIsClosure(d: RosDistro, fetch: string -> Option<DepMap>, order: seq<string>, pkgs: seq<string>, types: seq<string>)
    requires Seqs.Distinct(order) && forall n :: n in order <==> n in d.packages
    ensures var r := DependsOn(d, fetch, order, pkgs, types, []);
            r.Ok? ==> Seqs.Distinct(r.value) && (forall x :: x in r.value ==> x in d.packages) &&
                      Parented(DependsOnStep(d, fetch, order, types), r.value, 0, GenDistro.Elements(pkgs)) &&
                      forall p, n :: ((p in pkgs || p in r.value) && |types| > 0 && n in d.packages &&
                                      Names(GetDependencies(d.packages[n], fetch).value, types, p)) ==> n in r.value
  {
    var step := DependsOnStep(d, fetch, order, types);
    WalkAllFromEmpty(d.packages.Keys, step, pkgs);
    var r := DependsOn(d, fetch, order, pkgs, types, []);
    if r.Ok? {
      forall p, n | (p in pkgs || p in r.value) && |types| > 0 && n in d.packages &&
                    Names(GetDependencies(d.packages[n], fetch).value, types, p)
        ensures n in r.value
      {
        if p in r.value {
          var k :| 0 <= k < |r.value| && r.value[k] == p;
        }
        assert step(p).Ok?;
        assert n in step(p).value;
      }
    }
  }
  /** Top-level `depends` calls made one after another without `res`, as written:
      the default list is created once, so every call appends to the list the
      earlier calls filled, and returns it. */
  function DependsCalls(d: RosDistro, fetch: string -> Option<DepMap>, calls: seq<seq<string>>, types: seq<string>,
                        shared: seq<string>): (r: Result<seq<seq<string>>, Error>)
    ensures r.Ok? ==> |r.value| == |calls|
    ensures r.Ok? && |calls| > 0 ==> Depends(d, fetch, calls[0], types, shared) == Ok(r.value[0])
    decreases |calls|
  {
    if |calls| == 0 then Ok([])
    else match Depends(d, fetch, calls[0], types, shared)
      case Err(e) => Err(e)
      case Ok(res) =>
        match DependsCalls(d, fetch, calls[1..], types, res)
        case Err(e) => Err(e)
        case Ok(rest) => Ok([res] + rest)
  }

  /** A walk over packages without dependencies leaves the accumulator as it is. */
  lemma {:induction false} WalkAllNoSteps(known: set<string>, step: Step, pkgs: seq<string>, res: seq<string>)
    requires forall p :: p in pkgs ==> step(p) == Ok([])
    ensures WalkAll(known, step, pkgs, res) == Ok(res)
    decreases |pkgs|
  {
    if |pkgs| > 0 {
      assert Walk(known, step, pkgs[0], res) == Ok(res);
      WalkAllNoSteps(known, step, pkgs[1..], res);
    }
  }

  /** The shared default leaks one call's result into the next: a second call for
      packages without dependencies, which on its own collects nothing, returns
      everything the first call collected. */
  lemma DependsDefaultLeaks(d: RosDistro, fetch: string -> Option<DepMap>, first: seq<string>, second: seq<string>, types: seq<string>)
    requires Depends(d, fetch, first, types, []).Ok? && Depends(d, fetch, first, types, []).value != []
    requires forall p :: p in second ==> Depends1(d, fetch, p, types) == Ok([])
    ensures Depends(d, fetch, second, types, []) == Ok([])
    ensures var r := DependsCalls(d, fetch, [first, second], types, []);
            r.Ok? && r.value[1] == Depends(d, fetch, first, types, []).value && r.value[1] != []
  {
    var step := DependsStep(d, fetch, types);
    var r1 := Depends(d, fetch, first, types, []).value;
    WalkAllNoSteps(d.packages.Keys, step, second, []);
    WalkAllNoSteps(d.packages.Keys, step, second, r1);
    assert Depends(d, fetch, second, types, r1) == Ok(r1);
    assert [first, second][1..] == [second];
    assert [second][1..] == [];
    assert DependsCalls(d, fetch, [], types, r1) == Ok([]);
    assert [r1] + [] == [r1];
    assert DependsCalls(d, fetch, [second], types, r1) == Ok([r1]);
    assert Depends(d, fetch, first, types, []) == Ok(r1);
    assert [r1] + [r1] == [r1, r1];
    assert DependsCalls(d, fetch, [first, second], types, []) == Ok([r1, r1]);
  }

  // ---------------------------------------------------------------------------
  // Files on the release repository's server

  /** The URL of a file of the release repository on its server: `.git` gives way to
      the file's path, and the host to its `raw.` host over https. */
  function RawUrl(url: string, path: string): string {
    Replace(Replace(Replace(url, ".git", path), "git://", "https://"), "https://", "https://raw.")
  }

  /** Where a package's `package.xml` is read from. */
  function PackageXmlUrl(p: Package): string {
    RawUrl(p.url, "/release/" + p.name + "/" + p.version + "/package.xml")
  }

  /** Where a repository's bloom configuration is read from. */
  function BloomConfUrl(url: string): string {
    RawUrl(url, "/bloom/bloom.conf")
  }

  // ---------------------------------------------------------------------------
  // get_upstream

  const Sep := " = "
  const UpstreamKey := "\tupstream"
  const TypeKey := "\tupstreamtype"
  const VersionKey := "\tupstreamversion"

  /** The entry of the result each recognised line key sets. */
  const ConfKeys: map<string, string> := map[UpstreamKey := "url", TypeKey := "type", VersionKey := "version"]

  /** The text of a line before the first `" = "`. */
  function Key(line: string): string {
    SplitStr(line, Sep)[0]
  }

  /** One line of the bloom configuration: a recognised key sets its entry to the
      text after the first `" = "` (up to a second one); a recognised key with no
      `" = "` raises `IndexError`; any other line is skipped. */
  function ReadLine(res: map<string, string>, line: string): (r: Result<map<string, string>, Error>)
    ensures Key(line) !in ConfKeys ==> r == Ok(res)
    ensures Key(line) in ConfKeys ==>
              (r.Ok? <==> |SplitStr(line, Sep)| >= 2) &&
              (r.Ok? ==> r.value == res[ConfKeys[Key(line)] := SplitStr(line, Sep)[1]])
  {
    var conf := SplitStr(line, Sep);
    if conf[0] !in ConfKeys then Ok(res)
    else if |conf| < 2 then Err(IndexError("list index out of range"))
    else Ok(res[ConfKeys[conf[0]] := conf[1]])
  }

  /** The loop over the lines of the configuration. */
  function ReadLines(res: map<string, string>, lines: seq<string>): (r: Result<map<string, string>, Error>)
    decreases |lines|
  {
    if |lines| == 0 then Ok(res)
    else match ReadLine(res, lines[0])
      case Err(e) => Err(e)
      case Ok(res1) => ReadLines(res1, lines[1..])
  }

  /** Line `i` is the last one with the key. */
  predicate LastWithKey(lines: seq<string>, key: string, i: int) {
    0 <= i < |lines| && Key(lines[i]) == key && forall j :: i < j < |lines| ==> Key(lines[j]) != key
  }

  /** Reading fails exactly when a line with a recognised key has no `" = "`. */
  lemma {:induction false} ReadLinesFails(res: map<string, string>, lines: seq<string>)
    ensures ReadLines(res, lines).Ok? <==>
            forall i :: 0 <= i < |lines| && Key(lines[i]) in ConfKeys ==> |SplitStr(lines[i], Sep)| >= 2
    decreases |lines|
  {
    if |lines| > 0 {
      var first := ReadLine(res, lines[0]);
      assert forall i :: 1 <= i < |lines| ==> lines[i] == lines[1..][i - 1];
      if first.Ok? {
        ReadLinesFails(first.value, lines[1..]);
      }
    }
  }

  /** A read entry holds the value of the last line with its key. */
  lemma {:induction false} ReadLinesLastWins(res: map<string, string>, lines: seq<string>, key: string, i: int)
    requires key in ConfKeys && LastWithKey(lines, key, i)
    ensures var r := ReadLines(res, lines);
            r.Ok? ==> |SplitStr(lines[i], Sep)| >= 2 &&
                      ConfKeys[key] in r.value && r.value[ConfKeys[key]] == SplitStr(lines[i], Sep)[1]
    decreases |lines|
  {
    ReadLinesFails(res, lines);
    var first := ReadLine(res, lines[0]);
    if first.Ok? {
      if i > 0 {
        assert LastWithKey(lines[1..], key, i - 1) by {
          assert lines[1..][i - 1] == lines[i];
          forall j | i - 1 < j < |lines[1..]| ensures Key(lines[1..][j]) != key {
            assert lines[1..][j] == lines[j + 1];
          }
        }
        ReadLinesLastWins(first.value, lines[1..], key, i - 1);
      } else {
        assert forall j :: 0 <= j < |lines[1..]| ==> Key(lines[1..][j]) != key by {
          forall j | 0 <= j < |lines[1..]| ensures Key(lines[1..][j]) != key {
            assert lines[1..][j] == lines[j + 1];
          }
        }
        ReadLinesUnset(first.value, lines[1..], key);
      }
    }
  }

  /** An entry no line sets keeps its initial state. */
  lemma {:induction false} ReadLinesUnset(res: map<string, string>, lines: seq<string>, key: string)
    requires key in ConfKeys && forall i :: 0 <= i < |lines| ==> Key(lines[i]) != key
    ensures var r := ReadLines(res, lines);
            r.Ok? ==> (ConfKeys[key] in r.value <==> ConfKeys[key] in res) &&
                      (ConfKeys[key] in res ==> r.value[ConfKeys[key]] == res[ConfKeys[key]])
    decreases |lines|
  {
    if |lines| > 0 {
      var first := ReadLine(res, lines[0]);
      if first.Ok? {
        assert forall i :: 0 <= i < |lines[1..]| ==> Key(lines[1..][i]) != key by {
          forall i | 0 <= i < |lines[1..]| ensures Key(lines[1..][i]) != key {
            assert lines[1..][i] == lines[i + 1];
          }
        }
        ReadLinesUnset(first.value, lines[1..], key);
        assert Key(lines[0]) !in ConfKeys || ConfKeys[Key(lines[0])] != ConfKeys[key];
      }
    }
  }

  /** The upstream record from the configuration's text: the read entries, an empty
      version replaced by `master` for git and `default` for hg, and `/trunk`
      appended to an svn URL. A configuration without a type raises `KeyError`, and
      so does an svn one without a URL. */
  function UpstreamOf(text: string): (r: Result<map<string, string>, Error>)
    ensures r.Ok? ==> "type" in r.value && "version" in r.value
  {
    match ReadLines(map["version" := ""], Split(text, '\n'))
    case Err(e) => Err(e)
    case Ok(res) =>
      ReadLinesKeeps(map["version" := ""], Split(text, '\n'));
      if "type" !in res then Err(KeyError("type"))
      else
        var res1 := Defaulted(res);
        if res1["type"] != "svn" then Ok(res1)
        else if "url" !in res1 then Err(KeyError("url"))
        else Ok(res1["url" := res1["url"] + "/trunk"])
  }

  /** The version defaults: an empty version becomes `master` for git and
      `default` for hg, and the type is looked up only when the version is empty.
      No other entry changes. */
  function Defaulted(res: map<string, string>): (r: map<string, string>)
    requires "version" in res && (res["version"] == "" ==> "type" in res)
    ensures r.Keys == res.Keys && forall k :: k in res && k != "version" ==> r[k] == res[k]
    ensures res["version"] != "" ==> r == res
  {
    if res["version"] != "" then res
    else if res["type"] == "git" then res["version" := "master"]
    else if res["type"] == "hg" then res["version" := "default"]
    else res
  }

  /** Reading never removes an entry. */
  lemma {:induction false} ReadLinesKeeps(res: map<string, string>, lines: seq<string>)
    ensures ReadLines(res, lines).Ok? ==> res.Keys <= ReadLines(res, lines).value.Keys
    decreases |lines|
  {
    if |lines| > 0 && ReadLine(res, lines[0]).Ok? {
      ReadLinesKeeps(ReadLine(res, lines[0]).value, lines[1..]);
    }
  }

  /** `RosDistroRepo.get_upstream`: the configuration is read from the repository's
      server (`fetch`, absent when it cannot be read) and parsed once. */
  function GetUpstream(repo: Repo, fetch: string -> Option<string>): (r: Result<map<string, string>, Error>)
    ensures fetch(BloomConfUrl(repo.url)).None? ==> r == Err(URLError(BloomConfUrl(repo.url)))
    ensures fetch(BloomConfUrl(repo.url)).Some? ==> r == UpstreamOf(fetch(BloomConfUrl(repo.url)).value)
  {
    match fetch(BloomConfUrl(repo.url))
    case None => Err(URLError(BloomConfUrl(repo.url)))
    case Some(text) => UpstreamOf(text)
  }

  /** What `self.upstream` holds when `get_upstream` ends, having read `text`:
      nothing when it fails before the assignment (a malformed line, or an empty
      version without a type); otherwise the record with the version defaults, to
      which the svn suffix is then appended in place. The assignment comes before
      the type and svn checks, so a record without a type, or an svn record
      without a URL, is stored although the call raises. */
  function StoredUpstream(text: string): (r: Option<map<string, string>>)
    ensures r.Some? ==> "version" in r.value
    ensures UpstreamOf(text).Ok? ==> r == Some(UpstreamOf(text).value)
  {
    match ReadLines(map["version" := ""], Split(text, '\n'))
    case Err(_) => None
    case Ok(res) =>
      ReadLinesKeeps(map["version" := ""], Split(text, '\n'));
      if res["version"] == "" && "type" !in res then None
      else
        var res1 := Defaulted(res);
        if "type" in res1 && res1["type"] == "svn" && "url" in res1 then Some(res1["url" := res1["url"] + "/trunk"])
        else Some(res1)
  }

  /** A read that raises still leaves a record exactly when the lines read, and
      either the version is set but no type is, or the type is svn and no URL is
      set. */
  lemma UpstreamKeptOnFailure(text: string)
    ensures var read := ReadLines(map["version" := ""], Split(text, '\n'));
            UpstreamOf(text).Err? && StoredUpstream(text).Some? <==>
              read.Ok? && (("type" !in read.value && "version" in read.value && read.value["version"] != "") ||
                           ("type" in read.value && read.value["type"] == "svn" && "url" !in read.value))
    ensures UpstreamOf(text).Err? && StoredUpstream(text).Some? ==>
              UpstreamOf(text) == Err(KeyError("type")) || UpstreamOf(text) == Err(KeyError("url"))
  {
    ReadLinesKeeps(map["version" := ""], Split(text, '\n'));
  }

  /** `get_upstream` with its memo: the value returned and the memo after the call.
      A stored record is returned without reading the server; otherwise the
      configuration is read once, and what `StoredUpstream` keeps is stored even
      when the call raises. */
  function GetUpstreamHeld(repo: Repo, held: Option<map<string, string>>, fetch: string -> Option<string>)
    : (r: (Result<map<string, string>, Error>, Option<map<string, string>>))
    ensures held.Some? && held.value != map[] ==> r == (Ok(held.value), held)
    ensures held.None? || held.value == map[] ==> r.0 == GetUpstream(repo, fetch)
    ensures r.0.Ok? ==> r.1 == Some(r.0.value)
    ensures r.1 != held ==> fetch(BloomConfUrl(repo.url)).Some? && r.1 == StoredUpstream(fetch(BloomConfUrl(repo.url)).value)
  {
    if held.Some? && held.value != map[] then (Ok(held.value), held)
    else match fetch(BloomConfUrl(repo.url))
      case None => (Err(URLError(BloomConfUrl(repo.url))), held)
      case Some(text) => (UpstreamOf(text), if StoredUpstream(text).Some? then StoredUpstream(text) else held)
  }

  /** After a first `get_upstream` that raises but has stored its record (no type
      line, or an svn type without a URL), the next call returns that record
      without reading the server again. */
  lemma UpstreamAfterFailure(repo: Repo, fetch: string -> Option<string>, fetch2: string -> Option<string>)
    requires GetUpstreamHeld(repo, None, fetch).0.Err? && GetUpstreamHeld(repo, None, fetch).1.Some?
    ensures var first := GetUpstreamHeld(repo, None, fetch);
            (first.0 == Err(KeyError("type")) || first.0 == Err(KeyError("url"))) &&
            first.0 == GetUpstream(repo, fetch) &&
            GetUpstreamHeld(repo, first.1, fetch2) == (Ok(first.1.value), first.1)
  {
    UpstreamKeptOnFailure(fetch(BloomConfUrl(repo.url)).value);
  }

  /** A configuration that never names the upstream type fails with `KeyError` on
      `type`, whatever else it holds. */
  lemma UpstreamNeedsType(text: string)
    requires forall line :: line in Split(text, '\n') ==> Key(line) != TypeKey
    ensures UpstreamOf(text).Err?
    ensures ReadLines(map["version" := ""], Split(text, '\n')).Ok? ==> UpstreamOf(text) == Err(KeyError("type"))
  {
    var lines := Split(text, '\n');
    assert forall i :: 0 <= i < |lines| ==> Key(lines[i]) != TypeKey by {
      forall i | 0 <= i < |lines| ensures Key(lines[i]) != TypeKey {
        assert lines[i] in lines;
      }
    }
    ReadLinesUnset(map["version" := ""], lines, TypeKey);
  }

  /** The configuration bloom writes for an upstream: a section header and the three
      key lines. */
  function BloomConf(header: string, url: string, vcsType: string, version: string): string {
    Join([header, UpstreamKey + Sep + url, TypeKey + Sep + vcsType, VersionKey + Sep + version], '\n')
  }

  /** A value that survives a line of the configuration. */
  predicate ConfValue(v: string) {
    '\n' !in v && !Contains(v, Sep)
  }

  /** Reading back the configuration bloom writes recovers its URL, type and version,
      with the defaults and the svn suffix applied. */
  lemma UpstreamRoundTrip(header: string, url: string, vcsType: string, version: string)
    requires |header| > 0 && header[0] != '\t' && '\n' !in header
    requires ConfValue(url) && ConfValue(vcsType) && ConfValue(version)
    ensures var r := UpstreamOf(BloomConf(header, url, vcsType, version));
            r.Ok? && r.value.Keys == {"version", "url", "type"} && r.value["type"] == vcsType &&
            r.value["version"] == (if version != "" then version
                                   else if vcsType == "git" then "master"
                                   else if vcsType == "hg" then "default" else "") &&
            r.value["url"] == (if vcsType == "svn" then url + "/trunk" else url)
  {
    ReadBloomConf(header, url, vcsType, version);
    var res := map["version" := ""]["url" := url]["type" := vcsType]["version" := version];
    assert "type" in res && res["type"] == vcsType && res["version"] == version && res["url"] == url;
    assert res.Keys == {"version", "url", "type"};
  }

  /** Reading the lines of the configuration bloom writes sets the three entries. */
  lemma ReadBloomConf(header: string, url: string, vcsType: string, version: string)
    requires |header| > 0 && header[0] != '\t' && '\n' !in header
    requires ConfValue(url) && ConfValue(vcsType) && ConfValue(version)
    ensures ReadLines(map["version" := ""], Split(BloomConf(header, url, vcsType, version), '\n')) ==
            Ok(map["version" := ""]["url" := url]["type" := vcsType]["version" := version])
  {
    var lines := [header, UpstreamKey + Sep + url, TypeKey + Sep + vcsType, VersionKey + Sep + version];
    ConfLines(header, url, vcsType, version);
    var res := map["version" := ""];
    HeaderSkipped(header);
    var r1 := res["url" := url];
    var r2 := r1["type" := vcsType];
    var r3 := r2["version" := version];
    ReadKeyLine(res, UpstreamKey, "url", url);
    ReadKeyLine(r1, TypeKey, "type", vcsType);
    ReadKeyLine(r2, VersionKey, "version", version);
    ReadSteps(res, lines, r1, r2, r3);
  }

  /** Four lines read one after the other. */
  lemma ReadSteps(res: map<string, string>, lines: seq<string>, r1: map<string, string>, r2: map<string, string>, r3: map<string, string>)
    requires |lines| == 4
    requires ReadLine(res, lines[0]) == Ok(res) && ReadLine(res, lines[1]) == Ok(r1)
    requires ReadLine(r1, lines[2]) == Ok(r2) && ReadLine(r2, lines[3]) == Ok(r3)
    ensures ReadLines(res, lines) == Ok(r3)
  {
    assert ReadLines(r3, lines[4..]) == Ok(r3);
    assert lines[3..][1..] == lines[4..];
    assert ReadLines(r2, lines[3..]) == Ok(r3);
    assert lines[2..][1..] == lines[3..];
    assert ReadLines(r1, lines[2..]) == Ok(r3);
    assert lines[1..][1..] == lines[2..];
    assert ReadLines(res, lines[1..]) == Ok(r3);
    assert lines[0..] == lines;
  }

  lemma ConfLines(header: string, url: string, vcsType: string, version: string)
    requires '\n' !in header && ConfValue(url) && ConfValue(vcsType) && ConfValue(version)
    ensures Split(BloomConf(header, url, vcsType, version), '\n') ==
            [header, UpstreamKey + Sep + url, TypeKey + Sep + vcsType, VersionKey + Sep + version]
  {
    var lines := [header, UpstreamKey + Sep + url, TypeKey + Sep + vcsType, VersionKey + Sep + version];
    forall i | 0 <= i < |lines| ensures FreeOf(lines[i], {'\n'}) {
      assert '\n' !in UpstreamKey && '\n' !in TypeKey && '\n' !in VersionKey && '\n' !in Sep;
    }
    SplitJoin(lines, '\n');
  }

  /** A header not starting with a tab is not a recognised key. */
  lemma HeaderSkipped(header: string)
    requires |header| > 0 && header[0] != '\t'
    ensures Key(header) !in ConfKeys
  {
    var k := Key(header);
    SplitStrFirst(header, Sep);
    assert UpstreamKey[0] == '\t' && TypeKey[0] == '\t' && VersionKey[0] == '\t';
    assert |k| == 0 || k[0] == header[0];
  }

  /** Reading a key line sets the key's entry to the value. */
  lemma ReadKeyLine(res: map<string, string>, key: string, field: string, value: string)
    requires key in ConfKeys && ConfKeys[key] == field && !Contains(value, Sep)
    ensures ReadLine(res, key + Sep + value) == Ok(res[field := value])
  {
    KeyLine(key, value);
  }

  /** A key line splits into its key and value. */
  lemma KeyLine(key: string, value: string)
    requires key in ConfKeys && !Contains(value, Sep)
    ensures Key(key + Sep + value) == key && SplitStr(key + Sep + value, Sep) == [key, value]
  {
    assert ' ' !in UpstreamKey && ' ' !in TypeKey && ' ' !in VersionKey;
    SplitStrKeyValue(key, Sep, value);
  }

  // ---------------------------------------------------------------------------
  // Rosinstall entries

  /** The dump of an entry has every `'?'` turned into `'/'`. */
  function Slashed(s: string): string {
    ReplaceChar(s, '?', '/')
  }

  /** `RosDistroPackage.get_rosinstall_release`: a git entry for the release tag
      `release/<name>/<version>`, the package's version standing in for an empty
      one; any `'?'` in the entry becomes `'/'`. */
  function ReleaseEntry(p: Package, version: string): (e: GenDistro.Entry)
    ensures e.vcs == "git" && |e.localName| == |p.name| && |e.uri| == |p.url|
  {
    var v := if version == "" then p.version else version;
    GenDistro.Entry("git", Slashed(p.name), Slashed(p.url), Slashed(JoinWith(["release", p.name, v], "?")))
  }

  /** `RosDistroPackage.get_rosinstall_latest`: a git entry for the branch
      `release/<name>`. */
  function LatestEntry(p: Package): (e: GenDistro.Entry)
    ensures e.vcs == "git" && e.localName == p.name && e.uri == p.url
  {
    GenDistro.Entry("git", p.name, p.url, "release/" + p.name)
  }

  /** Without `'?'` or `'/'` in the name and version, the release tag splits back
      into `release`, the name and the version, and the release entry carries the
      package's own name and URL; the latest entry's branch is the tag without its
      version. */
  lemma ReleaseTagRoundTrip(p: Package, version: string)
    requires var v := if version == "" then p.version else version;
             FreeOf(p.name, {'?', '/'}) && FreeOf(v, {'?', '/'}) && FreeOf(p.url, {'?'})
    ensures var v := if version == "" then p.version else version;
            var e := ReleaseEntry(p, version);
            e.localName == p.name && e.uri == p.url &&
            Split(e.version, '/') == ["release", p.name, v] &&
            e.version == LatestEntry(p).version + "/" + v
  {
    var v := if version == "" then p.version else version;
    SlashedFree(p.name);
    SlashedFree(p.url);
    var tag := JoinWith(["release", p.name, v], "?");
    JoinWithCons("release", [p.name, v], "?");
    JoinWithCons(p.name, [v], "?");
    assert tag == "release" + "?" + p.name + "?" + v;
    var e := ReleaseEntry(p, version);
    assert e.version == "release" + "/" + p.name + "/" + v by {
      SlashedConcat("release", p.name, v);
    }
    JoinThree("release", p.name, v, '/');
    assert e.version == Join(["release", p.name, v], '/');
    SplitJoin(["release", p.name, v], '/');
    assert Split(e.version, '/') == ["release", p.name, v];
    assert "release/" == "release" + "/";
    assert e.localName == p.name;
    assert e.uri == p.url;
  }

  lemma JoinThree(a: string, b: string, c: string, sep: char)
    ensures Join([a, b, c], sep) == a + [sep] + b + [sep] + c
  {
    assert [a, b, c][1..] == [b, c];
    assert [b, c][1..] == [c];
    assert Join([c], sep) == c;
    assert Join([b, c], sep) == b + [sep] + c;
    assert Join([a, b, c], sep) == a + [sep] + (b + [sep] + c);
  }

  lemma SlashedFree(s: string)
    requires FreeOf(s, {'?'})
    ensures Slashed(s) == s
  {
  }

  lemma SlashedConcat(a: string, b: string, c: string)
    requires FreeOf(a, {'?', '/'}) && FreeOf(b, {'?', '/'}) && FreeOf(c, {'?', '/'})
    ensures Slashed(a + "?" + b + "?" + c) == a + "/" + b + "/" + c
  {
  }

  /** `RosDistroRepo.get_rosinstall_release`: the entries of the repository's packages,
      in order. */
  function RepoReleaseEntries(repo: Repo, version: string): (r: seq<GenDistro.Entry>)
    ensures |r| == |repo.pkgs| && forall i :: 0 <= i < |r| ==> r[i] == ReleaseEntry(repo.pkgs[i], version)
  {
    seq(|repo.pkgs|, i requires 0 <= i < |repo.pkgs| => ReleaseEntry(repo.pkgs[i], version))
  }

  /** `RosDistroRepo.get_rosinstall_latest`: the latest entries of the repository's
      packages, in order. */
  function RepoLatestEntries(repo: Repo): (r: seq<GenDistro.Entry>)
    ensures |r| == |repo.pkgs| && forall i :: 0 <= i < |r| ==> r[i] == LatestEntry(repo.pkgs[i])
  {
    seq(|repo.pkgs|, i requires 0 <= i < |repo.pkgs| => LatestEntry(repo.pkgs[i]))
  }
}
