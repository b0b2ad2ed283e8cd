/** src/rosinstall_generator/generator.py: the name bookkeeping of
    `generate_rosinstall` (special keywords, repository names, the wet/dry name sets
    and the set algebra applied to them), the entries of whole repositories, and the
    final ordering of the entries. Distribution look-ups are given as data; the
    recursive walks are the ones of the distro model. */
module Generator {
  import opened Base
  import opened Strings
  import Seqs
  import GenDistro

  type Entry = GenDistro.Entry
  type Error = GenDistro.Error

  /** `ARG_ALL_PACKAGES` and `ARG_CURRENT_ENVIRONMENT`. */
  const AllPackages := "ALL"
  const CurrentEnvironment := "RPP"
  const Keywords := {AllPackages, CurrentEnvironment}

  // ---------------------------------------------------------------------------
  // _split_special_keywords, _classify_repo_names

  /** `_split_special_keywords`: the names other than the two keywords, and the
      keywords that were given. */
  function SplitSpecialKeywords(names: seq<string>): (r: (set<string>, set<string>))
    ensures forall x :: x in r.0 <==> x in names && x !in Keywords
    ensures forall x :: x in r.1 <==> x in names && x in Keywords
  {
    var plain := GenDistro.Elements(names);
    var (plain1, keys1) := if AllPackages in names then (plain - {AllPackages}, {AllPackages}) else (plain, {});
    if CurrentEnvironment in names then (plain1 - {CurrentEnvironment}, keys1 + {CurrentEnvironment}) else (plain1, keys1)
  }

  /** `_classify_repo_names`: the names of repositories the distribution has, and the
      others; no names needs no distribution and gives two empty sets. */
  function ClassifyRepoNames(repositories: set<string>, repoNames: seq<string>): (r: (set<string>, set<string>))
    ensures forall x :: x in r.0 <==> x in repoNames && x in repositories
    ensures forall x :: x in r.1 <==> x in repoNames && x !in repositories
    decreases |repoNames|
  {
    if |repoNames| == 0 then ({}, {})
    else
      var (known, unknown) := ClassifyRepoNames(repositories, repoNames[1..]);
      assert forall x :: x in repoNames <==> x == repoNames[0] || x in repoNames[1..];
      if repoNames[0] in repositories then ({repoNames[0]} + known, unknown) else (known, {repoNames[0]} + unknown)
  }

  // ---------------------------------------------------------------------------
  // Names

  /** `Names`: the wet package names and the dry stack names. */
  datatype Names = Names(wet: set<string>, dry: set<string>)

  /** `Names(wet, dry)`: both collections copied into sets. */
  function MakeNames(wet: seq<string>, dry: seq<string>): (r: Names)
    ensures forall x :: x in r.wet <==> x in wet
    ensures forall x :: x in r.dry <==> x in dry
  {
    Names(GenDistro.Elements(wet), GenDistro.Elements(dry))
  }

  /** `Names.update`: the componentwise union. */
  function Update(a: Names, b: Names): (r: Names)
    ensures forall x :: x in r.wet <==> x in a.wet || x in b.wet
    ensures forall x :: x in r.dry <==> x in a.dry || x in b.dry
  {
    Names(a.wet + b.wet, a.dry + b.dry)
  }

  predicate IsEmpty(n: Names) {
    n.wet == {} && n.dry == {}
  }

  // ---------------------------------------------------------------------------
  // Selection steps of generate_rosinstall

  /** `has_repos`: repository names were given whose entries come from the
      repositories themselves: released ones with an upstream version or source
      option, or unreleased ones with the source option. */
  predicate HasRepos(repoNames: set<string>, unreleased: set<string>, versionTag: bool, sourceVersion: bool) {
    (repoNames - unreleased != {} && (versionTag || sourceVersion)) || (unreleased != {} && sourceVersion)
  }

  /** The check after classifying the requested names. */
  function CheckReleasedLeft(names: Names, hasRepos: bool): (r: Result<Names, Error>)
    ensures r.Err? <==> IsEmpty(names) && !hasRepos
    ensures r.Ok? ==> r.value == names
    ensures r.Err? ==> r.error == GenDistro.RuntimeError("No packages/stacks left after ignoring not released")
  {
    if names.wet == {} && names.dry == {} && !hasRepos then
      Err(GenDistro.RuntimeError("No packages/stacks left after ignoring not released"))
    else Ok(names)
  }

  /** Whether the dry names are dropped: only wet names were asked for and no
      dependencies are followed. */
  predicate ClearsDry(wetOnly: bool, deps: bool, depsUpTo: bool) {
    wetOnly && !deps && !depsUpTo
  }

  /** The start of the result: the requested names, without the wet ones for
      `dry_only`, without the dry ones for `wet_only` when no dependencies are
      followed, and without the excluded names; nothing left and no repositories is
      an error. */
  function SelectNames(names: Names, excludes: Names, dryOnly: bool, wetOnly: bool, deps: bool, depsUpTo: bool,
                       hasRepos: bool): (r: Result<Names, Error>)
    ensures r.Ok? ==> forall x :: x in r.value.wet <==> !dryOnly && x in names.wet && x !in excludes.wet
    ensures r.Ok? ==> forall x :: x in r.value.dry <==> !ClearsDry(wetOnly, deps, depsUpTo) && x in names.dry && x !in excludes.dry
    ensures r.Err? <==> !hasRepos &&
                        (dryOnly || names.wet <= excludes.wet) &&
                        (ClearsDry(wetOnly, deps, depsUpTo) || names.dry <= excludes.dry)
    ensures r.Err? ==> r.error == GenDistro.RuntimeError("No packages/stacks left after applying the exclusions")
  {
    var wet := if dryOnly then {} else names.wet;
    var dry := if wetOnly && !deps && !depsUpTo then {} else names.dry;
    var result := Names(wet - excludes.wet, dry - excludes.dry);
    assert (result.wet == {}) == (dryOnly || names.wet <= excludes.wet) by {
      if !dryOnly && !(names.wet <= excludes.wet) {
        var x :| x in names.wet && x !in excludes.wet;
        assert x in result.wet;
      }
    }
    assert (result.dry == {}) == (ClearsDry(wetOnly, deps, depsUpTo) || names.dry <= excludes.dry) by {
      if !ClearsDry(wetOnly, deps, depsUpTo) && !(names.dry <= excludes.dry) {
        var x :| x in names.dry && x !in excludes.dry;
        assert x in result.dry;
      }
    }
    if result.wet == {} && result.dry == {} && !hasRepos then
      Err(GenDistro.RuntimeError("No packages/stacks left after applying the exclusions"))
    else Ok(result)
  }

  /** The wet half of the `deps_up_to` intersection: the packages depending on the
      up-to packages (`wetOn`, computed without the requested names), together with
      the requested names already in the result; no wet up-to packages clears the wet
      names. */
  function IntersectWet(result: Names, names: Names, upTo: Names, wetOn: set<string>): (r: set<string>)
    ensures upTo.wet == {} ==> r == {}
    ensures upTo.wet != {} ==> forall x :: x in r <==> x in wetOn || (x in result.wet && x in names.wet)
  {
    if upTo.wet != {} then wetOn + (result.wet * names.wet) else {}
  }

  /** The dry half: the dry stacks depending on the remaining wet packages or the dry
      up-to stacks (`dryOn`), together with the requested stacks already in the
      result; cleared when there is nothing to depend on or only wet names were
      asked for. */
  function IntersectDry(result: Names, names: Names, upTo: Names, wetOnly: bool, wetAfter: set<string>, dryOn: set<string>)
    : (r: set<string>)
    ensures (wetAfter == {} && upTo.dry == {}) || wetOnly ==> r == {}
    ensures (wetAfter != {} || upTo.dry != {}) && !wetOnly ==>
              forall x :: x in r <==> x in dryOn || (x in result.dry && x in names.dry)
  {
    var dependencyNames := wetAfter + upTo.dry;
    if dependencyNames != {} && !wetOnly then dryOn + (result.dry * names.dry) else {}
  }

  /** The wet intersection narrows the result: with a reverse walker that honours its
      ignore set and a non-empty result, every released package kept was already in
      the result. */
  lemma IntersectWetNarrows(walkOn: GenDistro.Walker, d: GenDistro.Distribution, upToOrder: seq<string>,
                            result: Names, names: Names, upTo: Names)
    requires GenDistro.Honours(walkOn)
    requires GenDistro.GetPackageNames(d).Ok? && result.wet != {}
    ensures var on := GenDistro.GetRecursiveDependenciesOn(walkOn, d, upToOrder, names.wet, result.wet);
            on.Ok? ==>
            forall x :: x in IntersectWet(result, names, upTo, on.value) && x in GenDistro.GetPackageNames(d).value.0 ==>
                          x in result.wet
  {
    GenDistro.RecursiveDependenciesOnWithinLimit(walkOn, d, upToOrder, names.wet, result.wet);
  }

  /** `deps_only`: the requested names themselves are dropped. */
  function DropRequested(result: Names, names: Names, depsOnly: bool): (r: Names)
    ensures depsOnly ==> r.wet !! names.wet && r.dry !! names.dry
    ensures forall x :: x in r.wet <==> x in result.wet && !(depsOnly && x in names.wet)
    ensures forall x :: x in r.dry <==> x in result.dry && !(depsOnly && x in names.dry)
  {
    if depsOnly then Names(result.wet - names.wet, result.dry - names.dry) else result
  }

  /** A released package's manifest: unparsable, or the contents of its
      `build_type` exports in order. */
  datatype Manifest = Invalid | Valid(buildTypes: seq<string>)

  /** The build type: the first `build_type` export, `catkin` without one. */
  function BuildType(m: Manifest): string
    requires m.Valid?
  {
    if |m.buildTypes| > 0 then m.buildTypes[0] else "catkin"
  }

  /** The build-type filter of `catkin_only` and `non_catkin_only`: a package with an
      invalid manifest is dropped, and a valid one is kept when it is catkin exactly
      when `catkin_only` is set. */
  function FilterBuildType(wet: set<string>, manifest: string -> Manifest, catkinOnly: bool, nonCatkinOnly: bool)
    : (r: set<string>)
    ensures !catkinOnly && !nonCatkinOnly ==> r == wet
    ensures catkinOnly || nonCatkinOnly ==>
              forall x :: x in r <==> x in wet && manifest(x).Valid? && (catkinOnly <==> BuildType(manifest(x)) == "catkin")
  {
    if catkinOnly || nonCatkinOnly then
      set x | x in wet && manifest(x).Valid? && !(catkinOnly != (BuildType(manifest(x)) == "catkin"))
    else wet
  }

  /** The two filters split the packages with a valid manifest between them. */
  lemma {:induction false} BuildTypeFiltersPartition(wet: set<string>, manifest: string -> Manifest)
    ensures FilterBuildType(wet, manifest, true, false) !! FilterBuildType(wet, manifest, false, true)
    ensures FilterBuildType(wet, manifest, true, false) + FilterBuildType(wet, manifest, false, true) ==
            set x | x in wet && manifest(x).Valid?
  {
    var c := FilterBuildType(wet, manifest, true, false);
    var n := FilterBuildType(wet, manifest, false, true);
    forall x | x in wet && manifest(x).Valid?
      ensures x in c + n
    {
      if BuildType(manifest(x)) == "catkin" {
        assert x in c;
      } else {
        assert x in n;
      }
    }
  }

  // ---------------------------------------------------------------------------
  // generate_rosinstall_for_repos

  datatype SourceRepository = SourceRepository(url: string, version: string, vcsType: string)
  datatype ReleaseRepository = ReleaseRepository(version: Option<string>, vcsType: string)

  /** A repository of the distribution file with its optional source and release
      entries. */
  datatype Repository = Repository(name: string, source: Option<SourceRepository>, release: Option<ReleaseRepository>)

  /** The version and VCS type a repository is checked out at: with `version_tag`, the
      release version up to its first '-' and the release type; otherwise the source
      version and type. A missing entry is Python's `AttributeError` on `None`. */
  function RepoVersion(repo: Repository, versionTag: bool): (r: Result<(string, string), Error>)
    ensures r.Ok? <==> if versionTag then repo.release.Some? && repo.release.value.version.Some? else repo.source.Some?
    ensures r.Ok? && versionTag ==> '-' !in r.value.0 && StartsWith(repo.release.value.version.value, r.value.0)
    ensures r.Ok? && versionTag ==> r.value.1 == repo.release.value.vcsType
    ensures r.Ok? && !versionTag ==> r.value == (repo.source.value.version, repo.source.value.vcsType)
  {
    if versionTag then
      if repo.release.None? then Err(GenDistro.AttributeError("'NoneType' object has no attribute 'version'"))
      else if repo.release.value.version.None? then Err(GenDistro.AttributeError("'NoneType' object has no attribute 'split'"))
      else
        var v := repo.release.value.version.value;
        FirstFieldPrefix(v, '-');
        Ok((FirstField(v, '-'), repo.release.value.vcsType))
    else if repo.source.None? then Err(GenDistro.AttributeError("'NoneType' object has no attribute 'version'"))
    else Ok((repo.source.value.version, repo.source.value.vcsType))
  }

  /** A repository has what its entry needs: a version and a source URL. */
  predicate Convertible(repo: Repository, versionTag: bool) {
    RepoVersion(repo, versionTag).Ok? && repo.source.Some?
  }

  /** What a repository that lacks something raises: the version is read before the
      source URL. */
  function RepoError(repo: Repository, versionTag: bool): Error
    requires !Convertible(repo, versionTag)
  {
    if RepoVersion(repo, versionTag).Err? then RepoVersion(repo, versionTag).error
    else GenDistro.AttributeError("'NoneType' object has no attribute 'url'")
  }

  /** `generate_rosinstall_for_repos`: one entry per repository, in order, named after
      the repository and pointing at its source URL; the first repository lacking
      something raises. */
  function GenerateRosinstallForRepos(repos: seq<Repository>, versionTag: bool, tar: bool): (r: Result<seq<Entry>, Error>)
    ensures r.Ok? <==> forall i :: 0 <= i < |repos| ==> repos[i].source.Some? && RepoVersion(repos[i], versionTag).Ok?
    ensures r.Err? ==> exists i :: 0 <= i < |repos| && !Convertible(repos[i], versionTag) &&
                                   (forall j :: 0 <= j < i ==> Convertible(repos[j], versionTag)) &&
                                   r.error == RepoError(repos[i], versionTag)
    ensures r.Ok? ==> |r.value| == |repos|
    ensures r.Ok? ==> forall i :: 0 <= i < |repos| ==>
              var (version, vcs) := RepoVersion(repos[i], versionTag).value;
              r.value[i] == GenDistro.GenerateEntry(repos[i].name, repos[i].source.value.url, version, tar, Some(vcs))
    decreases |repos|
  {
    if |repos| == 0 then Ok([])
    else
      var repo := repos[0];
      var rest := GenerateRosinstallForRepos(repos[1..], versionTag, tar);
      assert forall i :: 1 <= i < |repos| ==> repos[i] == repos[1..][i - 1];
      if !Convertible(repo, versionTag) then
        Err(RepoError(repo, versionTag))
      else if rest.Err? then
        FirstFailureCons(repos, versionTag, rest.error);
        rest
      else
        var (version, vcs) := RepoVersion(repo, versionTag).value;
        Ok([GenDistro.GenerateEntry(repo.name, repo.source.value.url, version, tar, Some(vcs))] + rest.value)
  }

  /** The first repository lacking something, found in the tail after a convertible
      head, is the first one of the whole list. */
  lemma FirstFailureCons(repos: seq<Repository>, versionTag: bool, e: Error)
    requires |repos| > 0 && Convertible(repos[0], versionTag)
    requires exists k :: 0 <= k < |repos[1..]| && !Convertible(repos[1..][k], versionTag) &&
                         (forall j :: 0 <= j < k ==> Convertible(repos[1..][j], versionTag)) &&
                         e == RepoError(repos[1..][k], versionTag)
    ensures exists i :: 0 <= i < |repos| && !Convertible(repos[i], versionTag) &&
                        (forall j :: 0 <= j < i ==> Convertible(repos[j], versionTag)) &&
                        e == RepoError(repos[i], versionTag)
  {
    var k :| 0 <= k < |repos[1..]| && !Convertible(repos[1..][k], versionTag) &&
             (forall j :: 0 <= j < k ==> Convertible(repos[1..][j], versionTag)) &&
             e == RepoError(repos[1..][k], versionTag);
    assert repos[k + 1] == repos[1..][k];
    forall j | 0 <= j < k + 1 ensures Convertible(repos[j], versionTag) {
      if j > 0 { assert repos[j] == repos[1..][j - 1]; }
    }
  }

  /** Without tarballs a repository's entry is a checkout of its source URL with the
      repository's VCS at the truncated release version, or the source version. */
  lemma RepoEntryIsCheckout(repo: Repository, versionTag: bool)
    requires repo.source.Some? && RepoVersion(repo, versionTag).Ok?
    ensures var e := GenerateRosinstallForRepos([repo], versionTag, false).value[0];
            e.localName == repo.name && e.uri == repo.source.value.url && '-' !in (if versionTag then e.version else "") &&
            var vcs := if versionTag then repo.release.value.vcsType else repo.source.value.vcsType;
            e.vcs == (if vcs == "" then "git" else vcs)
  {
  }

  // ---------------------------------------------------------------------------
  // sort_rosinstall

  /** Ordered by local name under Python's string order. */
  predicate SortedByName(es: seq<Entry>) {
    forall i, j :: 0 <= i < j < |es| ==> !Seqs.Less(es[j].localName, es[i].localName)
  }

  /** The entries with a given local name, in order. */
  function WithName(es: seq<Entry>, name: string): (r: seq<Entry>)
    decreases |es|
  {
    if |es| == 0 then []
    else (if es[0].localName == name then [es[0]] else []) + WithName(es[1..], name)
  }

  /** Inserts `e` after the leading entries whose names are not greater. */
  function InsertByName(e: Entry, es: seq<Entry>): (r: seq<Entry>)
    ensures multiset(r) == multiset(es) + multiset{e}
    decreases |es|
  {
    if |es| == 0 then [e]
    else if Seqs.Less(e.localName, es[0].localName) then [e] + es
    else
      assert es == [es[0]] + es[1..];
      [es[0]] + InsertByName(e, es[1..])
  }

  /** Insertion keeps a sorted sequence sorted. */
  lemma {:induction false} InsertByNameSorted(e: Entry, es: seq<Entry>)
    requires SortedByName(es)
    ensures SortedByName(InsertByName(e, es))
    decreases |es|
  {
    if |es| == 0 {
    } else if Seqs.Less(e.localName, es[0].localName) {
      assert forall j :: 0 <= j < |es| ==> !Seqs.Less(es[j].localName, e.localName) by {
        forall j | 0 <= j < |es| ensures !Seqs.Less(es[j].localName, e.localName) {
          if Seqs.Less(es[j].localName, e.localName) {
            Seqs.LessTransitive(es[j].localName, e.localName, es[0].localName);
            Seqs.LessAsymmetric(es[j].localName, es[0].localName);
          }
        }
      }
    } else {
      InsertByNameSorted(e, es[1..]);
      var rest := InsertByName(e, es[1..]);
      assert es == [es[0]] + es[1..];
      assert forall j :: 0 <= j < |rest| ==> !Seqs.Less(rest[j].localName, es[0].localName) by {
        forall j | 0 <= j < |rest| ensures !Seqs.Less(rest[j].localName, es[0].localName) {
          assert rest[j] in multiset(es[1..]) + multiset{e};
          if rest[j] != e {
            assert rest[j] in es[1..];
          } else {
            Seqs.LessTotal(e.localName, es[0].localName);
            if e.localName == es[0].localName {
              Seqs.LessIrreflexive(e.localName);
            } else if !Seqs.Less(e.localName, es[0].localName) {
              Seqs.LessAsymmetric(es[0].localName, e.localName);
            }
          }
        }
      }
    }
  }

  /** `sort_rosinstall`: Python's stable `sorted` keyed by the local name. */
  function SortRosinstall(es: seq<Entry>): (r: seq<Entry>)
    ensures SortedByName(r)
    ensures multiset(r) == multiset(es)
    decreases |es|
  {
    if |es| == 0 then []
    else
      assert es == es[..|es| - 1] + [es[|es| - 1]];
      var sorted := SortRosinstall(es[..|es| - 1]);
      InsertByNameSorted(es[|es| - 1], sorted);
      InsertByName(es[|es| - 1], sorted)
  }

  lemma {:induction false} WithNameConcat(a: seq<Entry>, b: seq<Entry>, name: string)
    ensures WithName(a + b, name) == WithName(a, name) + WithName(b, name)
    decreases |a|
  {
    if |a| > 0 {
      assert (a + b)[1..] == a[1..] + b;
      WithNameConcat(a[1..], b, name);
    } else {
      assert a + b == b;
    }
  }

  /** In a sorted sequence whose first name exceeds `name`, no entry has `name`. */
  lemma {:induction false} NoneNamedBelow(es: seq<Entry>, name: string)
    requires SortedByName(es) && |es| > 0 && Seqs.Less(name, es[0].localName)
    ensures WithName(es, name) == []
    decreases |es|
  {
    if es[0].localName == name {
      Seqs.LessIrreflexive(name);
    }
    if |es| > 1 {
      Seqs.LessTotal(es[0].localName, es[1].localName);
      if Seqs.Less(es[0].localName, es[1].localName) {
        Seqs.LessTransitive(name, es[0].localName, es[1].localName);
      }
      NoneNamedBelow(es[1..], name);
    }
  }

  /** Inserting `e` puts it after every entry of the same name. */
  lemma {:induction false} InsertByNameStable(e: Entry, es: seq<Entry>, name: string)
    requires SortedByName(es)
    ensures WithName(InsertByName(e, es), name) == WithName(es, name) + WithName([e], name)
    decreases |es|
  {
    if |es| == 0 {
    } else if Seqs.Less(e.localName, es[0].localName) {
      InsertFrontStable(e, es, name);
    } else {
      InsertByNameStable(e, es[1..], name);
      InsertLaterStable(e, es, name);
    }
  }

  lemma InsertFrontStable(e: Entry, es: seq<Entry>, name: string)
    requires SortedByName(es) && |es| > 0 && Seqs.Less(e.localName, es[0].localName)
    ensures WithName(InsertByName(e, es), name) == WithName(es, name) + WithName([e], name)
  {
    assert InsertByName(e, es) == [e] + es;
    WithNameConcat([e], es, name);
    if e.localName == name {
      NoneNamedBelow(es, name);
    } else {
      assert WithName([e], name) == [];
    }
  }

  lemma InsertLaterStable(e: Entry, es: seq<Entry>, name: string)
    requires |es| > 0 && !Seqs.Less(e.localName, es[0].localName)
    requires WithName(InsertByName(e, es[1..]), name) == WithName(es[1..], name) + WithName([e], name)
    ensures WithName(InsertByName(e, es), name) == WithName(es, name) + WithName([e], name)
  {
    var rest := InsertByName(e, es[1..]);
    var p := if es[0].localName == name then [es[0]] else [];
    var a, b := WithName(es[1..], name), WithName([e], name);
    calc {
      WithName(InsertByName(e, es), name);
      { assert InsertByName(e, es) == [es[0]] + rest; }
      WithName([es[0]] + rest, name);
      { WithNameCons(es[0], rest, name); }
      p + (a + b);
      { SeqAssoc(p, a, b); }
      (p + a) + b;
      { WithNameCons(es[0], es[1..], name); assert [es[0]] + es[1..] == es; }
      WithName(es, name) + b;
    }
  }

  lemma SeqAssoc(p: seq<Entry>, a: seq<Entry>, b: seq<Entry>)
    ensures p + (a + b) == (p + a) + b
  {
  }

  lemma WithNameCons(x: Entry, es: seq<Entry>, name: string)
    ensures WithName([x] + es, name) == (if x.localName == name then [x] else []) + WithName(es, name)
  {
    assert ([x] + es)[1..] == es;
  }

  /** The sort is stable: entries of the same local name keep their order. */
  lemma {:induction false} SortRosinstallStable(es: seq<Entry>, name: string)
    ensures WithName(SortRosinstall(es), name) == WithName(es, name)
    decreases |es|
  {
    if |es| > 0 {
      var init := es[..|es| - 1];
      var last := es[|es| - 1];
      var sorted := SortRosinstall(init);
      calc {
        WithName(SortRosinstall(es), name);
        { SortRosinstallLast(es); }
        WithName(InsertByName(last, sorted), name);
        { InsertByNameStable(last, sorted, name); }
        WithName(sorted, name) + WithName([last], name);
        { SortRosinstallStable(init, name); }
        WithName(init, name) + WithName([last], name);
        { WithNameConcat(init, [last], name); assert init + [last] == es; }
        WithName(es, name);
      }
    }
  }

  /** The sort inserts the last entry into the sorted rest. */
  lemma SortRosinstallLast(es: seq<Entry>)
    requires |es| > 0
    ensures SortRosinstall(es) == InsertByName(es[|es| - 1], SortRosinstall(es[..|es| - 1]))
  {
  }
}
