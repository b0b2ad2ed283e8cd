/** src/rosdep2/gbpdistro_support.py: turning a git-buildpackage distribution file
    (`release-name`, `gbp-repos`) and the platform targets file into rosdep rules, one
    key per repository, each resolving on Ubuntu to the release's apt package. */
module Gbpdistro {
  import opened Base
  import opened Yaml
  import opened Strings

  /** `rospkg.os_detect.OS_UBUNTU`. */
  const OsUbuntu := "ubuntu"
  /** `platforms.debian.APT_INSTALLER`. */
  const AptInstaller := "apt"

  /** Why the data is rejected with `InvalidData`. */
  datatype Reason =
    | TargetsNotList
    | GbpNotDict
    | NoTargetsFor(release: string)
    | BadRepo
    | BadTarget
    | MissingKey(key: string)

  /** `InvalidData`, or a Python `TypeError` that escapes the conversion. */
  datatype GbpError = InvalidData(reason: Reason) | TypeError

  /** Python `release in t` for a string `release`; `None` where Python raises
      `TypeError` (a number, boolean or null is not a container). */
  function MentionsRelease(t: Value, release: string): (r: Option<bool>)
    ensures r.Some? <==> t.Dict? || t.List? || t.Str?
    ensures t.Dict? ==> r == Some(release in t.entries)
  {
    match t
    case Dict(entries) => Some(release in entries)
    case List(items) => Some(Str(release) in items)
    case Str(s) => Some(Contains(s, release))
    case _ => None
  }

  /** `[t for t in targets if release in t]`: every element is tested, so one element
      that is not a container raises even after a match. */
  function Matching(targets: seq<Value>, release: string): (r: Result<seq<Value>, GbpError>)
    ensures r.Ok? <==> forall i :: 0 <= i < |targets| ==> MentionsRelease(targets[i], release).Some?
    ensures r.Err? ==> r.error == TypeError
    ensures r.Ok? ==> forall t :: t in r.value <==> t in targets && MentionsRelease(t, release) == Some(true)
  {
    if |targets| == 0 then Ok([])
    else
      assert forall i :: 1 <= i < |targets| ==> targets[i] == targets[1..][i - 1];
      match MentionsRelease(targets[0], release)
      case None => Err(TypeError)
      case Some(b) =>
        var rest :- Matching(targets[1..], release);
        Ok(if b then [targets[0]] + rest else rest)
  }

  /** The first element of the targets file that mentions the release, as Python
      keeps order in the comprehension. */
  lemma {:induction false} MatchingFirst(targets: seq<Value>, release: string)
    requires Matching(targets, release).Ok? && |Matching(targets, release).value| > 0
    ensures exists i :: 0 <= i < |targets| && targets[i] == Matching(targets, release).value[0] &&
              forall j :: 0 <= j < i ==> MentionsRelease(targets[j], release) == Some(false)
  {
    assert forall i :: 1 <= i < |targets| ==> targets[i] == targets[1..][i - 1];
    if MentionsRelease(targets[0], release) == Some(false) {
      MatchingFirst(targets[1..], release);
      var i :| 0 <= i < |targets[1..]| && targets[1..][i] == Matching(targets[1..], release).value[0] &&
                forall j :: 0 <= j < i ==> MentionsRelease(targets[1..][j], release) == Some(false);
      assert targets[i + 1] == Matching(targets, release).value[0];
    } else {
      assert targets[0] == Matching(targets, release).value[0];
    }
  }

  /** The release's target list: `target_data[0][release_name]` of the first match.
      A matching list or string cannot be indexed by a string. */
  function ReleaseTargets(targets: seq<Value>, release: string): (r: Result<Value, GbpError>)
    ensures r == Err(InvalidData(NoTargetsFor(release))) <==>
              forall i :: 0 <= i < |targets| ==> MentionsRelease(targets[i], release) == Some(false)
    ensures r.Ok? ==> exists t :: t in targets && t.Dict? && release in t.entries && r.value == t.entries[release]
  {
    var matches :- Matching(targets, release);
    if |matches| == 0 then
      assert forall i :: 0 <= i < |targets| ==> targets[i] !in matches;
      Err(InvalidData(NoTargetsFor(release)))
    else
      assert matches[0] in matches;
      var first := matches[0];
      if first.Dict? then Ok(first.entries[release]) else Err(TypeError)
  }

  /** The targets a repository lists: the items of a list (each must be a string), the
      one-character strings of a string, the keys of a mapping. */
  function TargetsOf(v: Value): (r: Result<set<string>, GbpError>)
    ensures v.List? ==> (r.Ok? <==> AllStrs(v.items))
    ensures v.List? && r.Ok? ==> forall t :: t in r.value <==> Str(t) in v.items
    ensures v.List? && r.Err? ==> r.error == InvalidData(BadTarget)
    ensures r.Ok? <==> (v.List? && AllStrs(v.items)) || v.Str? || v.Dict?
  {
    match v
    case List(items) =>
      if AllStrs(items) then
        var ts := set i | 0 <= i < |items| :: items[i].s;
        assert forall t :: t in ts <==> Str(t) in items by {
          forall t ensures t in ts <==> Str(t) in items {
            if Str(t) in items {
              var i :| 0 <= i < |items| && items[i] == Str(t);
              assert items[i].s == t;
            }
          }
        }
        Ok(ts)
      else Err(InvalidData(BadTarget))
    case Str(s) => Ok(set i | 0 <= i < |s| :: [s[i]])
    case Dict(entries) => Ok(entries.Keys)
    case _ => Err(TypeError)
  }

  /** The Debian package name `ros-<release>-<key>`, underscores turned into dashes. */
  function DebName(release: string, key: string): (r: string)
    ensures '_' !in r
    ensures StartsWith(r, "ros-")
    ensures |r| == |release| + |key| + 5
  {
    var name := "ros-" + release + "-" + key;
    var r := ReplaceChar(name, '_', '-');
    assert r[..4] == "ros-" by {
      assert forall k :: 0 <= k < 4 ==> r[k] == name[k];
    }
    r
  }

  /** Release and key without underscores give the plain `ros-<release>-<key>`. */
  lemma DebNamePlain(release: string, key: string)
    requires '_' !in release && '_' !in key
    ensures DebName(release, key) == "ros-" + release + "-" + key
  {
    var name := "ros-" + release + "-" + key;
    forall k | 0 <= k < |name| ensures name[k] != '_' {
      if 4 <= k < 4 + |release| {
        assert name[k] == release[k - 4];
      } else if k >= 5 + |release| {
        assert name[k] == key[k - 5 - |release|];
      }
    }
  }

  /** `{'apt': {'packages': [deb]}}`. */
  function AptRule(deb: string): Value {
    Dict(map[AptInstaller := Dict(map["packages" := List([Str(deb)])])])
  }

  /** The rules generated for one repository: Ubuntu only, every target the apt package. */
  function RepoRules(release: string, key: string, targets: set<string>): (v: Value)
    ensures Generated(v, DebName(release, key))
    ensures v.entries[OsUbuntu].entries.Keys == targets
  {
    Dict(map[OsUbuntu := Dict(map t | t in targets :: AptRule(DebName(release, key)))])
  }

  /** The shape of generated data: only `ubuntu`, and under it only apt rules for `deb`. */
  predicate Generated(v: Value, deb: string) {
    && v.Dict? && v.entries.Keys == {OsUbuntu}
    && v.entries[OsUbuntu].Dict?
    && forall t :: t in v.entries[OsUbuntu].entries ==> v.entries[OsUbuntu].entries[t] == AptRule(deb)
  }

  /** One repository entry: its key and its rules. A target of `'all'` means the
      release's own target list. */
  function ConvertRepo(repo: Value, release: string, releaseTargets: Value): (r: Result<(string, Value), GbpError>)
    ensures !repo.Dict? ==> r == Err(InvalidData(BadRepo))
    ensures repo.Dict? && "name" !in repo.entries ==> r == Err(InvalidData(MissingKey("name")))
    ensures r.Ok? ==> repo.Dict? && "name" in repo.entries && repo.entries["name"] == Str(r.value.0)
                      && "target" in repo.entries
    ensures r.Ok? ==>
              var ts := TargetsOf(if repo.entries["target"] == Str("all") then releaseTargets else repo.entries["target"]);
              ts.Ok? && r.value.1 == RepoRules(release, r.value.0, ts.value)
  {
    if !repo.Dict? then Err(InvalidData(BadRepo))
    else if "name" !in repo.entries then Err(InvalidData(MissingKey("name")))
    else
      var name := repo.entries["name"];
      if !name.Str? then Err(TypeError)
      else if "target" !in repo.entries then Err(InvalidData(MissingKey("target")))
      else
        var target := repo.entries["target"];
        var ts :- TargetsOf(if target == Str("all") then releaseTargets else target);
        Ok((name.s, RepoRules(release, name.s, ts)))
  }

  /** The loop over repositories: the first failing entry raises; a repeated key is
      reset, so the later repository wins. */
  function ConvertRepos(repos: seq<Value>, release: string, releaseTargets: Value, acc: map<string, Value>)
    : (r: Result<map<string, Value>, GbpError>)
    ensures r.Ok? <==> forall i :: 0 <= i < |repos| ==> ConvertRepo(repos[i], release, releaseTargets).Ok?
    ensures r.Ok? ==> forall k :: k in r.value <==>
              k in acc || exists i :: 0 <= i < |repos| && ConvertRepo(repos[i], release, releaseTargets).value.0 == k
    decreases |repos|
  {
    if |repos| == 0 then Ok(acc)
    else
      assert forall i :: 1 <= i < |repos| ==> repos[i] == repos[1..][i - 1];
      var entry :- ConvertRepo(repos[0], release, releaseTargets);
      ConvertRepos(repos[1..], release, releaseTargets, acc[entry.0 := entry.1])
  }

  /** Every generated entry has the Ubuntu/apt shape for its own key. */
  lemma {:induction false} ConvertReposGenerated(repos: seq<Value>, release: string, releaseTargets: Value, acc: map<string, Value>)
    requires ConvertRepos(repos, release, releaseTargets, acc).Ok?
    requires forall k :: k in acc ==> Generated(acc[k], DebName(release, k))
    ensures var m := ConvertRepos(repos, release, releaseTargets, acc).value;
            forall k :: k in m ==> Generated(m[k], DebName(release, k))
    decreases |repos|
  {
    if |repos| > 0 {
      var entry := ConvertRepo(repos[0], release, releaseTargets).value;
      ConvertReposGenerated(repos[1..], release, releaseTargets, acc[entry.0 := entry.1]);
    }
  }

  /** The value of a key is the rules of the last repository that names it. */
  lemma {:induction false} ConvertReposLastWins(repos: seq<Value>, release: string, releaseTargets: Value,
                                                acc: map<string, Value>, i: nat)
    requires ConvertRepos(repos, release, releaseTargets, acc).Ok?
    requires i < |repos|
    requires forall j :: i < j < |repos| ==>
               ConvertRepo(repos[j], release, releaseTargets).value.0 != ConvertRepo(repos[i], release, releaseTargets).value.0
    ensures var e := ConvertRepo(repos[i], release, releaseTargets).value;
            var m := ConvertRepos(repos, release, releaseTargets, acc).value;
            e.0 in m && m[e.0] == e.1
    decreases |repos|
  {
    var entry := ConvertRepo(repos[0], release, releaseTargets).value;
    var acc' := acc[entry.0 := entry.1];
    assert forall j :: 1 <= j < |repos| ==> repos[j] == repos[1..][j - 1];
    if i == 0 {
      KeptAfter(repos[1..], release, releaseTargets, acc', entry.0);
    } else {
      ConvertReposLastWins(repos[1..], release, releaseTargets, acc', i - 1);
    }
  }

  /** A key no later repository names keeps its accumulated value. */
  lemma {:induction false} KeptAfter(repos: seq<Value>, release: string, releaseTargets: Value,
                                     acc: map<string, Value>, key: string)
    requires ConvertRepos(repos, release, releaseTargets, acc).Ok?
    requires key in acc
    requires forall j :: 0 <= j < |repos| ==> ConvertRepo(repos[j], release, releaseTargets).value.0 != key
    ensures var m := ConvertRepos(repos, release, releaseTargets, acc).value;
            key in m && m[key] == acc[key]
    decreases |repos|
  {
    if |repos| > 0 {
      var entry := ConvertRepo(repos[0], release, releaseTargets).value;
      assert forall j :: 1 <= j < |repos| ==> repos[j] == repos[1..][j - 1];
      KeptAfter(repos[1..], release, releaseTargets, acc[entry.0 := entry.1], key);
    }
  }

  /** The repositories Python iterates over: the items of a list; a non-empty string or
      mapping yields strings, which are rejected as repository specs. */
  function ReposOf(v: Value): (r: Result<seq<Value>, GbpError>)
    ensures v.List? ==> r == Ok(v.items)
  {
    match v
    case List(items) => Ok(items)
    case Str(s) => if s == "" then Ok([]) else Err(InvalidData(BadRepo))
    case Dict(entries) => if entries == map[] then Ok([]) else Err(InvalidData(BadRepo))
    case _ => Err(TypeError)
  }

  /** `gbprepo_to_rosdep_data`. Release and repository names are strings here. */
  function GbprepoToRosdepData(gbp: Value, targets: Value): (r: Result<map<string, Value>, GbpError>)
    ensures !targets.List? ==> r == Err(InvalidData(TargetsNotList))
    ensures targets.List? && !gbp.Dict? ==> r == Err(InvalidData(GbpNotDict))
    ensures targets.List? && gbp.Dict? && "release-name" !in gbp.entries ==> r == Err(InvalidData(MissingKey("release-name")))
    ensures r.Ok? ==> gbp.Dict? && "release-name" in gbp.entries && gbp.entries["release-name"].Str?
    ensures r.Ok? ==> forall k :: k in r.value ==> Generated(r.value[k], DebName(gbp.entries["release-name"].s, k))
  {
    if !targets.List? then Err(InvalidData(TargetsNotList))
    else if !gbp.Dict? then Err(InvalidData(GbpNotDict))
    else if "release-name" !in gbp.entries then Err(InvalidData(MissingKey("release-name")))
    else
      var releaseName := gbp.entries["release-name"];
      if !releaseName.Str? then Err(TypeError)
      else
        var release := releaseName.s;
        var releaseTargets :- ReleaseTargets(targets.items, release);
        if "gbp-repos" !in gbp.entries then Err(InvalidData(MissingKey("gbp-repos")))
        else
          var repos :- ReposOf(gbp.entries["gbp-repos"]);
          var r := ConvertRepos(repos, release, releaseTargets, map[]);
          if r.Ok? then
            ConvertReposGenerated(repos, release, releaseTargets, map[]);
            r
          else r
  }

  /** A targets file with one entry for the release gives that entry's targets. */
  lemma SingleTargetsEntry(release: string, releaseTargets: Value)
    ensures ReleaseTargets([Dict(map[release := releaseTargets])], release) == Ok(releaseTargets)
  {
    var t := Dict(map[release := releaseTargets]);
    assert Matching([t], release) == Ok([t]) by {
      assert [t][1..] == [];
      assert MentionsRelease(t, release) == Some(true);
      assert Matching([], release) == Ok([]);
      assert [t] + [] == [t];
    }
  }

  /** A distribution whose repositories are all well-formed produces exactly one key
      per repository name. */
  lemma GbprepoKeys(release: string, targetList: seq<string>, repos: seq<Value>)
    requires forall i :: 0 <= i < |repos| ==> ConvertRepo(repos[i], release, List(Strs(targetList))).Ok?
    ensures var gbp := Dict(map["release-name" := Str(release), "gbp-repos" := List(repos)]);
            var targets := List([Dict(map[release := List(Strs(targetList))])]);
            var r := GbprepoToRosdepData(gbp, targets);
            r.Ok? && forall k :: k in r.value <==> exists i :: 0 <= i < |repos| && repos[i].entries["name"] == Str(k)
  {
    var releaseTargets := List(Strs(targetList));
    GbprepoUnfold(release, releaseTargets, repos);
    ConvertedNames(release, releaseTargets, repos);
  }

  /** With one targets entry for the release and a list of repositories, the
      conversion is the conversion of those repositories. */
  lemma GbprepoUnfold(release: string, releaseTargets: Value, repos: seq<Value>)
    ensures GbprepoToRosdepData(Dict(map["release-name" := Str(release), "gbp-repos" := List(repos)]),
                                List([Dict(map[release := releaseTargets])]))
            == ConvertRepos(repos, release, releaseTargets, map[])
  {
    SingleTargetsEntry(release, releaseTargets);
  }

  /** Each converted repository is keyed by its name. */
  lemma ConvertedNames(release: string, releaseTargets: Value, repos: seq<Value>)
    requires forall i :: 0 <= i < |repos| ==> ConvertRepo(repos[i], release, releaseTargets).Ok?
    ensures var r := ConvertRepos(repos, release, releaseTargets, map[]);
            r.Ok? && forall k :: k in r.value <==> exists i :: 0 <= i < |repos| && repos[i].entries["name"] == Str(k)
  {
    forall k ensures (exists i :: 0 <= i < |repos| && ConvertRepo(repos[i], release, releaseTargets).value.0 == k)
                 <==> (exists i :: 0 <= i < |repos| && repos[i].entries["name"] == Str(k)) {
      if exists i :: 0 <= i < |repos| && repos[i].entries["name"] == Str(k) {
        var i :| 0 <= i < |repos| && repos[i].entries["name"] == Str(k);
        assert ConvertRepo(repos[i], release, releaseTargets).value.0 == k;
      }
    }
  }

  /** A repository targeting `'all'` gets exactly the release's targets. */
  lemma AllMeansReleaseTargets(release: string, targetList: seq<string>, name: string)
    ensures var repo := Dict(map["name" := Str(name), "target" := Str("all")]);
            var r := ConvertRepo(repo, release, List(Strs(targetList)));
            r.Ok? && r.value.0 == name &&
            forall t :: t in r.value.1.entries[OsUbuntu].entries <==> t in targetList
  {
    var releaseTargets := List(Strs(targetList));
    assert AllStrs(releaseTargets.items);
    forall t ensures Str(t) in Strs(targetList) <==> t in targetList {
      if t in targetList {
        var i :| 0 <= i < |targetList| && targetList[i] == t;
        assert Strs(targetList)[i] == Str(t);
      }
    }
  }
}
