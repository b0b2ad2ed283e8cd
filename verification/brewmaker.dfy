/** src/rosdep2/platforms/brewmaker.py: naming the GitHub tarball of a repository's
    latest upstream release. The tag names come from the GitHub API as the keys of a
    JSON object (the download is a parameter), and `LooseVersion` ordering is the
    parameter `le`. */
module Brewmaker {
  import opened Base
  import opened Strings
  import SourcesList

  const TagPrefix := "upstream/"
  const SshPrefix := "git@github.com:"

  /** `IndexError` from `versions[-1]` on an empty list. */
  datatype IndexError = IndexError

  /** `get_repo_name`: the last path component of the URL with one `.git` removed. */
  function GetRepoName(url: string): (r: string)
    ensures FreeOf(r, {'/'})
    ensures EndsWith(Basename(url), ".git") ==> r + ".git" == Basename(url)
    ensures !EndsWith(Basename(url), ".git") ==> r == Basename(url)
  {
    var name := Basename(url);
    if EndsWith(name, ".git") then
      assert name[..|name| - 4] + ".git" == name;
      name[..|name| - 4]
    else name
  }

  /** The last component after a final '/' is that component. */
  lemma BasenameLast(dir: string, name: string)
    requires FreeOf(name, {'/'})
    ensures Basename(dir + "/" + name) == name
  {
    var p := dir + "/" + name;
    assert p[|dir|] == '/';
    assert forall k :: |dir| < k < |p| ==> p[k] == name[k - |dir| - 1];
    assert RFindChar(p, '/') == |dir|;
    assert p[|dir| + 1..] == name;
  }

  /** A repository URL `<dir>/<name>.git` or `<dir>/<name>` names `name`. */
  lemma RepoNameOfUrl(dir: string, name: string)
    requires FreeOf(name, {'/'})
    ensures GetRepoName(dir + "/" + name + ".git") == name
    ensures !EndsWith(name, ".git") ==> GetRepoName(dir + "/" + name) == name
  {
    var file := name + ".git";
    GitFileFree(name);
    BasenameLast(dir, file);
    assert dir + "/" + file == dir + "/" + name + ".git";
    assert file[|file| - 4..] == ".git";
    BasenameLast(dir, name);
  }

  /** Adding `.git` adds no '/'. */
  lemma GitFileFree(name: string)
    requires FreeOf(name, {'/'})
    ensures FreeOf(name + ".git", {'/'})
  {
    var file := name + ".git";
    forall k | 0 <= k < |file| ensures file[k] !in {'/'} {
      if k < |name| {
        assert file[k] == name[k];
      } else {
        assert file[k] == ".git"[k - |name|];
      }
    }
  }

  /** `get_org_name`: the directory part of the URL's path, without a leading
      `git@github.com:`. A URL `urlparse` rejects is a `ValueError`. */
  function GetOrgName(url: string): (r: Result<string, SourcesList.ValueError>)
    ensures r.Err? <==> SourcesList.SplitUrl(url).Err?
    ensures r.Ok? ==> var dir := Dirname(SourcesList.SplitUrl(url).value.path);
                      (StartsWith(dir, SshPrefix) ==> SshPrefix + r.value == dir) &&
                      (!StartsWith(dir, SshPrefix) ==> r.value == dir)
  {
    match SourcesList.SplitUrl(url)
    case Err(e) => Err(e)
    case Ok(parts) =>
      var dir := Dirname(parts.path);
      if StartsWith(dir, SshPrefix) then
        assert dir == SshPrefix + dir[|SshPrefix|..];
        Ok(dir[|SshPrefix|..])
      else Ok(dir)
  }

  /** The directory of `<dir>/<name>` is `dir` when `dir` does not end in '/'. */
  lemma DirnameLast(dir: string, name: string)
    requires |dir| > 0 && dir[|dir| - 1] != '/' && FreeOf(name, {'/'})
    ensures Dirname(dir + "/" + name) == dir
  {
    var p := dir + "/" + name;
    assert p[|dir|] == '/';
    assert forall k :: |dir| < k < |p| ==> p[k] == name[k - |dir| - 1];
    assert RFindChar(p, '/') == |dir|;
    var head := p[..|dir| + 1];
    assert head == dir + "/";
    assert head[|dir| - 1] != '/';
    assert head[..|head| - 1] == dir;
    assert !(forall k :: 0 <= k < |head| ==> head[k] == '/');
    assert StripTrailingSlashes(dir) == dir;
    assert StripTrailingSlashes(head) == dir;
  }

  /** `<org>/<repo>` holds no query, fragment or parameter delimiter. */
  lemma RemoteFree(org: string, repo: string)
    requires FreeOf(org, {'?', '#', ';'}) && FreeOf(repo, {'?', '#', ';'})
    ensures FreeOf(org + "/" + repo, {'?', '#', ';'})
    ensures FreeOf("/" + org, {'?', '#', ';'})
  {
    var s := org + "/" + repo;
    forall k | 0 <= k < |s| ensures s[k] !in {'?', '#', ';'} {
      if k < |org| {
        assert s[k] == org[k];
      } else if k > |org| {
        assert s[k] == repo[k - |org| - 1];
      }
    }
    assert forall k :: 1 <= k < |org| + 1 ==> ("/" + org)[k] == org[k - 1];
  }

  /** `urlparse` of an HTTPS GitHub URL. */
  lemma HttpsUrlParts(org: string, repo: string)
    requires FreeOf(org, {'?', '#', ';'}) && FreeOf(repo, {'?', '#', ';'})
    ensures SourcesList.SplitUrl("https://github.com/" + org + "/" + repo) ==
            Ok(SourcesList.UrlParts("https", "github.com", "/" + org + "/" + repo))
  {
    RemoteFree(org, repo);
    RemoteFree("/" + org, repo);
    HttpsLiterals();
    SplitUrlComposed("https", "github.com", "/" + org + "/" + repo, "https://github.com/" + org + "/" + repo);
    HttpsRegroup(org, repo);
  }

  /** The scheme and host of an HTTPS GitHub URL. */
  lemma HttpsLiterals()
    ensures Lower("https") == "https" && forall k :: 0 <= k < |"https"| ==> SourcesList.SchemeChar("https"[k])
    ensures FreeOf("github.com", {'/', '?', '#', '[', ']'})
  {
  }

  /** `SplitUrlCompose` for a URL given whole. */
  lemma SplitUrlComposed(scheme: string, host: string, path: string, url: string)
    requires |scheme| > 0 && forall k :: 0 <= k < |scheme| ==> SourcesList.SchemeChar(scheme[k])
    requires FreeOf(host, {'/', '?', '#', '[', ']'})
    requires FreeOf(path, {'?', '#', ';'}) && (path == "" || path[0] == '/')
    requires url == scheme + "://" + host + path
    ensures SourcesList.SplitUrl(url) == Ok(SourcesList.UrlParts(Lower(scheme), host, path))
  {
    SourcesList.SplitUrlCompose(scheme, host, path);
  }

  /** The HTTPS URL as `urlparse` sees it: scheme, `://`, host and path. */
  lemma HttpsRegroup(org: string, repo: string)
    ensures "https" + "://" + "github.com" + ("/" + org + "/" + repo) == "https://github.com/" + org + "/" + repo
  {
  }

  /** `urlparse` finds no scheme in an SSH remote and keeps it whole as the path. */
  lemma SshUrlParts(rest: string)
    requires FreeOf(rest, {'?', '#', ';'})
    ensures SourcesList.SplitUrl(SshPrefix + rest) == Ok(SourcesList.UrlParts("", "", SshPrefix + rest))
  {
    SshFree(rest);
    SshScheme(rest);
    SourcesList.SplitUrlPlain(SshPrefix + rest);
  }

  /** The text before the first `:` of an SSH remote holds `@`, so it is no scheme. */
  lemma SshScheme(rest: string)
    ensures SourcesList.SplitScheme(SshPrefix + rest) == ("", SshPrefix + rest)
    ensures !StartsWith(SshPrefix + rest, "//")
  {
    var url := SshPrefix + rest;
    SshColon(rest);
    assert url[3] == '@';
    assert !SourcesList.SchemeChar(url[3]);
  }

  /** An SSH remote holds no query, fragment or parameter delimiter when its path
      holds none. */
  lemma SshFree(rest: string)
    requires FreeOf(rest, {'?', '#', ';'})
    ensures FreeOf(SshPrefix + rest, {'?', '#', ';'})
  {
    var url := SshPrefix + rest;
    forall k | 0 <= k < |url| ensures url[k] !in {'?', '#', ';'} {
      if k < |SshPrefix| {
        assert url[k] == SshPrefix[k];
      } else {
        assert url[k] == rest[k - |SshPrefix|];
      }
    }
  }

  /** The first `:` of an SSH remote ends its prefix. */
  lemma SshColon(rest: string)
    ensures Find(SshPrefix + rest, ":") == |SshPrefix| - 1
  {
    var url := SshPrefix + rest;
    var n := |SshPrefix|;
    assert OccursAt(url, ":", n - 1) by {
      assert url[n - 1..n] == ":";
    }
    forall k | 0 <= k < n - 1 ensures !OccursAt(url, ":", k) {
      assert url[k] == SshPrefix[k];
    }
  }

  /** Regrouping a four-part concatenation. */
  lemma Regroup(a: string, b: string, c: string, d: string)
    ensures a + b + c + d == a + (b + c + d)
  {
  }

  /** The organisation read from a URL whose parse is known. */
  lemma OrgOfParts(url: string, path: string, dir: string)
    requires SourcesList.SplitUrl(url).Ok? && SourcesList.SplitUrl(url).value.path == path
    requires Dirname(path) == dir
    ensures StartsWith(dir, SshPrefix) ==> GetOrgName(url) == Ok(dir[|SshPrefix|..])
    ensures !StartsWith(dir, SshPrefix) ==> GetOrgName(url) == Ok(dir)
  {
  }

  /** An SSH remote `git@github.com:<org>/<repo>` names `org`. */
  lemma OrgOfSshUrl(org: string, repo: string)
    requires |org| > 0 && FreeOf(org, {'/', '?', '#', ';'}) && FreeOf(repo, {'/', '?', '#', ';'})
    ensures GetOrgName(SshPrefix + org + "/" + repo) == Ok(org)
  {
    var url := SshPrefix + org + "/" + repo;
    var dir := SshPrefix + org;
    SshSplit(org, repo);
    SshDirname(org, repo);
    assert StartsWith(dir, SshPrefix) && dir[|SshPrefix|..] == org;
    OrgOfParts(url, url, dir);
  }

  /** An SSH remote has neither scheme nor network location: all of it is the path. */
  lemma SshSplit(org: string, repo: string)
    requires FreeOf(org, {'/', '?', '#', ';'}) && FreeOf(repo, {'/', '?', '#', ';'})
    ensures var url := SshPrefix + org + "/" + repo;
            SourcesList.SplitUrl(url) == Ok(SourcesList.UrlParts("", "", url))
  {
    RemoteFree(org, repo);
    SshUrlParts(org + "/" + repo);
    Regroup(SshPrefix, org, "/", repo);
  }

  /** The directory of an SSH remote ends at its organisation. */
  lemma SshDirname(org: string, repo: string)
    requires |org| > 0 && FreeOf(org, {'/', '?', '#', ';'}) && FreeOf(repo, {'/', '?', '#', ';'})
    ensures Dirname(SshPrefix + org + "/" + repo) == SshPrefix + org
  {
    var dir := SshPrefix + org;
    assert org[|org| - 1] == dir[|dir| - 1];
    DirnameLast(dir, repo);
  }

  /** An HTTPS URL `https://github.com/<org>/<repo>` gives `/<org>`: the path keeps
      its leading '/', which only the SSH form avoids. */
  lemma OrgOfHttpsUrl(org: string, repo: string)
    requires |org| > 0 && FreeOf(org, {'/', '?', '#', ';'}) && FreeOf(repo, {'/', '?', '#', ';'})
    ensures GetOrgName("https://github.com/" + org + "/" + repo) == Ok("/" + org)
  {
    var url := "https://github.com/" + org + "/" + repo;
    var path := "/" + org + "/" + repo;
    var dir := "/" + org;
    HttpsUrlParts(org, repo);
    assert Dirname(path) == dir by {
      assert org[|org| - 1] == dir[|dir| - 1];
      DirnameLast(dir, repo);
    }
    assert !StartsWith(dir, SshPrefix) by {
      assert dir[0] != SshPrefix[0];
    }
    OrgOfParts(url, path, dir);
  }

  /** `list_tags` after the download: the tags that start with `prefix`, in the
      order the keys came. */
  function ListTags(keys: seq<string>, prefix: string): (r: seq<string>)
    ensures |r| <= |keys|
    ensures forall t :: t in r <==> t in keys && StartsWith(t, prefix)
  {
    if |keys| == 0 then []
    else
      var rest := ListTags(keys[1..], prefix);
      assert forall t :: t in keys <==> t == keys[0] || t in keys[1..];
      if StartsWith(keys[0], prefix) then [keys[0]] + rest else rest
  }

  /** `le` is a total preorder, as `LooseVersion` comparison is. */
  ghost predicate TotalPreorder(le: (string, string) -> bool) {
    && (forall a, b :: le(a, b) || le(b, a))
    && (forall a, b, c :: le(a, b) && le(b, c) ==> le(a, c))
  }

  /** The index `sorted(...)[-1]` picks among the first `n` versions: scanning left to
      right, a version at least as large as the best so far replaces it, because the
      stable sort puts the last of equal versions at the end. */
  function LatestIndex(versions: seq<string>, le: (string, string) -> bool, n: nat): (k: nat)
    requires 0 < n <= |versions|
    ensures k < n
  {
    if n == 1 then 0
    else
      var best := LatestIndex(versions, le, n - 1);
      if le(versions[best], versions[n - 1]) then n - 1 else best
  }

  /** The version picked is a maximum, and every later version is strictly smaller:
      the last of the greatest. */
  lemma {:induction false} LatestIsLastMaximum(versions: seq<string>, le: (string, string) -> bool, n: nat)
    requires 0 < n <= |versions| && TotalPreorder(le)
    ensures var k := LatestIndex(versions, le, n);
            && (forall j :: 0 <= j < n ==> le(versions[j], versions[k]))
            && (forall j :: k < j < n ==> !le(versions[k], versions[j]))
  {
    if n == 1 {
      assert le(versions[0], versions[0]);
    } else {
      LatestIsLastMaximum(versions, le, n - 1);
      var best := LatestIndex(versions, le, n - 1);
      if le(versions[best], versions[n - 1]) {
        assert le(versions[n - 1], versions[n - 1]);
        forall j | 0 <= j < n - 1 ensures le(versions[j], versions[n - 1]) {
          assert le(versions[j], versions[best]);
        }
      } else {
        assert le(versions[n - 1], versions[best]);
      }
    }
  }

  /** The versions of the prefixed tags, with the prefix cut off. */
  function Versions(tags: seq<string>, prefix: string): (r: seq<string>)
    requires forall i :: 0 <= i < |tags| ==> StartsWith(tags[i], prefix)
    ensures |r| == |tags|
    ensures forall i :: 0 <= i < |tags| ==> prefix + r[i] == tags[i]
  {
    if |tags| == 0 then []
    else
      assert StartsWith(tags[0], prefix);
      assert tags[0] == prefix + tags[0][|prefix|..];
      [tags[0][|prefix|..]] + Versions(tags[1..], prefix)
  }

  /** `PATTERN_GITHUB_TARBALL_DOWNLOAD` filled in, with the tag `upstream/<version>`. */
  function TarballUrl(org: string, repo: string, version: string): string {
    "https://github.com/" + org + "/" + repo + "/tarball/" + TagPrefix + version + "/" + repo + "-" + version + ".tar.gz"
  }

  /** Reading the URL back by '/' gives the organisation, the repository and the
      version again. */
  lemma {:induction false} TarballUrlParts(org: string, repo: string, version: string)
    requires FreeOf(org, {'/'}) && FreeOf(repo, {'/'}) && FreeOf(version, {'/'})
    ensures Split(TarballUrl(org, repo, version), '/') ==
            ["https:", "", "github.com", org, repo, "tarball", "upstream", version, repo + "-" + version + ".tar.gz"]
  {
    var parts := ["https:", "", "github.com", org, repo, "tarball", "upstream", version, repo + "-" + version + ".tar.gz"];
    var file := repo + "-" + version + ".tar.gz";
    assert FreeOf(file, {'/'}) by {
      assert forall k :: 0 <= k < |repo| ==> file[k] == repo[k];
      assert forall k :: |repo| + 1 <= k < |repo| + 1 + |version| ==> file[k] == version[k - |repo| - 1];
    }
    assert forall i :: 0 <= i < |parts| ==> FreeOf(parts[i], {'/'});
    JoinNine(parts);
    var head := "https:" + "/" + "" + "/" + "github.com" + "/";
    assert head == "https://github.com/";
    var x := head + org + "/" + repo;
    assert x + "/" + "tarball" + "/" + "upstream" + "/" == x + "/tarball/" + TagPrefix;
    var y := x + "/tarball/" + TagPrefix + version + "/";
    assert y + file == y + repo + "-" + version + ".tar.gz";
    assert Join(parts, '/') == TarballUrl(org, repo, version);
    SplitJoin(parts, '/');
  }

  lemma JoinNine(parts: seq<string>)
    requires |parts| == 9
    ensures Join(parts, '/') == parts[0] + "/" + parts[1] + "/" + parts[2] + "/" + parts[3] + "/" + parts[4] + "/" +
                                parts[5] + "/" + parts[6] + "/" + parts[7] + "/" + parts[8]
  {
    assert Join(parts[..1], '/') == parts[0];
    JoinStep(parts, 1);
    JoinStep(parts, 2);
    JoinStep(parts, 3);
    JoinStep(parts, 4);
    JoinStep(parts, 5);
    JoinStep(parts, 6);
    JoinStep(parts, 7);
    JoinStep(parts, 8);
    assert parts[..9] == parts;
  }

  /** Joining one part more of a list. */
  lemma JoinStep(parts: seq<string>, k: nat)
    requires 1 <= k < |parts|
    ensures Join(parts[..k + 1], '/') == Join(parts[..k], '/') + "/" + parts[k]
  {
    JoinSnoc(parts[..k], parts[k]);
    assert parts[..k] + [parts[k]] == parts[..k + 1];
  }

  /** Joining one more part appends a separator and the part. */
  lemma {:induction false} JoinSnoc(parts: seq<string>, x: string)
    requires |parts| >= 1
    ensures Join(parts + [x], '/') == Join(parts, '/') + "/" + x
  {
    var all := parts + [x];
    if |parts| == 1 {
      assert all[1..] == [x];
    } else {
      assert all[1..] == parts[1..] + [x];
      JoinSnoc(parts[1..], x);
    }
  }

  /** `compute_tarball_url_for_latest`: the tarball of the greatest `upstream/` tag,
      given the keys the API returned; `IndexError` when there is no such tag. */
  function ComputeTarballUrlForLatest(org: string, repo: string, keys: seq<string>, le: (string, string) -> bool)
    : (r: Result<string, IndexError>)
    ensures r.Err? <==> forall t :: t in keys ==> !StartsWith(t, TagPrefix)
    ensures r.Ok? ==> exists t :: t in keys && StartsWith(t, TagPrefix) && r.value == TarballUrl(org, repo, t[|TagPrefix|..])
  {
    var tags := ListTags(keys, TagPrefix);
    if |tags| == 0 then Err(IndexError)
    else
      var versions := Versions(tags, TagPrefix);
      var k := LatestIndex(versions, le, |versions|);
      assert tags[k][|TagPrefix|..] == versions[k];
      Ok(TarballUrl(org, repo, versions[k]))
  }

  /** Under a total preorder the chosen version is at least every tagged version. */
  lemma LatestIsGreatest(org: string, repo: string, keys: seq<string>, le: (string, string) -> bool)
    requires TotalPreorder(le)
    requires exists t :: t in keys && StartsWith(t, TagPrefix)
    ensures exists v :: ComputeTarballUrlForLatest(org, repo, keys, le) == Ok(TarballUrl(org, repo, v)) &&
                        forall t :: t in keys && StartsWith(t, TagPrefix) ==> le(t[|TagPrefix|..], v)
  {
    var tags := ListTags(keys, TagPrefix);
    var versions := Versions(tags, TagPrefix);
    var k := LatestIndex(versions, le, |versions|);
    LatestIsLastMaximum(versions, le, |versions|);
    assert tags[k][|TagPrefix|..] == versions[k];
    assert ComputeTarballUrlForLatest(org, repo, keys, le) == Ok(TarballUrl(org, repo, versions[k]));
    forall t | t in keys && StartsWith(t, TagPrefix) ensures le(t[|TagPrefix|..], versions[k]) {
      var j :| 0 <= j < |tags| && tags[j] == t;
      assert t[|TagPrefix|..] == versions[j];
    }
  }
}
