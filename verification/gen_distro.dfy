/** src/rosinstall_generator/distro.py: released and unreleased package names of a
    wet distribution, the rosinstall entry of a released package (a git checkout of
    its release tag, or a tarball from GitHub, Bitbucket or GitLab), and the
    post-processing of the recursive dependency sets. The distribution file is given
    as data; `rosdistro`'s dependency walkers and `get_release_tag` are parameters. */
module GenDistro {
  import opened Base
  import opened Strings

  /** A release repository of the distribution file. */
  datatype ReleaseRepository = ReleaseRepository(name: string, url: string, version: Option<string>, packageNames: seq<string>)

  /** The distribution: each released package with the name of its repository, in the
      file's order, and each repository's release repository (`None` when it has
      none). */
  datatype Distribution = Distribution(
    releasePackages: seq<(string, string)>,
    repositories: map<string, Option<ReleaseRepository>>)

  datatype Error = KeyError(key: string) | AssertionError(msg: string) | RuntimeError(msg: string) | AttributeError(msg: string)

  /** One rosinstall entry `{vcs: {'local-name': ..., 'uri': ..., 'version': ...}}`. */
  datatype Entry = Entry(vcs: string, localName: string, uri: string, version: string)

  // ---------------------------------------------------------------------------
  // get_package_names

  /** A package of a repository with a released version. */
  predicate IsReleased(d: Distribution, item: (string, string)) {
    item.1 in d.repositories && d.repositories[item.1].Some? && d.repositories[item.1].value.version.Some?
  }

  /** A package of a repository whose release repository has no version. */
  predicate IsUnreleased(d: Distribution, item: (string, string)) {
    item.1 in d.repositories && d.repositories[item.1].Some? && d.repositories[item.1].value.version.None?
  }

  /** `get_package_names`: the released and the unreleased package names, in the
      file's order; a package whose repository has no release repository is in
      neither, and one whose repository is missing raises `KeyError`. */
  function GetPackageNames(d: Distribution): (r: Result<(seq<string>, seq<string>), Error>)
    ensures r.Err? <==> exists i :: 0 <= i < |d.releasePackages| && d.releasePackages[i].1 !in d.repositories
    ensures r.Ok? ==> forall p :: p in r.value.0 <==>
              exists i :: 0 <= i < |d.releasePackages| && d.releasePackages[i].0 == p && IsReleased(d, d.releasePackages[i])
    ensures r.Ok? ==> forall p :: p in r.value.1 <==>
              exists i :: 0 <= i < |d.releasePackages| && d.releasePackages[i].0 == p && IsUnreleased(d, d.releasePackages[i])
  {
    PackageNamesOf(d, d.releasePackages)
  }

  function PackageNamesOf(d: Distribution, items: seq<(string, string)>): (r: Result<(seq<string>, seq<string>), Error>)
    ensures r.Err? <==> exists i :: 0 <= i < |items| && items[i].1 !in d.repositories
    ensures r.Ok? ==> forall p :: p in r.value.0 <==> exists i :: 0 <= i < |items| && items[i].0 == p && IsReleased(d, items[i])
    ensures r.Ok? ==> forall p :: p in r.value.1 <==> exists i :: 0 <= i < |items| && items[i].0 == p && IsUnreleased(d, items[i])
  {
    if |items| == 0 then Ok(([], []))
    else
      var (name, repoName) := items[0];
      assert forall i :: 1 <= i < |items| ==> items[i] == items[1..][i - 1];
      if repoName !in d.repositories then Err(KeyError(repoName))
      else
        match PackageNamesOf(d, items[1..])
        case Err(e) => Err(e)
        case Ok((released, unreleased)) =>
          var repo := d.repositories[repoName];
          if repo.None? then Ok((released, unreleased))
          else if repo.value.version.Some? then Ok(([name] + released, unreleased))
          else Ok((released, [name] + unreleased))
  }

  // ---------------------------------------------------------------------------
  // The git URL pattern of `_generate_rosinstall`

  /** `\w` on ASCII text. */
  predicate WordChar(c: char) {
    'a' <= c <= 'z' || 'A' <= c <= 'Z' || '0' <= c <= '9' || c == '_'
  }

  /** `[\w.-]`, the server's characters. */
  predicate ServerChar(c: char) {
    WordChar(c) || c == '.' || c == '-'
  }

  /** `[\w/-]`, the repository path's characters. */
  predicate PathChar(c: char) {
    WordChar(c) || c == '/' || c == '-'
  }

  /** The three character classes of the pattern. */
  datatype Class = Word | Server | Path

  predicate In(c: char, cls: Class) {
    match cls
    case Word => WordChar(c)
    case Server => ServerChar(c)
    case Path => PathChar(c)
  }

  predicate AllOf(s: string, cls: Class) {
    forall k :: 0 <= k < |s| ==> In(s[k], cls)
  }

  /** The end of the run of `cls` characters starting at `from`. */
  function Span(s: string, from: nat, cls: Class): (k: nat)
    requires from <= |s|
    ensures from <= k <= |s|
    ensures forall j :: from <= j < k ==> In(s[j], cls)
    ensures k < |s| ==> !In(s[k], cls)
    decreases |s| - from
  {
    if from == |s| || !In(s[from], cls) then from else Span(s, from + 1, cls)
  }

  /** A run bounded by a character outside the class, or by the end, is what `Span`
      finds. */
  lemma SpanIs(s: string, from: nat, cls: Class, k: nat)
    requires from <= k <= |s|
    requires forall j :: from <= j < k ==> In(s[j], cls)
    requires k < |s| ==> !In(s[k], cls)
    ensures Span(s, from, cls) == k
  {
  }

  /** What the pattern's first group `(?:\w+:\/\/|git@)` admits. */
  predicate SchemePrefix(p: string) {
    p == "git@" || (|p| > 3 && EndsWith(p, "://") && AllOf(p[..|p| - 3], Word))
  }

  /** Where the pattern's prefix ends, if the URL has one. */
  function PrefixEnd(url: string): (r: Option<nat>)
    ensures r.Some? ==> r.value <= |url| && SchemePrefix(url[..r.value])
  {
    var k := Span(url, 0, Word);
    if k > 0 && OccursAt(url, "://", k) then
      assert url[..k + 3][..k] == url[..k];
      Some(k + 3)
    else if StartsWith(url, "git@") then Some(4)
    else None
  }

  /** A git URL as the pattern reads it: prefix, server, ':' or '/', path, and an
      optional `.git`. */
  function GitUrl(prefix: string, server: string, sep: char, path: string, dotGit: bool): string {
    prefix + server + [sep] + path + (if dotGit then ".git" else "")
  }

  /** The parts the pattern accepts. */
  predicate GitUrlParts(prefix: string, server: string, sep: char, path: string) {
    SchemePrefix(prefix) && |server| > 0 && AllOf(server, Server) && (sep == ':' || sep == '/') && AllOf(path, Path)
  }

  /** `re.match('(?:\w+:\/\/|git@)([\w.-]+)[:/]([\w/-]*)(?:\.git)?$', url)`: the server
      and the repository path, or `None` when the URL does not match. Python's `$`
      also matches just before a final newline, and no group admits a newline, so
      a URL ending in one is read without it. */
  function ParseGitUrl(url: string): (r: Option<(string, string)>)
    ensures r.Some? ==> |r.value.0| > 0 && AllOf(r.value.0, Server) && AllOf(r.value.1, Path)
  {
    if |url| > 0 && url[|url| - 1] == '\n' then MatchToEnd(url[..|url| - 1]) else MatchToEnd(url)
  }

  /** The pattern matched up to the very end of `s`. */
  function MatchToEnd(url: string): (r: Option<(string, string)>)
    ensures r.Some? ==> |r.value.0| > 0 && AllOf(r.value.0, Server) && AllOf(r.value.1, Path)
  {
    match PrefixEnd(url)
    case None => None
    case Some(start) =>
      var s := Span(url, start, Server);
      if s == start || s == |url| || (url[s] != ':' && url[s] != '/') then None
      else
        match RepoPath(url[s + 1..])
        case None => None
        case Some(path) => Some((url[start..s], path))
  }

  /** `([\w/-]*)(?:\.git)?` read to the end: the path, without a final `.git`. */
  function RepoPath(rest: string): (r: Option<string>)
    ensures r.Some? ==> AllOf(r.value, Path)
  {
    if AllOf(rest, Path) then Some(rest)
    else if EndsWith(rest, ".git") && AllOf(rest[..|rest| - 4], Path) then Some(rest[..|rest| - 4])
    else None
  }

  /** A path read from `rest` is all of it or all of it but a final `.git`. */
  lemma RepoPathSound(rest: string)
    requires RepoPath(rest).Some?
    ensures rest == RepoPath(rest).value || rest == RepoPath(rest).value + ".git"
  {
    if !AllOf(rest, Path) {
      assert rest == rest[..|rest| - 4] + ".git";
    }
  }

  /** A path, with or without `.git`, reads back as the path. */
  lemma RepoPathCompose(path: string, dotGit: bool)
    requires AllOf(path, Path)
    ensures RepoPath(path + (if dotGit then ".git" else "")) == Some(path)
  {
    var rest := path + (if dotGit then ".git" else "");
    if dotGit {
      assert rest[|path|] == '.';
      assert !AllOf(rest, Path);
      assert rest[..|rest| - 4] == path;
    } else {
      assert rest == path;
    }
  }

  /** Whatever the pattern matches is a URL of its form, put together from the server
      and path it reports, possibly followed by one newline. */
  lemma ParseGitUrlSound(url: string)
    requires ParseGitUrl(url).Some?
    ensures var (server, path) := ParseGitUrl(url).value;
            exists prefix, sep, dotGit, nl :: GitUrlParts(prefix, server, sep, path) &&
              url == GitUrlLine(prefix, server, sep, path, dotGit, nl)
  {
    var (server, path) := ParseGitUrl(url).value;
    var nl := |url| > 0 && url[|url| - 1] == '\n';
    var body := if nl then url[..|url| - 1] else url;
    assert MatchToEnd(body) == Some((server, path));
    MatchToEndSound(body);
    var prefix, sep, dotGit :| GitUrlParts(prefix, server, sep, path) && body == GitUrl(prefix, server, sep, path, dotGit);
    if nl {
      LastNewline(url);
    } else {
      assert url == body + "";
    }
    assert url == GitUrlLine(prefix, server, sep, path, dotGit, nl);
  }

  lemma LastNewline(s: string)
    requires |s| > 0 && s[|s| - 1] == '\n'
    ensures s == s[..|s| - 1] + "\n"
  {
  }

  /** A git URL, possibly followed by one newline. */
  function GitUrlLine(prefix: string, server: string, sep: char, path: string, dotGit: bool, nl: bool): string {
    GitUrl(prefix, server, sep, path, dotGit) + (if nl then "\n" else "")
  }

  lemma MatchToEndSound(url: string)
    requires MatchToEnd(url).Some?
    ensures var (server, path) := MatchToEnd(url).value;
            exists prefix, sep, dotGit :: GitUrlParts(prefix, server, sep, path) && url == GitUrl(prefix, server, sep, path, dotGit)
  {
    var start := PrefixEnd(url).value;
    var s := Span(url, start, Server);
    var prefix := url[..start];
    var server := url[start..s];
    var rest := url[s + 1..];
    var path := RepoPath(rest).value;
    assert GitUrlParts(prefix, server, url[s], path);
    RepoPathSound(rest);
    var dotGit := rest != path;
    GitUrlAt(url, start, s, path, dotGit);
  }

  /** A URL cut at the end of its prefix and at its separator is the git URL of the
      pieces. */
  lemma GitUrlAt(url: string, start: nat, s: nat, path: string, dotGit: bool)
    requires start <= s < |url| && url[s + 1..] == path + (if dotGit then ".git" else "")
    ensures url == GitUrl(url[..start], url[start..s], url[s], path, dotGit)
  {
    assert url == url[..start] + url[start..s] + [url[s]] + url[s + 1..];
  }

  /** Every URL of the pattern's form is read back into its server and path, with or
      without one final newline. */
  lemma ParseGitUrlCompose(prefix: string, server: string, sep: char, path: string, dotGit: bool)
    requires GitUrlParts(prefix, server, sep, path)
    ensures ParseGitUrl(GitUrl(prefix, server, sep, path, dotGit)) == Some((server, path))
    ensures ParseGitUrl(GitUrl(prefix, server, sep, path, dotGit) + "\n") == Some((server, path))
  {
    var url := GitUrl(prefix, server, sep, path, dotGit);
    MatchToEndCompose(prefix, server, sep, path, dotGit);
    assert url[|url| - 1] != '\n' by {
      if dotGit {
        assert url[|url| - 1] == 't';
      } else if |path| > 0 {
        assert url[|url| - 1] == path[|path| - 1] && In(path[|path| - 1], Path);
      } else {
        assert url[|url| - 1] == sep;
      }
    }
    assert (url + "\n")[..|url|] == url;
  }

  lemma MatchToEndCompose(prefix: string, server: string, sep: char, path: string, dotGit: bool)
    requires GitUrlParts(prefix, server, sep, path)
    ensures MatchToEnd(GitUrl(prefix, server, sep, path, dotGit)) == Some((server, path))
  {
    var url := GitUrl(prefix, server, sep, path, dotGit);
    var rest := path + (if dotGit then ".git" else "");
    assert url == prefix + server + [sep] + rest;
    ServerAndRest(prefix, server, sep, rest);
    RepoPathCompose(path, dotGit);
  }

  /** After the prefix, the server runs up to the separator, and what follows it is the
      rest. */
  lemma ServerAndRest(prefix: string, server: string, sep: char, rest: string)
    requires SchemePrefix(prefix) && |server| > 0 && AllOf(server, Server) && (sep == ':' || sep == '/')
    ensures var url := prefix + server + [sep] + rest;
            var s := |prefix| + |server|;
            && PrefixEnd(url) == Some(|prefix|)
            && Span(url, |prefix|, Server) == s
            && s < |url| && url[s] == sep && url[|prefix|..s] == server && url[s + 1..] == rest
  {
    var url := prefix + server + [sep] + rest;
    assert url == prefix + (server + [sep] + rest);
    PrefixOf(prefix, server + [sep] + rest);
    ServerSpan(prefix, server, sep, rest);
  }

  lemma ServerSpan(prefix: string, server: string, sep: char, rest: string)
    requires AllOf(server, Server) && (sep == ':' || sep == '/')
    ensures var url := prefix + server + [sep] + rest;
            var s := |prefix| + |server|;
            && Span(url, |prefix|, Server) == s
            && s < |url| && url[s] == sep && url[|prefix|..s] == server && url[s + 1..] == rest
  {
    var url := prefix + server + [sep] + rest;
    var start := |prefix|;
    var s := start + |server|;
    assert forall j :: start <= j < s ==> url[j] == server[j - start];
    assert url[s] == sep;
    SpanIs(url, start, Server, s);
  }

  /** The pattern's prefix is found at the head of any URL that starts with one. */
  lemma PrefixOf(prefix: string, rest: string)
    requires SchemePrefix(prefix)
    ensures PrefixEnd(prefix + rest) == Some(|prefix|)
  {
    var url := prefix + rest;
    if prefix == "git@" {
      assert url[3] == '@';
      SpanIs(url, 0, Word, 3);
      assert !OccursAt(url, "://", 3);
      assert url[..4] == "git@";
    } else {
      var k := |prefix| - 3;
      assert forall j :: 0 <= j < k ==> url[j] == prefix[..k][j];
      assert url[k] == ':';
      SpanIs(url, 0, Word, k);
      assert url[k..k + 3] == prefix[k..] == "://";
    }
  }

  // ---------------------------------------------------------------------------
  // _generate_rosinstall

  /** The server keys of the tarball templates, in the order they are tried. */
  const TarServers := ["github", "bitbucket", "gitlab"]

  /** The tarball URL template of a server key, filled in. */
  function TarballUri(key: string, server: string, path: string, tag: string): string {
    if key == "github" then "https://" + server + "/" + path + "/archive/" + tag + ".tar.gz"
    else if key == "bitbucket" then "https://" + server + "/" + path + "/get/" + tag + ".tar.gz"
    else "https://" + server + "/" + path + "/repository/archive.tar.gz?ref=" + tag
  }

  /** The first key the server name contains. */
  function ServerKey(server: string, keys: seq<string>): (r: Option<string>)
    ensures r.None? <==> forall i :: 0 <= i < |keys| ==> !Contains(server, keys[i])
    ensures r.Some? ==> exists i :: 0 <= i < |keys| && keys[i] == r.value && Contains(server, keys[i]) &&
                                    forall j :: 0 <= j < i ==> !Contains(server, keys[j])
  {
    if |keys| == 0 then None
    else if Contains(server, keys[0]) then Some(keys[0])
    else
      var r := ServerKey(server, keys[1..]);
      assert forall i :: 1 <= i < |keys| ==> keys[i] == keys[1..][i - 1];
      if r.Some? then
        var i :| 0 <= i < |keys[1..]| && keys[1..][i] == r.value && Contains(server, keys[1..][i]) &&
                 forall j :: 0 <= j < i ==> !Contains(server, keys[1..][j]);
        assert keys[i + 1] == r.value;
        r
      else r
  }

  /** A tarball's version: the repository's last path component and the tag with every
      '/' replaced by '-'. */
  function TarVersion(path: string, tag: string): (r: string)
    ensures '/' !in r
  {
    var t := ReplaceChar(tag, '/', '-');
    var b := Basename(path);
    assert forall k :: 0 <= k < |b| ==> b[k] != '/';
    var r := b + "-" + t;
    assert forall k :: 0 <= k < |r| ==> r[k] != '/' by {
      forall k | 0 <= k < |r| ensures r[k] != '/' {
        if k < |b| {
          assert r[k] == b[k];
        } else if k > |b| {
          assert r[k] == t[k - |b| - 1];
        }
      }
    }
    r
  }

  /** A tarball is produced when one is asked for, the URL matches the git pattern and
      its server is a known one. */
  predicate TarApplies(url: string, tar: bool) {
    tar && ParseGitUrl(url).Some? && ServerKey(ParseGitUrl(url).value.0, TarServers).Some?
  }

  /** `vcs_type or 'git'`. */
  function VcsOr(vcsType: Option<string>): (r: string)
    ensures r != ""
  {
    if vcsType.Some? && vcsType.value != "" then vcsType.value else "git"
  }

  /** `_generate_rosinstall`: a tarball entry of a known server when a tarball is asked
      for and the URL can be read; otherwise (also as the fallback) a checkout of the
      tag with the given or the git tool. */
  function GenerateEntry(localName: string, url: string, releaseTag: string, tar: bool, vcsType: Option<string>): (r: Entry)
    ensures r.localName == localName
    ensures TarApplies(url, tar) ==>
              var (server, path) := ParseGitUrl(url).value;
              r == Entry("tar", localName, TarballUri(ServerKey(server, TarServers).value, server, path, releaseTag),
                         TarVersion(path, releaseTag))
    ensures !TarApplies(url, tar) ==> r == Entry(VcsOr(vcsType), localName, url, releaseTag)
  {
    if tar then
      match ParseGitUrl(url)
      case Some((server, path)) =>
        (match ServerKey(server, TarServers)
         case Some(key) => Entry("tar", localName, TarballUri(key, server, path, releaseTag), TarVersion(path, releaseTag))
         case None => Entry(VcsOr(vcsType), localName, url, releaseTag))
      case None => Entry(VcsOr(vcsType), localName, url, releaseTag)
    else Entry(VcsOr(vcsType), localName, url, releaseTag)
  }

  /** Without a tarball request, or for a URL the pattern does not read, the entry is a
      git checkout of the tag at the URL. */
  lemma CheckoutFallback(localName: string, url: string, releaseTag: string, tar: bool)
    requires !tar || ParseGitUrl(url).None?
    ensures GenerateEntry(localName, url, releaseTag, tar, None) == Entry("git", localName, url, releaseTag)
  {
  }

  // ---------------------------------------------------------------------------
  // _generate_rosinstall_for_package and generate_rosinstall

  /** The repository of a released package: the first entry for it. */
  function RepositoryOf(items: seq<(string, string)>, pkg: string): (r: Option<string>)
    ensures r.None? <==> forall i :: 0 <= i < |items| ==> items[i].0 != pkg
    ensures r.Some? ==> exists i :: 0 <= i < |items| && items[i] == (pkg, r.value)
  {
    if |items| == 0 then None
    else if items[0].0 == pkg then Some(items[0].1)
    else
      assert forall i :: 1 <= i < |items| ==> items[i] == items[1..][i - 1];
      var r := RepositoryOf(items[1..], pkg);
      assert r.Some? ==> exists i :: 0 <= i < |items| && items[i] == (pkg, r.value) by {
        if r.Some? {
          var i :| 0 <= i < |items[1..]| && items[1..][i] == (pkg, r.value);
          assert items[i + 1] == (pkg, r.value);
        }
      }
      r
  }

  /** The `local-name` of a package: its own name when the workspace is flat or the
      repository releases only it, else `<repository>/<package>`. */
  function LocalName(pkg: string, repo: ReleaseRepository, flat: bool): (r: string)
    ensures EndsWith(r, pkg)
    ensures r == pkg <==> flat || repo.packageNames == [pkg]
    ensures r != pkg ==> r == repo.name + "/" + pkg
  {
    if !flat && repo.packageNames != [pkg] then
      var r := repo.name + "/" + pkg;
      assert r[|r| - |pkg|..] == pkg;
      r
    else pkg
  }

  /** The message of the version assertion, with the source's stray quote. */
  function NoVersion(pkg: string): string {
    "Package \"" + pkg + "\" does not have a version\""
  }

  /** `_generate_rosinstall_for_package`: `KeyError` for an unknown package or
      repository, `AssertionError` when the repository has no release repository or
      no version; otherwise the entry of the package's release tag (`tagOf` stands for
      `get_release_tag`). */
  function GenerateForPackage(d: Distribution, tagOf: (ReleaseRepository, string) -> string, pkg: string, flat: bool, tar: bool)
    : (r: Result<Entry, Error>)
    ensures RepositoryOf(d.releasePackages, pkg).None? ==> r == Err(KeyError(pkg))
    ensures r.Ok? <==> var rn := RepositoryOf(d.releasePackages, pkg);
                       rn.Some? && rn.value in d.repositories && d.repositories[rn.value].Some? &&
                       d.repositories[rn.value].value.version.Some?
    ensures r.Ok? ==> var repo := d.repositories[RepositoryOf(d.releasePackages, pkg).value].value;
                      r.value == GenerateEntry(LocalName(pkg, repo, flat), repo.url, tagOf(repo, pkg), tar, None)
  {
    match RepositoryOf(d.releasePackages, pkg)
    case None => Err(KeyError(pkg))
    case Some(repoName) =>
      if repoName !in d.repositories then Err(KeyError(repoName))
      else
        var repo := d.repositories[repoName];
        if repo.None? || repo.value.version.None? then Err(AssertionError(NoVersion(pkg)))
        else Ok(GenerateEntry(LocalName(pkg, repo.value, flat), repo.value.url, tagOf(repo.value, pkg), tar, None))
  }

  /** The loop of `generate_rosinstall` for any per-package generator: the entries in
      the order given, or the first failure. */
  function EachEntry(gen: string -> Result<Entry, Error>, names: seq<string>): (r: Result<seq<Entry>, Error>)
    ensures r.Ok? <==> forall i :: 0 <= i < |names| ==> gen(names[i]).Ok?
    ensures r.Ok? ==> |r.value| == |names| && forall i :: 0 <= i < |names| ==> r.value[i] == gen(names[i]).value
    ensures r.Err? ==> exists i :: 0 <= i < |names| && gen(names[i]).Err? && r.error == gen(names[i]).error
  {
    if |names| == 0 then Ok([])
    else
      assert forall i :: 1 <= i < |names| ==> names[i] == names[1..][i - 1];
      match gen(names[0])
      case Err(e) => Err(e)
      case Ok(entry) =>
        var rest := EachEntry(gen, names[1..]);
        if rest.Err? then
          assert exists i :: 0 <= i < |names| && gen(names[i]).Err? && rest.error == gen(names[i]).error by {
            var i :| 0 <= i < |names[1..]| && gen(names[1..][i]).Err? && rest.error == gen(names[1..][i]).error;
            assert names[i + 1] == names[1..][i];
          }
          Err(rest.error)
        else Ok([entry] + rest.value)
  }

  /** `generate_rosinstall`: the packages' entries concatenated in the order given; the
      first failure is raised. */
  function GenerateRosinstall(d: Distribution, tagOf: (ReleaseRepository, string) -> string, names: seq<string>, flat: bool, tar: bool)
    : (r: Result<seq<Entry>, Error>)
    ensures r.Ok? <==> forall i :: 0 <= i < |names| ==> GenerateForPackage(d, tagOf, names[i], flat, tar).Ok?
    ensures r.Ok? ==> |r.value| == |names| &&
                      forall i :: 0 <= i < |names| ==> r.value[i] == GenerateForPackage(d, tagOf, names[i], flat, tar).value
    ensures r.Err? ==> exists i :: 0 <= i < |names| && GenerateForPackage(d, tagOf, names[i], flat, tar).Err? &&
                                  r.error == GenerateForPackage(d, tagOf, names[i], flat, tar).error
  {
    EachEntry(n => GenerateForPackage(d, tagOf, n, flat, tar), names)
  }

  // ---------------------------------------------------------------------------
  // The tarball examples

  /** A string lacking a character of `sub` does not contain `sub`. */
  lemma MissingChar(s: string, sub: string, c: char)
    requires c in sub && c !in s
    ensures !Contains(s, sub)
  {
    ContainsChars(s, sub);
  }

  /** Every character of a contained string occurs in the containing one. */
  lemma ContainsChars(s: string, sub: string)
    ensures Contains(s, sub) ==> forall c :: c in sub ==> c in s
  {
    if Contains(s, sub) {
      var k := Find(s, sub);
      assert s[k..k + |sub|] == sub;
      forall c | c in sub ensures c in s {
        var j :| 0 <= j < |sub| && sub[j] == c;
        assert s[k + j] == c;
      }
    }
  }

  /** A server named "gitlab..." is a GitLab server. */
  lemma GitlabKey(server: string)
    requires StartsWith(server, "gitlab") && 'h' !in server && 'u' !in server
    ensures ServerKey(server, TarServers) == Some("gitlab")
  {
    MissingChar(server, "github", 'h');
    MissingChar(server, "bitbucket", 'u');
    assert OccursAt(server, "gitlab", 0);
    assert ServerKey(server, ["gitlab"]) == Some("gitlab");
    assert ["bitbucket", "gitlab"][1..] == ["gitlab"];
    assert ServerKey(server, ["bitbucket", "gitlab"]) == Some("gitlab");
    assert TarServers[1..] == ["bitbucket", "gitlab"];
  }

  /** A server lacking a letter of each key matches no template. */
  lemma UnknownKey(server: string)
    requires 'h' !in server && 'u' !in server && 'g' !in server
    ensures ServerKey(server, TarServers).None?
  {
    MissingChar(server, "github", 'h');
    MissingChar(server, "bitbucket", 'u');
    MissingChar(server, "gitlab", 'g');
  }

  /** The entry of a release repository whose URL is built from its parts, on a
      server whose first matching key is `key`. */
  lemma TarEntryOfParts(localName: string, prefix: string, server: string, sep: char, path: string, tag: string, key: string)
    requires GitUrlParts(prefix, server, sep, path)
    requires ServerKey(server, TarServers) == Some(key)
    ensures GenerateEntry(localName, GitUrl(prefix, server, sep, path, true), tag, true, None)
            == Entry("tar", localName, TarballUri(key, server, path, tag), TarVersion(path, tag))
  {
    ParseGitUrlCompose(prefix, server, sep, path, true);
  }

  /** The GitLab host of `test_generate_tar_from_ssh` and its repository path. */
  lemma ExampleGitlabServer()
    ensures AllOf("example/riverdale-release", Path) && AllOf("gitlab.example.com", Server)
    ensures ServerKey("gitlab.example.com", TarServers) == Some("gitlab")
  {
    ExampleGitlabChars();
    ExampleGitlabLetters();
    GitlabKey("gitlab.example.com");
  }

  /** Their characters are all allowed. */
  lemma ExampleGitlabChars()
    ensures AllOf("example/riverdale-release", Path) && AllOf("gitlab.example.com", Server)
  {
    assert AllOf("example/riverdale-release", Path);
  }

  /** The letters that rule out the GitHub and Bitbucket templates. */
  lemma ExampleGitlabLetters()
    ensures StartsWith("gitlab.example.com", "gitlab") && 'h' !in "gitlab.example.com" && 'u' !in "gitlab.example.com"
  {
  }

  /** A GitHub release repository gives a GitHub archive of the release tag: the
      case `test_generate_tar` checks for `archie`. */
  lemma TarballFromGithub()
    ensures GenerateEntry("archie", "https://" + "github.com" + "/" + "example/riverdale-release" + ".git",
                          "release/indigo/archie/1.2.3-0", true, None).uri
            == "https://" + "github.com" + "/" + "example/riverdale-release" + "/archive/" + "release/indigo/archie/1.2.3-0" + ".tar.gz"
  {
    var path := "example/riverdale-release";
    var server := "github.com";
    assert AllOf(path, Path);
    assert AllOf(server, Server);
    assert "https://"[..5] == "https";
    assert OccursAt(server, "github", 0);
    TarEntryOfParts("archie", "https://", server, '/', path, "release/indigo/archie/1.2.3-0", "github");
  }

  /** An SSH remote on a GitLab server gives a GitLab archive: the case
      `test_generate_tar_from_ssh` checks. */
  lemma TarballFromGitlabSsh()
    ensures GenerateEntry("archie", "git@" + "gitlab.example.com" + ":" + "example/riverdale-release" + ".git",
                          "release/indigo/archie/1.2.3-0", true, None).uri
            == "https://" + "gitlab.example.com" + "/" + "example/riverdale-release" + "/repository/archive.tar.gz?ref="
               + "release/indigo/archie/1.2.3-0"
  {
    var path := "example/riverdale-release";
    var server := "gitlab.example.com";
    ExampleGitlabServer();
    TarEntryOfParts("archie", "git@", server, ':', path, "release/indigo/archie/1.2.3-0", "gitlab");
  }

  /** The entry of a release repository on a server no template knows: a checkout
      of the tag with the default VCS. */
  lemma FallbackOfParts(localName: string, prefix: string, server: string, sep: char, path: string, tag: string)
    requires GitUrlParts(prefix, server, sep, path)
    requires ServerKey(server, TarServers).None?
    ensures GenerateEntry(localName, GitUrl(prefix, server, sep, path, true), tag, true, None)
            == Entry("git", localName, GitUrl(prefix, server, sep, path, true), tag)
  {
    ParseGitUrlCompose(prefix, server, sep, path, true);
  }

  /** A server none of the templates knows falls back to a git checkout of the tag:
      the first case of `test_generate_tar`, on the test distribution's host. */
  lemma NoTarballForUnknownServer()
    ensures var url := "https://" + "example.com" + "/" + "riverdale-release" + ".git";
            GenerateEntry("archie", url, "release/indigo/archie/1.2.3-0", true, None)
            == Entry("git", "archie", url, "release/indigo/archie/1.2.3-0")
  {
    ExampleServer();
    FallbackOfParts("archie", "https://", "example.com", '/', "riverdale-release", "release/indigo/archie/1.2.3-0");
  }

  /** The `example.com` host of the test distribution and its repository path. */
  lemma ExampleServer()
    ensures GitUrlParts("https://", "example.com", '/', "riverdale-release")
    ensures ServerKey("example.com", TarServers).None?
  {
    ExampleParts();
    ExampleLetters();
    UnknownKey("example.com");
  }

  /** Their characters are all allowed. */
  lemma ExampleParts()
    ensures GitUrlParts("https://", "example.com", '/', "riverdale-release")
  {
    assert AllOf("riverdale-release", Path);
    assert AllOf("example.com", Server);
    assert "https://"[..5] == "https";
  }

  /** The letters that rule out every template. */
  lemma ExampleLetters()
    ensures 'h' !in "example.com" && 'u' !in "example.com" && 'g' !in "example.com"
  {
  }

  // ---------------------------------------------------------------------------
  // get_recursive_dependencies, get_recursive_dependencies_on

  /** A dependency walker: the recursive dependencies of a package, skipping the
      ignored packages, or the message of the `AssertionError` it raises. */
  type Walker = (string, set<string>) -> Result<set<string>, string>

  /** The elements of a sequence. */
  function Elements(s: seq<string>): (r: set<string>)
    ensures forall x :: x in r <==> x in s
  {
    set x | x in s
  }

  function FetchFailed(pkg: string, msg: string): string {
    "Failed to fetch recursive dependencies of package '" + pkg + "': " + msg
  }

  /** The loop over the requested packages: each walk ignores what has been
      collected so far and the excludes, and a failing walk ends the loop. */
  function Collect(walk: Walker, names: seq<string>, excludes: set<string>, acc: set<string>): (r: Result<set<string>, Error>)
    ensures r.Ok? ==> acc <= r.value
    ensures r.Err? ==> exists i, m :: 0 <= i < |names| && r.error == RuntimeError(FetchFailed(names[i], m))
    decreases |names|
  {
    if |names| == 0 then Ok(acc)
    else
      match walk(names[0], acc + excludes)
      case Err(m) => Err(RuntimeError(FetchFailed(names[0], m)))
      case Ok(deps) =>
        var r := Collect(walk, names[1..], excludes, acc + deps);
        assert r.Err? ==> exists i, m :: 0 <= i < |names| && r.error == RuntimeError(FetchFailed(names[i], m)) by {
          if r.Err? {
            var i, m :| 0 <= i < |names[1..]| && r.error == RuntimeError(FetchFailed(names[1..][i], m));
            assert names[1..][i] == names[i + 1];
          }
        }
        r
  }

  /** `get_recursive_dependencies`: the union of the walks of the requested packages,
      less the requested packages themselves. */
  function GetRecursiveDependencies(walk: Walker, names: seq<string>, excludes: set<string>): (r: Result<set<string>, Error>)
    ensures r.Ok? ==> forall n :: n in names ==> n !in r.value
    ensures r.Err? ==> exists i, m :: 0 <= i < |names| && r.error == RuntimeError(FetchFailed(names[i], m))
  {
    match Collect(walk, names, excludes, {})
    case Err(e) => Err(e)
    case Ok(deps) => Ok(deps - Elements(names))
  }

  /** A walker that honours its ignore set: what it returns avoids the ignored
      packages. */
  ghost predicate Honours(walk: Walker) {
    forall n, ignore :: walk(n, ignore).Ok? ==> walk(n, ignore).value !! ignore
  }

  /** A walker whose ignore set only filters its answer: the same success or failure
      as with nothing ignored, and the unfiltered answer less the ignored packages. */
  ghost predicate Filters(walk: Walker) {
    forall n, ignore :: walk(n, ignore) == if walk(n, {}).Ok? then Ok(walk(n, {}).value - ignore) else walk(n, {})
  }

  /** The reference definition: the union of the unfiltered walks, failing at the
      first package whose walk fails. */
  ghost function Reach(walk: Walker, names: seq<string>): Result<set<string>, Error>
    decreases |names|
  {
    if |names| == 0 then Ok({})
    else
      match walk(names[0], {})
      case Err(m) => Err(RuntimeError(FetchFailed(names[0], m)))
      case Ok(deps) =>
        match Reach(walk, names[1..])
        case Err(e) => Err(e)
        case Ok(rest) => Ok(deps + rest)
  }

  /** An honouring walker never returns an excluded package. */
  lemma {:induction false} CollectAvoidsExcludes(walk: Walker, names: seq<string>, excludes: set<string>, acc: set<string>)
    requires Honours(walk) && acc !! excludes
    ensures Collect(walk, names, excludes, acc).Ok? ==> Collect(walk, names, excludes, acc).value !! excludes
    decreases |names|
  {
    if |names| > 0 {
      var w := walk(names[0], acc + excludes);
      if w.Ok? {
        assert w.value !! acc + excludes;
        CollectAvoidsExcludes(walk, names[1..], excludes, acc + w.value);
      }
    }
  }

  /** With an honouring walker, no excluded package is in the dependencies. */
  lemma RecursiveDependenciesAvoidExcludes(walk: Walker, names: seq<string>, excludes: set<string>)
    requires Honours(walk)
    ensures GetRecursiveDependencies(walk, names, excludes).Ok? ==> GetRecursiveDependencies(walk, names, excludes).value !! excludes
  {
    CollectAvoidsExcludes(walk, names, excludes, {});
  }

  /** Ignoring what has been collected already changes nothing: the loop computes the
      union of the unfiltered walks less the excludes. */
  lemma {:induction false} CollectIsReach(walk: Walker, names: seq<string>, excludes: set<string>, acc: set<string>)
    requires Filters(walk)
    ensures Collect(walk, names, excludes, acc) ==
            match Reach(walk, names)
            case Err(e) => Err(e)
            case Ok(u) => Ok(acc + (u - excludes))
    decreases |names|
  {
    if |names| > 0 {
      var w := walk(names[0], acc + excludes);
      var w0 := walk(names[0], {});
      assert w == if w0.Ok? then Ok(w0.value - (acc + excludes)) else w0;
      if w0.Ok? {
        var d := w0.value;
        var acc' := acc + w.value;
        assert Collect(walk, names, excludes, acc) == Collect(walk, names[1..], excludes, acc');
        CollectIsReach(walk, names[1..], excludes, acc');
        match Reach(walk, names[1..])
        case Err(e) =>
          assert Reach(walk, names) == Err(e);
        case Ok(rest) =>
          assert Reach(walk, names) == Ok(d + rest);
          assert acc' + (rest - excludes) == acc + ((d + rest) - excludes);
      } else {
        assert Collect(walk, names, excludes, acc) == Err(RuntimeError(FetchFailed(names[0], w0.error)));
        assert Reach(walk, names) == Err(RuntimeError(FetchFailed(names[0], w0.error)));
      }
    } else {
      assert acc + ({} - excludes) == acc;
    }
  }

  /** `get_recursive_dependencies` against the reference definition. */
  lemma RecursiveDependenciesAreReach(walk: Walker, names: seq<string>, excludes: set<string>)
    requires Filters(walk)
    ensures GetRecursiveDependencies(walk, names, excludes) ==
            match Reach(walk, names)
            case Err(e) => Err(e)
            case Ok(u) => Ok(u - excludes - Elements(names))
  {
    CollectIsReach(walk, names, excludes, {});
    match Reach(walk, names)
    case Err(e) =>
    case Ok(u) =>
      assert Collect(walk, names, excludes, {}) == Ok({} + (u - excludes));
      assert ({} + (u - excludes)) - Elements(names) == u - excludes - Elements(names);
  }

  /** The loop of `get_recursive_dependencies_on`: as `Collect`, except that the
      `AssertionError` of a failing walk is not caught and ends the loop as it is. */
  function CollectOn(walkOn: Walker, names: seq<string>, excludes: set<string>, acc: set<string>)
    : (r: Result<set<string>, Error>)
    ensures r.Ok? ==> acc <= r.value
    ensures r.Err? ==> r.error.AssertionError?
    decreases |names|
  {
    if |names| == 0 then Ok(acc)
    else
      match walkOn(names[0], acc + excludes)
      case Err(m) => Err(AssertionError(m))
      case Ok(deps) => CollectOn(walkOn, names[1..], excludes, acc + deps)
  }

  /** Both loops collect the same packages and stop at the same walk: where `Collect`
      wraps the walker's message into a `RuntimeError`, `CollectOn` raises it bare. */
  lemma {:induction false} CollectOnIsCollect(walk: Walker, names: seq<string>, excludes: set<string>, acc: set<string>)
    ensures Collect(walk, names, excludes, acc).Ok? ==> CollectOn(walk, names, excludes, acc) == Collect(walk, names, excludes, acc)
    ensures Collect(walk, names, excludes, acc).Err? ==>
              CollectOn(walk, names, excludes, acc).Err? &&
              exists i :: 0 <= i < |names| &&
                Collect(walk, names, excludes, acc).error ==
                RuntimeError(FetchFailed(names[i], CollectOn(walk, names, excludes, acc).error.msg))
    decreases |names|
  {
    if |names| > 0 {
      match walk(names[0], acc + excludes)
      case Err(m) =>
      case Ok(deps) =>
        CollectOnIsCollect(walk, names[1..], excludes, acc + deps);
        if Collect(walk, names, excludes, acc).Err? {
          var i :| 0 <= i < |names[1..]| &&
            Collect(walk, names[1..], excludes, acc + deps).error ==
            RuntimeError(FetchFailed(names[1..][i], CollectOn(walk, names[1..], excludes, acc + deps).error.msg));
          assert names[1..][i] == names[i + 1];
        }
    }
  }

  /** `get_recursive_dependencies_on`: with a non-empty `limit`, every released
      package outside the limit and the requested ones is excluded as well, which
      needs the package names of the distribution; an `AssertionError` of the
      reverse walker is not caught. */
  function GetRecursiveDependenciesOn(walkOn: Walker, d: Distribution, names: seq<string>, excludes: set<string>,
                                      limit: set<string>): (r: Result<set<string>, Error>)
    ensures r.Err? ==> (limit != {} && GetPackageNames(d).Err? && r == Err(GetPackageNames(d).error)) ||
                       r.error.AssertionError?
    ensures limit == {} && (forall n, ignore :: walkOn(n, ignore).Ok?) ==> r.Ok?
    ensures r.Ok? ==> forall n :: n in names ==> n !in r.value
  {
    var excluded :=
      if limit == {} then Ok(excludes)
      else match GetPackageNames(d)
           case Err(e) => Err(e)
           case Ok((released, _)) => Ok(excludes + (Elements(released) - limit - Elements(names)));
    match excluded
    case Err(e) => Err(e)
    case Ok(ex) =>
      CollectTotal(walkOn, names, ex, {});
      match CollectOn(walkOn, names, ex, {})
      case Err(e) => Err(e)
      case Ok(deps) => Ok(deps - Elements(names))
  }

  /** A walker that never fails lets both loops finish. */
  lemma {:induction false} CollectTotal(walk: Walker, names: seq<string>, excludes: set<string>, acc: set<string>)
    ensures (forall n, ignore :: walk(n, ignore).Ok?) ==>
              Collect(walk, names, excludes, acc).Ok? && CollectOn(walk, names, excludes, acc).Ok?
    decreases |names|
  {
    if |names| > 0 && forall n, ignore :: walk(n, ignore).Ok? {
      CollectTotal(walk, names[1..], excludes, acc + walk(names[0], acc + excludes).value);
    }
  }

  /** Without a limit, the reverse walk collects what the forward loop collects from
      the same walker, and fails exactly when it does. */
  lemma RecursiveDependenciesOnWithoutLimit(walkOn: Walker, d: Distribution, names: seq<string>, excludes: set<string>)
    ensures var r := GetRecursiveDependenciesOn(walkOn, d, names, excludes, {});
            var f := GetRecursiveDependencies(walkOn, names, excludes);
            (r.Ok? <==> f.Ok?) && (r.Ok? ==> r == f) && (r.Err? ==> r.error.AssertionError?)
  {
    CollectOnIsCollect(walkOn, names, excludes, {});
  }

  /** With a limit and a reverse walker that honours its ignore set, every released
      package among the results lies within the limit. */
  lemma RecursiveDependenciesOnWithinLimit(walkOn: Walker, d: Distribution, names: seq<string>, excludes: set<string>,
                                           limit: set<string>)
    requires Honours(walkOn)
    requires limit != {} && GetPackageNames(d).Ok?
    ensures var r := GetRecursiveDependenciesOn(walkOn, d, names, excludes, limit);
            r.Ok? ==> forall p :: p in r.value && p in GetPackageNames(d).value.0 ==> p in limit
  {
    var released := GetPackageNames(d).value.0;
    var ex := excludes + (Elements(released) - limit - Elements(names));
    CollectOnIsCollect(walkOn, names, ex, {});
    CollectAvoidsExcludes(walkOn, names, ex, {});
  }
}
