/** src/rosdep2/platforms/debian.py: the apt installer. Detection asks `dpkg-query`
    which packages are installed and, for the rest, asks `apt-cache showpkg` whether
    they are virtual packages with an installed provider. The install command is one
    `apt-get install` per package, or a choice of commands for a virtual package.

    The two shell commands are an `AptSystem`: their output as a function of the
    package arguments. The nested `dpkg_detect` on a virtual package's providers
    recurses; `depth` is the interpreter's remaining recursion budget, and running
    out of it is Python's `RecursionError`. */
module Debian {
  import opened Base
  import opened Strings
  import Seqs
  import Installers
  import opened Platforms

  const AptInstaller := "apt"
  const OsDebian := "debian"
  const OsUbuntu := "ubuntu"
  const OsElementary := "elementary"
  const OsLinaro := "linaro"
  const OsMx := "mx"
  const OsPop := "pop"
  const OsRaspbian := "raspbian"
  const OsZorin := "zorin"

  /** `register_debian` and `register_ubuntu`: apt, pip, gem, npm and source, with
      apt as the default. */
  function Family(os: string): Platform {
    Platform(os, [AptInstaller, "pip", "gem", "npm", "source"], d => AptInstaller)
  }

  /** The version key of Debian and Ubuntu is the codename. */
  function VersionKey(d: Installers.OsDetect): string {
    d.codename
  }

  /** `register_mx`: the text between `(` and `)` of os-release's `VERSION`, with
      Python's slicing when either is missing. */
  function MxVersion(version: string): (r: string)
    ensures |r| <= |version|
  {
    PySlice(version, PyFind(version, '(') + 1, PyFind(version, ')'))
  }

  /** For a version of the form `a(b)c` with no parenthesis before `)` except the
      one opening `b`, the MX version is `b`. */
  lemma MxVersionParens(a: string, b: string, c: string)
    requires '(' !in a && ')' !in a && '(' !in b && ')' !in b
    ensures MxVersion(a + "(" + b + ")" + c) == b
  {
    var v := a + "(" + b + ")" + c;
    assert v == a + ['('] + (b + ")" + c);
    PyFindAt(a, '(', b + ")" + c);
    assert v == (a + "(" + b) + [')'] + c;
    PyFindAt(a + "(" + b, ')', c);
    assert v[|a| + 1..|a| + 1 + |b|] == b;
  }

  /** The OS each alias stands for. */
  function AliasOf(name: string): Option<string> {
    if name in {OsElementary, OsLinaro, OsPop, OsZorin} then Some(OsUbuntu)
    else if name in {OsMx, OsRaspbian} then Some(OsDebian)
    else None
  }

  /** The first three aliases of `register_platforms`: Elementary, Linaro and MX. */
  function FirstAliases(c: Installers.Context, osReleaseVersion: string): (r: Installers.Context)
    ensures r.installers == c.installers && r.osInstallers == c.osInstallers && r.defaults == c.defaults
    ensures r.detect == c.detect && r.versionTypes == c.versionTypes
    ensures c.osOverride.Some? || Installers.GetOsNameAndVersion(c).0 !in {OsElementary, OsLinaro, OsMx} ==> r == c
    ensures c.osOverride.None? && c.detect.name in {OsElementary, OsLinaro, OsMx} ==>
              && r.osOverride.Some?
              && Installers.GetOsNameAndVersion(r) ==
                   (AliasOf(c.detect.name).value, if c.detect.name == OsMx then MxVersion(osReleaseVersion) else c.detect.codename)
  {
    var codename := c.detect.codename;
    var c1 := Alias(c, OsElementary, OsUbuntu, codename);
    var c2 := Alias(c1, OsLinaro, OsUbuntu, codename);
    Alias(c2, OsMx, OsDebian, MxVersion(osReleaseVersion))
  }

  /** The last three aliases: Pop!, Raspbian and Zorin. */
  function LastAliases(c: Installers.Context): (r: Installers.Context)
    ensures r.installers == c.installers && r.osInstallers == c.osInstallers && r.defaults == c.defaults
    ensures c.osOverride.Some? || Installers.GetOsNameAndVersion(c).0 !in {OsPop, OsRaspbian, OsZorin} ==> r == c
    ensures c.osOverride.None? && c.detect.name in {OsPop, OsRaspbian, OsZorin} ==>
              Installers.GetOsNameAndVersion(r) == (AliasOf(c.detect.name).value, c.detect.codename)
  {
    var codename := c.detect.codename;
    var c4 := Alias(c, OsPop, OsUbuntu, codename);
    var c5 := Alias(c4, OsRaspbian, OsDebian, codename);
    Alias(c5, OsZorin, OsUbuntu, codename)
  }

  /** The aliases of `register_platforms`, in its order: Elementary, Linaro, MX, Pop!,
      Raspbian and Zorin. All but MX keep the detected codename. */
  function RegisterAliases(c: Installers.Context, osReleaseVersion: string): (r: Installers.Context)
    ensures r.installers == c.installers && r.osInstallers == c.osInstallers && r.defaults == c.defaults
    ensures c.osOverride.Some? || AliasOf(Installers.GetOsNameAndVersion(c).0).None? ==> r == c
    ensures c.osOverride.None? && AliasOf(c.detect.name).Some? ==>
              Installers.GetOsNameAndVersion(r) ==
                (AliasOf(c.detect.name).value, if c.detect.name == OsMx then MxVersion(osReleaseVersion) else c.detect.codename)
  {
    LastAliases(FirstAliases(c, osReleaseVersion))
  }

  /** `register_platforms`: Debian and Ubuntu, then the aliases. */
  function RegisterPlatforms(c: Installers.Context, osReleaseVersion: string): (r: Result<Installers.Context, Installers.Error>)
    requires Installers.Valid(c)
    ensures (forall k :: k in Family(OsDebian).installers ==> k in c.installers) ==> r.Ok?
    ensures r.Ok? ==> Installers.Valid(r.value)
    ensures r.Ok? ==> Installers.GetDefaultOsInstallerKey(r.value, OsDebian) == Ok(Some(AptInstaller))
    ensures r.Ok? ==> Installers.GetDefaultOsInstallerKey(r.value, OsUbuntu) == Ok(Some(AptInstaller))
  {
    var d := Register(c, Family(OsDebian));
    if d.Err? then d
    else
      var u := Register(d.value, Family(OsUbuntu));
      if u.Err? then u
      else
        var r := RegisterAliases(u.value, osReleaseVersion);
        assert Installers.GetDefaultOsInstallerKey(r, OsDebian) == Installers.GetDefaultOsInstallerKey(u.value, OsDebian);
        Ok(r)
  }

  // ---------------------------------------------------------------------------
  // dpkg_detect

  /** The output of the two commands, as functions of their package arguments. */
  datatype AptSystem = AptSystem(dpkgQuery: seq<string> -> string, showpkg: seq<string> -> string)

  datatype DetectError = KeyError(key: string) | RecursionError

  /** The package name of a request, without a `=version` lock. */
  function LockKey(p: string): (r: string)
    ensures '=' !in r
    ensures '=' !in p ==> r == p
  {
    Before(p, '=')
  }

  /** `version_lock_map`: package name to the request it came from; a later request
      for the same name replaces an earlier one. */
  function VersionLockMap(pkgs: seq<string>): (m: map<string, string>)
    ensures forall i :: 0 <= i < |pkgs| ==> LockKey(pkgs[i]) in m
    ensures forall k :: k in m ==> m[k] in pkgs && LockKey(m[k]) == k
    decreases |pkgs|
  {
    if |pkgs| == 0 then map[]
    else
      var n := |pkgs| - 1;
      assert forall i :: 0 <= i < n ==> pkgs[..n][i] == pkgs[i];
      VersionLockMap(pkgs[..n])[LockKey(pkgs[n]) := pkgs[n]]
  }

  /** The names passed to `dpkg-query`: the map's keys, in first-request order. */
  function QueryNames(pkgs: seq<string>): (r: seq<string>)
    ensures Seqs.Distinct(r)
    ensures forall k :: k in r <==> k in VersionLockMap(pkgs)
  {
    var keys := seq(|pkgs|, i requires 0 <= i < |pkgs| => LockKey(pkgs[i]));
    assert forall k :: k in keys ==> k in VersionLockMap(pkgs);
    assert forall k :: k in VersionLockMap(pkgs) ==> k in keys by {
      forall k | k in VersionLockMap(pkgs) ensures k in keys {
        var i := Seqs.IndexOf(pkgs, VersionLockMap(pkgs)[k]);
        assert keys[i] == k;
      }
    }
    Seqs.Dedup(keys)
  }

  /** A `dpkg-query` row that reports `name` installed: exactly four fields, the
      fourth `installed`. */
  predicate RowInstalled(line: string, name: string) {
    var w := Words(line);
    |w| == 4 && w[3] == "installed" && w[0] == name
  }

  /** The names the rows report installed, in row order. */
  function InstalledRows(lines: seq<string>): (r: seq<string>)
    ensures forall x :: x in r <==> exists i :: 0 <= i < |lines| && RowInstalled(lines[i], x)
    decreases |lines|
  {
    if |lines| == 0 then []
    else
      var w := Words(lines[0]);
      var rest := InstalledRows(lines[1..]);
      RowsCons(lines);
      if |w| == 4 && w[3] == "installed" then [w[0]] + rest else rest
  }

  /** A row reporting `x` installed is the first row or one of the others. */
  lemma RowsCons(lines: seq<string>)
    requires |lines| > 0
    ensures forall x :: (exists i :: 0 <= i < |lines| && RowInstalled(lines[i], x)) <==>
                        RowInstalled(lines[0], x) || exists i :: 0 <= i < |lines[1..]| && RowInstalled(lines[1..][i], x)
  {
    forall x | exists i :: 0 <= i < |lines| && RowInstalled(lines[i], x)
      ensures RowInstalled(lines[0], x) || exists i :: 0 <= i < |lines[1..]| && RowInstalled(lines[1..][i], x)
    {
      var i :| 0 <= i < |lines| && RowInstalled(lines[i], x);
      if i > 0 { assert RowInstalled(lines[1..][i - 1], x); }
    }
  }

  /** `[version_lock_map[r] for r in ret_list]`: `KeyError` for a reported name that
      was not asked about. */
  function LookupAll(m: map<string, string>, names: seq<string>): (r: Result<seq<string>, DetectError>)
    ensures r.Ok? <==> forall i :: 0 <= i < |names| ==> names[i] in m
    ensures r.Ok? ==> |r.value| == |names| && forall i :: 0 <= i < |names| ==> r.value[i] == m[names[i]]
    ensures r.Err? ==> r.error.KeyError? && r.error.key in names && r.error.key !in m
    decreases |names|
  {
    if |names| == 0 then Ok([])
    else if names[0] !in m then Err(KeyError(names[0]))
    else
      match LookupAll(m, names[1..])
      case Err(e) => Err(e)
      case Ok(rest) => Ok([m[names[0]]] + rest)
  }

  /** The requests `dpkg-query` did not report installed. */
  function Remaining(pkgs: seq<string>, installed: seq<string>): (r: seq<string>)
    ensures forall p :: p in r <==> p in pkgs && p !in installed
  {
    Keep(pkgs, p => p !in installed)
  }

  /** `dpkg_detect`: the installed requests, in their original `name=version` form,
      followed by the virtual ones that have an installed provider. A request is
      returned exactly when `dpkg-query` reports its name installed and it is the
      request that stands for that name, or when `apt-cache showpkg` shows it virtual
      with a provider that is itself detected. */
  function DpkgDetect(sys: AptSystem, pkgs: seq<string>, depth: nat): (r: Result<seq<string>, DetectError>)
    ensures r.Ok? ==> forall x :: x in r.value ==> x in pkgs
    ensures r.Ok? ==> Reported(sys, pkgs).Ok? && Reported(sys, pkgs).value <= r.value
    ensures r.Ok? ==> forall x :: x in r.value <==> InstalledAsRequested(sys, pkgs, x) || VirtualProvided(sys, pkgs, x, depth)
    ensures Reported(sys, pkgs).Err? ==> r == Err(Reported(sys, pkgs).error)
    decreases depth, 2
  {
    match Reported(sys, pkgs)
    case Err(e) => Err(e)
    case Ok(installed) =>
      match Virtuals(sys, Candidates(sys, pkgs, installed), depth)
      case Err(e) => Err(e)
      case Ok(virtual) => Ok(installed + virtual)
  }

  /** Some entry `apt-cache showpkg` gives for the requests not reported installed
      names `x` and is virtual with a detected provider. */
  predicate VirtualProvided(sys: AptSystem, pkgs: seq<string>, x: string, depth: nat)
    decreases depth, 1
  {
    && Reported(sys, pkgs).Ok?
    && var entries := Candidates(sys, pkgs, Reported(sys, pkgs).value);
       exists i :: 0 <= i < |entries| && entries[i].name == x && Provided(sys, entries[i], depth) == Ok(true)
  }

  /** The lines of the `dpkg-query` output, quotes removed. */
  function QueryLines(sys: AptSystem, pkgs: seq<string>): seq<string> {
    Split(RemoveChar(sys.dpkgQuery(QueryNames(pkgs)), '\''), '\n')
  }

  /** `x` is the request that stands for its package name, and a `dpkg-query` row
      reports that name installed. */
  predicate InstalledAsRequested(sys: AptSystem, pkgs: seq<string>, x: string) {
    && x in pkgs
    && LockKey(x) in VersionLockMap(pkgs)
    && VersionLockMap(pkgs)[LockKey(x)] == x
    && exists k :: 0 <= k < |QueryLines(sys, pkgs)| && RowInstalled(QueryLines(sys, pkgs)[k], LockKey(x))
  }

  /** The requests `dpkg-query` reports installed, in their requested form;
      `KeyError` when a row names a package that was not asked about. */
  function Reported(sys: AptSystem, pkgs: seq<string>): (r: Result<seq<string>, DetectError>)
    ensures r.Ok? <==> forall x :: x in InstalledRows(QueryLines(sys, pkgs)) ==> x in VersionLockMap(pkgs)
    ensures r.Ok? ==> forall x :: x in r.value <==> InstalledAsRequested(sys, pkgs, x)
  {
    ReportedFacts(sys, pkgs);
    LookupAll(VersionLockMap(pkgs), InstalledRows(QueryLines(sys, pkgs)))
  }

  lemma ReportedFacts(sys: AptSystem, pkgs: seq<string>)
    ensures var r := LookupAll(VersionLockMap(pkgs), InstalledRows(QueryLines(sys, pkgs)));
            && (r.Ok? <==> forall x :: x in InstalledRows(QueryLines(sys, pkgs)) ==> x in VersionLockMap(pkgs))
            && (r.Ok? ==> forall x :: x in r.value <==> InstalledAsRequested(sys, pkgs, x))
  {
    var m := VersionLockMap(pkgs);
    var rows := InstalledRows(QueryLines(sys, pkgs));
    var r := LookupAll(m, rows);
    assert (forall i :: 0 <= i < |rows| ==> rows[i] in m) <==> (forall x :: x in rows ==> x in m);
    if r.Ok? {
      ReportedMembers(sys, pkgs, rows, r.value);
    }
  }

  /** The looked-up rows are exactly the requests installed as requested. */
  lemma ReportedMembers(sys: AptSystem, pkgs: seq<string>, rows: seq<string>, found: seq<string>)
    requires rows == InstalledRows(QueryLines(sys, pkgs))
    requires LookupAll(VersionLockMap(pkgs), rows) == Ok(found)
    ensures forall x :: x in found <==> InstalledAsRequested(sys, pkgs, x)
  {
    forall x | x in found ensures InstalledAsRequested(sys, pkgs, x) {
      FoundIsRequested(sys, pkgs, rows, found, x);
    }
    forall x | InstalledAsRequested(sys, pkgs, x) ensures x in found {
      assert LockKey(x) in rows;
      var i := Seqs.IndexOf(rows, LockKey(x));
      assert found[i] == x;
    }
  }

  /** A request looked up from an installed row stands for that row's name. */
  lemma FoundIsRequested(sys: AptSystem, pkgs: seq<string>, rows: seq<string>, found: seq<string>, x: string)
    requires rows == InstalledRows(QueryLines(sys, pkgs))
    requires LookupAll(VersionLockMap(pkgs), rows) == Ok(found)
    requires x in found
    ensures InstalledAsRequested(sys, pkgs, x)
  {
    var i :| 0 <= i < |found| && found[i] == x;
    assert rows[i] in rows;
  }

  /** What `apt-cache showpkg` says about the requests not reported installed. */
  function Candidates(sys: AptSystem, pkgs: seq<string>, installed: seq<string>): (r: seq<Showpkg>)
    ensures forall x :: x in Names(r) ==> x in pkgs && x !in installed
  {
    var remaining := Remaining(pkgs, installed);
    var entries := ShowPkg(remaining, sys.showpkg(remaining));
    assert forall x :: x in Names(entries) ==> x in remaining;
    entries
  }

  /** The package names of the entries, in order. */
  function Names(entries: seq<Showpkg>): (r: seq<string>)
    ensures |r| == |entries| && forall i :: 0 <= i < |r| ==> r[i] == entries[i].name
  {
    seq(|entries|, i requires 0 <= i < |entries| => entries[i].name)
  }

  /** `[n for (n, v, pr) in entries if v and len(dpkg_detect(pr)) > 0]`. */
  function Virtuals(sys: AptSystem, entries: seq<Showpkg>, depth: nat): (r: Result<seq<string>, DetectError>)
    ensures r.Ok? ==> forall x :: x in r.value ==> x in Names(entries)
    ensures r.Ok? ==> forall x :: x in r.value <==>
              exists i :: 0 <= i < |entries| && entries[i].name == x && Provided(sys, entries[i], depth) == Ok(true)
    decreases depth, 0, |entries|
  {
    if |entries| == 0 then Ok([])
    else
      match Provided(sys, entries[0], depth)
      case Err(e) => Err(e)
      case Ok(hit) =>
        match Virtuals(sys, entries[1..], depth)
        case Err(e) => Err(e)
        case Ok(rest) =>
          assert Names(entries) == [entries[0].name] + Names(entries[1..]);
          SelectCons(entries, e => Provided(sys, e, depth) == Ok(true), hit, rest);
          if hit then Ok([entries[0].name] + rest) else Ok(rest)
  }

  /** The names of the entries a test accepts are those of the head, when accepted,
      and those of the tail. */
  lemma SelectCons(entries: seq<Showpkg>, ok: Showpkg -> bool, hit: bool, rest: seq<string>)
    requires |entries| > 0 && ok(entries[0]) == hit
    requires forall x :: x in rest <==> exists i :: 0 <= i < |entries[1..]| && entries[1..][i].name == x && ok(entries[1..][i])
    ensures var out := if hit then [entries[0].name] + rest else rest;
            forall x :: x in out <==> exists i :: 0 <= i < |entries| && entries[i].name == x && ok(entries[i])
  {
    var out := if hit then [entries[0].name] + rest else rest;
    forall x | x in out ensures exists i :: 0 <= i < |entries| && entries[i].name == x && ok(entries[i]) {
      if hit && x == entries[0].name {
        assert entries[0].name == x && ok(entries[0]);
      } else {
        assert x in rest;
        var i :| 0 <= i < |entries[1..]| && entries[1..][i].name == x && ok(entries[1..][i]);
        assert entries[i + 1] == entries[1..][i];
      }
    }
    forall x | exists i :: 0 <= i < |entries| && entries[i].name == x && ok(entries[i]) ensures x in out {
      var i :| 0 <= i < |entries| && entries[i].name == x && ok(entries[i]);
      if i > 0 {
        assert entries[1..][i - 1] == entries[i];
        assert x in rest;
      }
    }
  }

  /** Whether an entry is virtual with an installed provider; the nested detection
      runs one level deeper, and running out of levels is Python's `RecursionError`. */
  function Provided(sys: AptSystem, e: Showpkg, depth: nat): (r: Result<bool, DetectError>)
    ensures e.NotVirtual? ==> r == Ok(false)
    decreases depth, 0, 0
  {
    match e
    case NotVirtual(_) => Ok(false)
    case Virtual(_, pr) =>
      if depth == 0 then Err(RecursionError)
      else
        match DpkgDetect(sys, pr, depth - 1)
        case Err(err) => Err(err)
        case Ok(found) => Ok(|found| > 0)
  }

  /** A request reported installed by a `dpkg-query` row is returned as it was
      requested, version lock included, provided it is the only request for its name. */
  lemma ReportsRequestAsGiven(sys: AptSystem, pkgs: seq<string>, depth: nat, i: nat)
    requires i < |pkgs|
    requires forall j :: 0 <= j < |pkgs| && LockKey(pkgs[j]) == LockKey(pkgs[i]) ==> pkgs[j] == pkgs[i]
    requires var lines := Split(RemoveChar(sys.dpkgQuery(QueryNames(pkgs)), '\''), '\n');
             exists k :: 0 <= k < |lines| && RowInstalled(lines[k], LockKey(pkgs[i]))
    ensures DpkgDetect(sys, pkgs, depth).Ok? ==> pkgs[i] in DpkgDetect(sys, pkgs, depth).value
  {
    var lockMap := VersionLockMap(pkgs);
    var rows := InstalledRows(Split(RemoveChar(sys.dpkgQuery(QueryNames(pkgs)), '\''), '\n'));
    var key := LockKey(pkgs[i]);
    assert key in rows;
    var k := Seqs.IndexOf(rows, key);
    var j := Seqs.IndexOf(pkgs, lockMap[key]);
    if LookupAll(lockMap, rows).Ok? {
      assert LookupAll(lockMap, rows).value[k] == lockMap[key] == pkgs[i];
    }
  }

  // ---------------------------------------------------------------------------
  // _read_apt_cache_showpkg

  /** What `_read_apt_cache_showpkg` yields for one package: not virtual, or virtual
      with the providers listed under `Reverse Provides: `. */
  datatype Showpkg = NotVirtual(name: string) | Virtual(name: string, providers: seq<string>)

  /** The outcome of reading one package's section: an entry, or the end of the
      generator (the section ends right after its `Versions: ` search). */
  datatype Outcome = Stop | Found(entry: Showpkg)

  function Header(p: string): string {
    "Package: " + p
  }

  /** `xs.index(x, from)`. */
  function IndexFrom(xs: seq<string>, x: string, from: nat): (r: Option<nat>)
    ensures r.Some? ==> from <= r.value < |xs| && xs[r.value] == x
    ensures r.None? ==> forall k :: from <= k < |xs| ==> xs[k] != x
    decreases |xs| - from
  {
    if from >= |xs| then None else if xs[from] == x then Some(from) else IndexFrom(xs, x, from + 1)
  }

  /** How many of `packages` still need a section start in the second loop. */
  function Pending(packages: seq<string>, notfound: set<string>): nat
    decreases |packages|
  {
    if |packages| == 0 then 0
    else (if packages[0] in notfound then 0 else 1) + Pending(packages[1..], notfound)
  }

  /** The first loop: each package's header is searched from the last start found;
      the start is recorded, or the package goes into `notfound`. */
  function Starts(packages: seq<string>, lines: seq<string>, starts: seq<nat>, notfound: set<string>)
    : (r: (seq<nat>, set<string>))
    requires forall k :: 0 <= k < |starts| ==> starts[k] < |lines|
    ensures notfound <= r.1
    ensures forall k :: 0 <= k < |r.0| ==> r.0[k] < |lines|
    ensures Pending(packages, r.1) + |starts| <= |r.0|
    ensures forall i :: 0 <= i < |packages| && Header(packages[i]) !in lines ==> packages[i] in r.1
    decreases |packages|
  {
    if |packages| == 0 then (starts, notfound)
    else
      var last := if |starts| > 0 then starts[|starts| - 1] else 0;
      var r := match IndexFrom(lines, Header(packages[0]), last)
               case Some(i) => Starts(packages[1..], lines, starts + [i], notfound)
               case None => Starts(packages[1..], lines, starts, notfound + {packages[0]});
      assert forall i :: 1 <= i < |packages| ==> packages[i] == packages[1..][i - 1];
      r
  }

  /** The lines after the first `marker`, or none when there is no `marker`: the
      `while next(lines) != marker` loops. */
  function SkipPast(xs: seq<string>, marker: string): (r: seq<string>)
    ensures |r| <= |xs| && xs[|xs| - |r|..] == r
    ensures marker !in xs ==> r == []
    decreases |xs|
  {
    if |xs| == 0 then []
    else if xs[0] == marker then xs[1..]
    else SkipPast(xs[1..], marker)
  }

  /** Skipping past the first occurrence of a marker resumes right after it. */
  lemma {:induction false} SkipPastFirst(pre: seq<string>, marker: string, post: seq<string>)
    requires marker !in pre
    ensures SkipPast(pre + [marker] + post, marker) == post
    decreases |pre|
  {
    if |pre| > 0 {
      assert (pre + [marker] + post)[1..] == pre[1..] + [marker] + post;
      SkipPastFirst(pre[1..], marker, post);
    }
  }

  /** `line.split(' ', 2)[0]` of each provider line. */
  function FirstTokens(lines: seq<string>): (r: seq<string>)
    ensures |r| == |lines|
    ensures forall i :: 0 <= i < |r| ==> ' ' !in r[i]
  {
    seq(|lines|, i requires 0 <= i < |lines| => Before(lines[i], ' '))
  }

  /** A virtual entry names at least one provider, each a single word. */
  predicate WellFormed(e: Showpkg) {
    e.Virtual? ==> |e.providers| > 0 && forall j :: 0 <= j < |e.providers| ==> ' ' !in e.providers[j]
  }

  /** One package's section: past its header, past `Versions: `; a non-empty line there
      means a real package; otherwise the providers after `Reverse Provides: `. */
  function Section(p: string, seg: seq<string>): (r: Outcome)
    ensures r.Found? ==> r.entry.name == p && WellFormed(r.entry)
  {
    var afterVersions := SkipPast(SkipPast(seg, Header(p)), "Versions: ");
    if |afterVersions| == 0 then Stop
    else if afterVersions[0] != "" then Found(NotVirtual(p))
    else
      var pr := FirstTokens(SkipPast(afterVersions[1..], "Reverse Provides: "));
      if |pr| > 0 then Found(Virtual(p, pr)) else Found(NotVirtual(p))
  }

  /** A section whose line after `Versions: ` is not empty is a real package. */
  lemma SectionWithVersions(p: string, pre: seq<string>, mid: seq<string>, v: string, post: seq<string>)
    requires Header(p) !in pre && "Versions: " !in mid && v != ""
    ensures Section(p, pre + [Header(p)] + mid + ["Versions: ", v] + post) == Found(NotVirtual(p))
  {
    var seg := pre + [Header(p)] + mid + ["Versions: ", v] + post;
    assert seg == pre + [Header(p)] + (mid + ["Versions: ", v] + post);
    SkipPastFirst(pre, Header(p), mid + ["Versions: ", v] + post);
    assert mid + ["Versions: ", v] + post == mid + ["Versions: "] + ([v] + post);
    SkipPastFirst(mid, "Versions: ", [v] + post);
  }

  /** A section with an empty line after `Versions: ` lists the first word of each line
      after `Reverse Provides: ` as its providers. */
  lemma SectionProviders(p: string, mid: seq<string>, mid2: seq<string>, tail: seq<string>)
    requires "Versions: " !in mid && "Reverse Provides: " !in mid2 && |tail| > 0
    ensures Section(p, [Header(p)] + mid + ["Versions: ", ""] + mid2 + ["Reverse Provides: "] + tail)
            == Found(Virtual(p, FirstTokens(tail)))
  {
    var seg := [Header(p)] + mid + ["Versions: ", ""] + mid2 + ["Reverse Provides: "] + tail;
    var providers := mid2 + ["Reverse Provides: "] + tail;
    var afterVersions := [""] + providers;
    var afterHeader := mid + ["Versions: "] + afterVersions;
    ProvidersSegment(Header(p), mid, mid2, tail);
    SkipPastFirst([], Header(p), afterHeader);
    assert SkipPast(seg, Header(p)) == afterHeader;
    SkipPastFirst(mid, "Versions: ", afterVersions);
    assert afterVersions[1..] == providers;
    SkipPastFirst(mid2, "Reverse Provides: ", tail);
    assert SkipPast(afterVersions[1..], "Reverse Provides: ") == tail;
  }

  /** The section of `SectionProviders`, regrouped around its markers. */
  lemma ProvidersSegment(h: string, mid: seq<string>, mid2: seq<string>, tail: seq<string>)
    ensures [h] + mid + ["Versions: ", ""] + mid2 + ["Reverse Provides: "] + tail
            == [] + [h] + (mid + ["Versions: "] + ([""] + (mid2 + ["Reverse Provides: "] + tail)))
  {
  }

  /** Python's `lines[start:end]` for `start <= |lines|`, `end <= |lines|`. */
  function Segment(lines: seq<string>, start: nat, end: nat): seq<string>
    requires start <= |lines| && end <= |lines|
  {
    if start <= end then lines[start..end] else []
  }

  /** An entry for the first package in front of entries for the others gives
      entries for all of them. */
  lemma ConsEntries(packages: seq<string>, e: Showpkg, rest: seq<Showpkg>, notfound: set<string>)
    requires |packages| > 0 && e.name == packages[0] && WellFormed(e)
    requires packages[0] in notfound ==> e == NotVirtual(packages[0])
    requires |rest| <= |packages| - 1
    requires forall i :: 0 <= i < |rest| ==> rest[i].name == packages[1..][i] && WellFormed(rest[i])
    requires forall i :: 0 <= i < |rest| && packages[1..][i] in notfound ==> rest[i] == NotVirtual(packages[1..][i])
    ensures var r := [e] + rest;
            && |r| <= |packages|
            && (forall i :: 0 <= i < |r| ==> r[i].name == packages[i] && WellFormed(r[i]))
            && (forall i :: 0 <= i < |r| && packages[i] in notfound ==> r[i] == NotVirtual(packages[i]))
  {
    assert forall i :: 1 <= i < |packages| ==> packages[i] == packages[1..][i - 1];
  }

  /** The second loop: a package in `notfound` is not virtual; any other takes the next
      start, and its section runs to the start after it. */
  function Sections(packages: seq<string>, lines: seq<string>, starts: seq<nat>, notfound: set<string>)
    : (r: seq<Showpkg>)
    requires Pending(packages, notfound) <= |starts|
    requires forall k :: 0 <= k < |starts| ==> starts[k] < |lines|
    ensures |r| <= |packages|
    ensures forall i :: 0 <= i < |r| ==> r[i].name == packages[i] && WellFormed(r[i])
    ensures forall i :: 0 <= i < |r| && packages[i] in notfound ==> r[i] == NotVirtual(packages[i])
    decreases |packages|
  {
    if |packages| == 0 then []
    else if packages[0] in notfound then
      var rest := Sections(packages[1..], lines, starts, notfound);
      ConsEntries(packages, NotVirtual(packages[0]), rest, notfound);
      [NotVirtual(packages[0])] + rest
    else
      var end := if |starts| > 1 then starts[1] else |lines|;
      match Section(packages[0], Segment(lines, starts[0], end))
      case Stop => []
      case Found(e) =>
        var rest := Sections(packages[1..], lines, starts[1..], notfound);
        ConsEntries(packages, e, rest, notfound);
        [e] + rest
  }

  /** When no package's header was found, every package is reported not virtual. */
  lemma {:induction false} SectionsNotFound(packages: seq<string>, lines: seq<string>, starts: seq<nat>, notfound: set<string>)
    requires forall i :: 0 <= i < |packages| ==> packages[i] in notfound
    requires forall k :: 0 <= k < |starts| ==> starts[k] < |lines|
    ensures Pending(packages, notfound) == 0
    ensures Sections(packages, lines, starts, notfound) == seq(|packages|, i requires 0 <= i < |packages| => NotVirtual(packages[i]))
    decreases |packages|
  {
    if |packages| > 0 {
      SectionsNotFound(packages[1..], lines, starts, notfound);
      assert seq(|packages|, i requires 0 <= i < |packages| => NotVirtual(packages[i]))
          == [NotVirtual(packages[0])] + seq(|packages[1..]|, i requires 0 <= i < |packages[1..]| => NotVirtual(packages[1..][i]));
    }
  }

  /** `_read_apt_cache_showpkg`: an entry per package, in order, until a section ends
      right after its `Versions: ` search; a package whose header is missing from the
      output is not virtual. */
  function ShowPkg(packages: seq<string>, output: string): (r: seq<Showpkg>)
    ensures |r| <= |packages|
    ensures forall i :: 0 <= i < |r| ==> r[i].name == packages[i] && WellFormed(r[i])
    ensures forall i :: 0 <= i < |r| && Header(packages[i]) !in Lines(output) ==> r[i] == NotVirtual(packages[i])
  {
    var lines := Lines(output);
    var (starts, notfound) := Starts(packages, lines, [], {});
    Sections(packages, lines, starts, notfound)
  }

  /** When the output has no section for any of the packages, none is virtual. */
  lemma ShowPkgUnknown(packages: seq<string>, output: string)
    requires forall i :: 0 <= i < |packages| ==> Header(packages[i]) !in Lines(output)
    ensures ShowPkg(packages, output) == seq(|packages|, i requires 0 <= i < |packages| => NotVirtual(packages[i]))
  {
    var lines := Lines(output);
    var (starts, notfound) := Starts(packages, lines, [], {});
    SectionsNotFound(packages, lines, starts, notfound);
  }

  // ---------------------------------------------------------------------------
  // get_install_command

  /** What `_iterate_packages` yields: a package, or a virtual package's providers. */
  datatype Item = Package(name: string) | Providers(names: seq<string>)

  /** A planned command: one command, or one command per provider. */
  datatype Planned = Single(cmd: seq<string>) | Choice(cmds: seq<seq<string>>)

  /** `_iterate_packages`: a virtual package's providers, or, when reinstalling, its
      installed providers one by one if there are any. */
  function Iterate(sys: AptSystem, entries: seq<Showpkg>, reinstall: bool, depth: nat): (r: Result<seq<Item>, DetectError>)
    ensures !reinstall ==> r.Ok? && |r.value| == |entries|
    ensures !reinstall ==> forall i :: 0 <= i < |entries| ==>
              r.value[i] == (if entries[i].Virtual? then Providers(entries[i].providers) else Package(entries[i].name))
    decreases |entries|
  {
    if |entries| == 0 then Ok([])
    else
      match Expand(sys, entries[0], reinstall, depth)
      case Err(e) => Err(e)
      case Ok(head) =>
        match Iterate(sys, entries[1..], reinstall, depth)
        case Err(e) => Err(e)
        case Ok(rest) => Ok(head + rest)
  }

  /** What one entry yields. */
  function Expand(sys: AptSystem, e: Showpkg, reinstall: bool, depth: nat): (r: Result<seq<Item>, DetectError>)
    ensures e.NotVirtual? ==> r == Ok([Package(e.name)])
    ensures e.Virtual? && !reinstall ==> r == Ok([Providers(e.providers)])
  {
    match e
    case NotVirtual(p) => Ok([Package(p)])
    case Virtual(_, pr) =>
      if !reinstall then Ok([Providers(pr)])
      else
        match DpkgDetect(sys, pr, depth)
        case Err(err) => Err(err)
        case Ok(installed) =>
          if |installed| > 0 then Ok(seq(|installed|, i requires 0 <= i < |installed| => Package(installed[i])))
          else Ok([Providers(pr)])
  }

  /** Real packages are yielded as themselves, whatever `reinstall` says. */
  lemma {:induction false} IterateNotVirtual(sys: AptSystem, entries: seq<Showpkg>, reinstall: bool, depth: nat)
    requires forall i :: 0 <= i < |entries| ==> entries[i].NotVirtual?
    ensures Iterate(sys, entries, reinstall, depth) == Ok(seq(|entries|, i requires 0 <= i < |entries| => Package(entries[i].name)))
    decreases |entries|
  {
    if |entries| > 0 {
      IterateNotVirtual(sys, entries[1..], reinstall, depth);
      assert Expand(sys, entries[0], reinstall, depth) == Ok([Package(entries[0].name)]);
      var rest := Iterate(sys, entries[1..], reinstall, depth);
      assert Iterate(sys, entries, reinstall, depth) == Ok([Package(entries[0].name)] + rest.value);
      assert seq(|entries|, i requires 0 <= i < |entries| => Package(entries[i].name))
          == [Package(entries[0].name)] + seq(|entries[1..]|, i requires 0 <= i < |entries[1..]| => Package(entries[1..][i].name));
    } else {
      assert seq(|entries|, i requires 0 <= i < |entries| => Package(entries[i].name)) == [];
    }
  }

  /** The program words of every apt command. */
  const AptGet := ["apt-get", "install"]

  /** An `apt-get install` of the command's last word: `-y` exactly when not
      interactive, `-qq` exactly when quiet. */
  predicate AptCommand(cmd: seq<string>, elev: seq<string>, interactive: bool, quiet: bool) {
    && |cmd| > 0
    && Invokes(cmd, elev, AptGet, [cmd[|cmd| - 1]])
    && ("-y" in Options(cmd, elev, AptGet, [cmd[|cmd| - 1]]) <==> !interactive)
    && ("-qq" in Options(cmd, elev, AptGet, [cmd[|cmd| - 1]]) <==> quiet)
  }

  predicate PlannedWith(pl: Planned, elev: seq<string>, interactive: bool, quiet: bool) {
    match pl
    case Single(cmd) => AptCommand(cmd, elev, interactive, quiet)
    case Choice(cmds) => forall j :: 0 <= j < |cmds| ==> AptCommand(cmds[j], elev, interactive, quiet)
  }

  function Plan(elev: seq<string>, options: seq<string>, item: Item): Planned {
    match item
    case Package(p) => Single(elev + AptGet + options + [p])
    case Providers(ps) => Choice(seq(|ps|, i requires 0 <= i < |ps| => elev + AptGet + options + [ps[i]]))
  }

  /** Every planned command carries the options of the call. */
  lemma PlanShape(elev: seq<string>, interactive: bool, quiet: bool, item: Item)
    ensures PlannedWith(Plan(elev, Flag(!interactive, "-y") + Flag(quiet, "-qq"), item), elev, interactive, quiet)
  {
    var options := Flag(!interactive, "-y") + Flag(quiet, "-qq");
    forall p ensures AptCommand(elev + AptGet + options + [p], elev, interactive, quiet) {
      Assemble(elev, AptGet, options, [p]);
    }
  }

  /** Without reinstalling, the plan for one `apt-cache showpkg` entry: a real
      package is installed as itself, a virtual one by any one of its providers. */
  predicate PlansEntry(pl: Planned, e: Showpkg) {
    match e
    case NotVirtual(p) => pl.Single? && |pl.cmd| > 0 && pl.cmd[|pl.cmd| - 1] == p
    case Virtual(_, pr) =>
      pl.Choice? && |pl.cmds| == |pr| &&
      forall j :: 0 <= j < |pr| ==> |pl.cmds[j]| > 0 && pl.cmds[j][|pl.cmds[j]| - 1] == pr[j]
  }

  /** `AptInstaller.get_install_command`: one plan per item `_iterate_packages`
      yields. Without reinstalling that is one plan per `apt-cache showpkg` entry, in
      order: each real package once, each virtual one as the choice of its
      providers. */
  function GetInstallCommand(sys: AptSystem, depth: nat, toInstall: seq<string>, interactive: bool, reinstall: bool,
                             quiet: bool, elev: seq<string>): (r: Result<seq<Planned>, DetectError>)
    ensures |toInstall| == 0 ==> r == Ok([])
    ensures !reinstall ==> r.Ok?
    ensures r.Ok? ==> forall i :: 0 <= i < |r.value| ==> PlannedWith(r.value[i], elev, interactive, quiet)
    ensures !reinstall && |toInstall| > 0 ==>
              var entries := ShowPkg(toInstall, sys.showpkg(toInstall));
              |r.value| == |entries| && forall i :: 0 <= i < |entries| ==> PlansEntry(r.value[i], entries[i])
  {
    if |toInstall| == 0 then Ok([])
    else
      var options := Flag(!interactive, "-y") + Flag(quiet, "-qq");
      var entries := ShowPkg(toInstall, sys.showpkg(toInstall));
      match Iterate(sys, entries, reinstall, depth)
      case Err(e) => Err(e)
      case Ok(items) =>
        forall i | 0 <= i < |items| ensures PlannedWith(Plan(elev, options, items[i]), elev, interactive, quiet) {
          PlanShape(elev, interactive, quiet, items[i]);
        }
        var r := seq(|items|, i requires 0 <= i < |items| => Plan(elev, options, items[i]));
        if !reinstall then
          PlansEntries(elev, options, entries, items);
          Ok(r)
        else Ok(r)
  }

  /** Planning the items that entries yield without reinstalling plans each entry. */
  lemma PlansEntries(elev: seq<string>, options: seq<string>, entries: seq<Showpkg>, items: seq<Item>)
    requires |items| == |entries|
    requires forall i :: 0 <= i < |entries| ==>
               items[i] == (if entries[i].Virtual? then Providers(entries[i].providers) else Package(entries[i].name))
    ensures forall i :: 0 <= i < |entries| ==> PlansEntry(Plan(elev, options, items[i]), entries[i])
  {
    forall i | 0 <= i < |entries| ensures PlansEntry(Plan(elev, options, items[i]), entries[i]) {
      match entries[i]
      case NotVirtual(p) =>
      case Virtual(_, pr) =>
        var pl := Plan(elev, options, items[i]);
        assert forall j :: 0 <= j < |pr| ==> pl.cmds[j] == elev + AptGet + options + [pr[j]];
    }
  }

  /** When `apt-cache showpkg` knows none of the packages, each gets its own
      `apt-get install`, in order. */
  lemma UnknownPackagesOneEach(sys: AptSystem, depth: nat, toInstall: seq<string>, interactive: bool, reinstall: bool,
                               quiet: bool, elev: seq<string>)
    requires forall i :: 0 <= i < |toInstall| ==> Header(toInstall[i]) !in Lines(sys.showpkg(toInstall))
    ensures var options := Flag(!interactive, "-y") + Flag(quiet, "-qq");
            GetInstallCommand(sys, depth, toInstall, interactive, reinstall, quiet, elev)
              == Ok(seq(|toInstall|, i requires 0 <= i < |toInstall| => Single(elev + AptGet + options + [toInstall[i]])))
  {
    if |toInstall| > 0 {
      var entries := ShowPkg(toInstall, sys.showpkg(toInstall));
      ShowPkgUnknown(toInstall, sys.showpkg(toInstall));
      IterateNotVirtual(sys, entries, reinstall, depth);
      var items := Iterate(sys, entries, reinstall, depth).value;
      assert |items| == |toInstall|;
      assert forall i :: 0 <= i < |items| ==> items[i] == Package(toInstall[i]);
      var options := Flag(!interactive, "-y") + Flag(quiet, "-qq");
      assert GetInstallCommand(sys, depth, toInstall, interactive, reinstall, quiet, elev)
          == Ok(seq(|items|, i requires 0 <= i < |items| => Plan(elev, options, items[i])));
      PackagePlans(elev, options, items, toInstall);
    } else {
      var options := Flag(!interactive, "-y") + Flag(quiet, "-qq");
      assert seq(|toInstall|, i requires 0 <= i < |toInstall| => Single(elev + AptGet + options + [toInstall[i]])) == [];
    }
  }

  /** Plans of plain packages are single `apt-get install` commands, in order. */
  lemma PackagePlans(elev: seq<string>, options: seq<string>, items: seq<Item>, toInstall: seq<string>)
    requires |items| == |toInstall| && forall i :: 0 <= i < |items| ==> items[i] == Package(toInstall[i])
    ensures seq(|items|, i requires 0 <= i < |items| => Plan(elev, options, items[i]))
            == seq(|toInstall|, i requires 0 <= i < |toInstall| => Single(elev + AptGet + options + [toInstall[i]]))
  {
  }
}
