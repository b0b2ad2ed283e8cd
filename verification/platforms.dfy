/** What the package-manager installers under src/rosdep2/platforms/ share: the
    shape of the install commands they build, detection by filtering the requested
    packages one at a time, the registration of an OS's installers, and the
    aliasing of one OS to another.

    `elevate_priv` is not defined in the installer base class this model covers; it
    is modelled as a fixed command prefix `elev` (`sudo -H` in the tests, or nothing).
    `get_packages_to_install` with a `reinstall` argument is likewise not defined
    there, so each install command takes the list it returned, `toInstall`, as an
    input. */
module Platforms {
  import opened Base
  import opened Strings
  import Installers

  /** `InstallFailed((installer_key, message))`. */
  datatype InstallFailed = InstallFailed(installer: string, msg: string)

  /** An option that is passed exactly when `on` holds. */
  function Flag(on: bool, option: string): (r: seq<string>)
    ensures option in r <==> on
    ensures |r| <= 1
  {
    if on then [option] else []
  }

  /** The command `elev + program + options + packages`, read back: it starts with the
      prefix and the program words and ends with the packages. */
  predicate Invokes(cmd: seq<string>, elev: seq<string>, program: seq<string>, packages: seq<string>) {
    && |elev| + |program| + |packages| <= |cmd|
    && cmd[..|elev|] == elev
    && cmd[|elev|..|elev| + |program|] == program
    && cmd[|cmd| - |packages|..] == packages
  }

  /** The words between the program and the packages of such a command. */
  function Options(cmd: seq<string>, elev: seq<string>, program: seq<string>, packages: seq<string>): seq<string>
    requires Invokes(cmd, elev, program, packages)
  {
    cmd[|elev| + |program|..|cmd| - |packages|]
  }

  /** A command assembled from its parts invokes the program on the packages with
      exactly the given options. */
  lemma Assemble(elev: seq<string>, program: seq<string>, options: seq<string>, packages: seq<string>)
    ensures var cmd := elev + program + options + packages;
            Invokes(cmd, elev, program, packages) && Options(cmd, elev, program, packages) == options
  {
    var cmd := elev + program + options + packages;
    assert cmd[..|elev|] == elev;
    assert cmd[|elev|..|elev| + |program|] == program;
    assert cmd[|cmd| - |packages|..] == packages;
    assert cmd[|elev| + |program|..|cmd| - |packages|] == options;
  }

  /** The single command carrying every package, or no command when there is nothing
      to install. */
  function AllAtOnce(elev: seq<string>, program: seq<string>, options: seq<string>, packages: seq<string>)
    : (r: seq<seq<string>>)
    ensures |packages| == 0 <==> r == []
    ensures |packages| > 0 ==> |r| == 1 && Invokes(r[0], elev, program, packages) &&
                               Options(r[0], elev, program, packages) == options
  {
    Assemble(elev, program, options, packages);
    if |packages| == 0 then [] else [elev + program + options + packages]
  }

  /** One command per package, in the packages' order, each invoking the program with
      the given options on that package alone. */
  function PerPackage(elev: seq<string>, program: seq<string>, options: seq<string>, packages: seq<string>)
    : (r: seq<seq<string>>)
    ensures |r| == |packages|
    ensures forall i :: 0 <= i < |r| ==>
              Invokes(r[i], elev, program, [packages[i]]) && Options(r[i], elev, program, [packages[i]]) == options
  {
    var r := seq(|packages|, i requires 0 <= i < |packages| => elev + program + options + [packages[i]]);
    assert forall i :: 0 <= i < |r| ==>
             Invokes(r[i], elev, program, [packages[i]]) && Options(r[i], elev, program, [packages[i]]) == options by {
      forall i | 0 <= i < |r|
        ensures Invokes(r[i], elev, program, [packages[i]]) && Options(r[i], elev, program, [packages[i]]) == options
      {
        Assemble(elev, program, options, [packages[i]]);
      }
    }
    r
  }

  /** One command per package, in the packages' order, each `elev + program + [p] + tail`. */
  function EachPackage(elev: seq<string>, program: seq<string>, packages: seq<string>, tail: seq<string>)
    : (r: seq<seq<string>>)
    ensures |r| == |packages|
    ensures forall i :: 0 <= i < |r| ==> |r[i]| == |elev| + |program| + 1 + |tail| && r[i][..|elev|] == elev
  {
    seq(|packages|, i requires 0 <= i < |packages| => elev + program + [packages[i]] + tail)
  }

  /** The package of each per-package command sits right after the program: reading
      those words back gives the packages again, in order. */
  lemma {:induction false} EachPackageNames(elev: seq<string>, program: seq<string>, packages: seq<string>, tail: seq<string>)
    ensures var r := EachPackage(elev, program, packages, tail);
            forall i :: 0 <= i < |r| ==> r[i][|elev| + |program|] == packages[i] && r[i][|elev| + |program| + 1..] == tail
  {
    var r := EachPackage(elev, program, packages, tail);
    forall i | 0 <= i < |r|
      ensures r[i][|elev| + |program|] == packages[i] && r[i][|elev| + |program| + 1..] == tail
    {
      assert r[i] == elev + program + [packages[i]] + tail;
    }
  }

  /** `[p for p in packages if installed(p)]`: the detection done by probing one
      package at a time. */
  function Keep(packages: seq<string>, installed: string -> bool): (r: seq<string>)
    ensures |r| <= |packages|
    ensures forall p :: p in r <==> p in packages && installed(p)
  {
    if |packages| == 0 then []
    else
      var rest := Keep(packages[1..], installed);
      assert forall p :: p in packages <==> p == packages[0] || p in packages[1..];
      if installed(packages[0]) then [packages[0]] + rest else rest
  }

  /** Filtering splits over concatenation, so the kept packages stay in input order. */
  lemma {:induction false} KeepAppend(a: seq<string>, b: seq<string>, installed: string -> bool)
    ensures Keep(a + b, installed) == Keep(a, installed) + Keep(b, installed)
  {
    if |a| > 0 {
      assert (a + b)[1..] == a[1..] + b;
      KeepAppend(a[1..], b, installed);
    } else {
      assert a + b == b;
    }
  }

  /** Probing the already detected packages again detects all of them. */
  lemma {:induction false} KeepIdempotent(packages: seq<string>, installed: string -> bool)
    ensures Keep(Keep(packages, installed), installed) == Keep(packages, installed)
  {
    if |packages| > 0 {
      KeepIdempotent(packages[1..], installed);
      if installed(packages[0]) {
        assert ([packages[0]] + Keep(packages[1..], installed))[1..] == Keep(packages[1..], installed);
      }
    }
  }

  /** Python's `s[i:j]` for possibly negative or out-of-range bounds. */
  function PySlice(s: string, i: int, j: int): (r: string)
    ensures |r| <= |s|
    ensures 0 <= i <= j <= |s| ==> r == s[i..j]
  {
    var lo := Clamp(if i < 0 then i + |s| else i, |s|);
    var hi := Clamp(if j < 0 then j + |s| else j, |s|);
    if lo < hi then s[lo..hi] else ""
  }

  function Clamp(k: int, n: nat): (r: nat)
    ensures r <= n
    ensures 0 <= k <= n ==> r == k
  {
    if k < 0 then 0 else if k > n then n else k
  }

  /** Python's `s.find(sub)`: the first index, or -1. */
  function PyFind(s: string, c: char): (r: int)
    ensures -1 <= r < |s|
    ensures r >= 0 ==> s[r] == c && forall k :: 0 <= k < r ==> s[k] != c
    ensures r == -1 ==> forall k :: 0 <= k < |s| ==> s[k] != c
  {
    if |s| == 0 then -1
    else if s[0] == c then 0
    else
      var r := PyFind(s[1..], c);
      assert forall k :: 1 <= k < |s| ==> s[k] == s[1..][k - 1];
      if r == -1 then -1 else r + 1
  }

  /** The first `c` of `a + [c] + b` is right after `a` when `a` has none. */
  lemma {:induction false} PyFindAt(a: string, c: char, b: string)
    requires c !in a
    ensures PyFind(a + [c] + b, c) == |a|
  {
    var s := a + [c] + b;
    assert s[|a|] == c;
    assert forall k :: 0 <= k < |a| ==> s[k] == a[k];
  }

  /** `s.split(sep, 1)[0]`: the text before the first `sep`, or all of `s`. */
  function Before(s: string, sep: char): (r: string)
    ensures sep !in r
    ensures |r| <= |s| && s[..|r|] == r
    ensures sep in s ==> |r| < |s| && s[|r|] == sep
    ensures sep !in s ==> r == s
  {
    var k := PyFind(s, sep);
    assert k == -1 ==> s[..|s|] == s;
    if k == -1 then s else s[..k]
  }

  /** What a platform file registers for one OS: the installer keys added in order
      and the default installer, a plain function of the detected OS (the source
      passes a callable that picks it). */
  datatype Platform = Platform(
    os: string,
    installers: seq<string>,
    defaultInstaller: Installers.OsDetect -> string)

  /** `add_os_installer_key` for each key in turn; the first unregistered installer
      raises `KeyError`. */
  function AddKeys(c: Installers.Context, os: string, keys: seq<string>): (r: Result<Installers.Context, Installers.Error>)
    requires Installers.Valid(c)
    ensures r.Ok? <==> forall i :: 0 <= i < |keys| ==> keys[i] in c.installers
    ensures r.Ok? ==> Installers.Valid(r.value) && r.value.installers == c.installers
    ensures r.Ok? ==> Installers.GetOsInstallerKeys(r.value, os).0 == Installers.GetOsInstallerKeys(c, os).0 + keys
    ensures r.Ok? ==> r.value.defaults == c.defaults && r.value.detect == c.detect && r.value.osOverride == c.osOverride
    ensures r.Ok? ==> r.value.versionTypes == c.versionTypes
    ensures r.Ok? ==> r.value.osInstallers.Keys - {os} == c.osInstallers.Keys - {os}
    decreases |keys|
  {
    if |keys| == 0 then Ok(c)
    else
      match Installers.AddOsInstallerKey(c, os, keys[0])
      case Err(e) => Err(e)
      case Ok(c') =>
        var r := AddKeys(c', os, keys[1..]);
        assert keys == [keys[0]] + keys[1..];
        assert r.Ok? ==> Installers.GetOsInstallerKeys(c, os).0 + [keys[0]] + keys[1..] == Installers.GetOsInstallerKeys(c, os).0 + keys;
        r
  }

  /** A platform's `register_platforms`: its installers, then its default. */
  function Register(c: Installers.Context, p: Platform): (r: Result<Installers.Context, Installers.Error>)
    requires Installers.Valid(c)
    ensures r.Ok? ==> Installers.Valid(r.value)
    ensures r.Ok? ==> Installers.GetDefaultOsInstallerKey(r.value, p.os) == Ok(Some(p.defaultInstaller(c.detect)))
    ensures r.Ok? ==> r.value.detect == c.detect && r.value.osOverride == c.osOverride && r.value.versionTypes == c.versionTypes
    ensures r.Ok? ==> r.value.installers == c.installers
    ensures r.Ok? ==> forall i :: 0 <= i < |p.installers| ==> p.installers[i] in c.installers
    ensures (forall i :: 0 <= i < |p.installers| ==> p.installers[i] in c.installers) && p.defaultInstaller(c.detect) in p.installers
            ==> r.Ok?
  {
    var added := AddKeys(c, p.os, p.installers);
    if added.Err? then added
    else Installers.SetDefaultOsInstallerKey(added.value, p.os, p.defaultInstaller(c.detect))
  }

  /** Registering one platform leaves every other OS's default as it was. */
  lemma RegisterKeepsOthers(c: Installers.Context, p: Platform, os: string)
    requires Installers.Valid(c) && Register(c, p).Ok? && os != p.os
    ensures Installers.GetDefaultOsInstallerKey(Register(c, p).value, os) == Installers.GetDefaultOsInstallerKey(c, os)
  {
    var a := AddKeys(c, p.os, p.installers);
    assert a.value.osInstallers.Keys - {p.os} == c.osInstallers.Keys - {p.os};
    assert os in a.value.osInstallers.Keys - {p.os} <==> os in c.osInstallers.Keys - {p.os};
  }

  /** Two platforms' `register_platforms` in turn: both defaults are set. */
  function RegisterTwo(c: Installers.Context, p: Platform, q: Platform): (r: Result<Installers.Context, Installers.Error>)
    requires Installers.Valid(c) && p.os != q.os
    ensures r.Ok? ==> Installers.Valid(r.value)
    ensures r.Ok? ==> Installers.GetDefaultOsInstallerKey(r.value, p.os) == Ok(Some(p.defaultInstaller(c.detect)))
    ensures r.Ok? ==> Installers.GetDefaultOsInstallerKey(r.value, q.os) == Ok(Some(q.defaultInstaller(c.detect)))
    ensures r.Ok? ==> r.value.detect == c.detect && r.value.osOverride == c.osOverride && r.value.versionTypes == c.versionTypes
    ensures && (forall i :: 0 <= i < |p.installers| ==> p.installers[i] in c.installers)
            && (forall i :: 0 <= i < |q.installers| ==> q.installers[i] in c.installers)
            && p.defaultInstaller(c.detect) in p.installers && q.defaultInstaller(c.detect) in q.installers
            ==> r.Ok?
  {
    var f := Register(c, p);
    if f.Err? then f
    else
      var h := Register(f.value, q);
      if h.Err? then h
      else
        RegisterKeepsOthers(f.value, q, p.os);
        h
  }

  /** The OS aliasing in the platform files: when the detected OS is `from` and no
      override is set, the override becomes `to` with the given version. */
  function Alias(c: Installers.Context, from: string, to: string, version: string): (r: Installers.Context)
    ensures r.installers == c.installers && r.osInstallers == c.osInstallers && r.defaults == c.defaults
    ensures c.osOverride.Some? ==> r == c
    ensures c.osOverride.None? && Installers.GetOsNameAndVersion(c).0 == from ==>
              Installers.GetOsNameAndVersion(r) == (to, version)
    ensures Installers.GetOsNameAndVersion(c).0 != from ==> r == c
  {
    if Installers.GetOsNameAndVersion(c).0 == from && c.osOverride.None? then Installers.SetOsOverride(c, to, version)
    else c
  }

  /** Aliasing is done once: a second alias of any kind changes nothing. */
  lemma AliasOnce(c: Installers.Context, from: string, to: string, version: string,
                  from': string, to': string, version': string)
    requires c.osOverride.None? && Installers.GetOsNameAndVersion(c).0 == from
    ensures var r := Alias(c, from, to, version); Alias(r, from', to', version') == r
  {
  }
}
