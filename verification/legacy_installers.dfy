/** src/rosdep/installers.py, the legacy installer registry: the context that maps
    installer keys to installers, the per-OS table of installers by mode, and the
    package-manager installer's "what is still missing" computation. Installers are
    values of any type `I`; the detection function is a parameter. */
module LegacyInstallers {
  import opened Base

  /** The errors the registry raises: a failed `assert`, a missing key, an undefined
      name, and `raise NotImplemented` (which raises `TypeError`, as `NotImplemented`
      is not an exception). */
  datatype Error = AssertionError(msg: string) | KeyError(key: string) | NameError(name: string) | TypeError

  /** `RosdepContext`: the OS detector is not consulted by any operation here. */
  datatype RosdepContext<I> = RosdepContext(installers: map<string, I>)

  /** `RosdepContext.register_installer`: a key may be registered once only. */
  function RegisterInstaller<I>(c: RosdepContext<I>, key: string, installer: I): (r: Result<RosdepContext<I>, Error>)
    ensures r.Err? <==> key in c.installers
    ensures r.Err? ==> r.error == AssertionError("cannot register same installer multiple times")
    ensures r.Ok? ==> key in r.value.installers && r.value.installers[key] == installer
    ensures r.Ok? ==> forall k :: k in c.installers ==> k in r.value.installers && r.value.installers[k] == c.installers[k]
    ensures r.Ok? ==> r.value.installers.Keys == c.installers.Keys + {key}
  {
    if key in c.installers then Err(AssertionError("cannot register same installer multiple times"))
    else Ok(RosdepContext(c.installers[key := installer]))
  }

  /** `RosdepContext.get_installer`: `KeyError` for a key never registered. */
  function GetInstaller<I>(c: RosdepContext<I>, key: string): (r: Result<I, Error>)
    ensures r.Ok? <==> key in c.installers
    ensures r.Ok? ==> r.value == c.installers[key]
    ensures r.Err? ==> r.error == KeyError(key)
  {
    if key in c.installers then Ok(c.installers[key]) else Err(KeyError(key))
  }

  /** A registered installer is found under its key, and registering the same key a
      second time fails whatever the installer. */
  lemma RegisterThenGet<I>(c: RosdepContext<I>, key: string, a: I, b: I)
    requires key !in c.installers
    ensures RegisterInstaller(c, key, a).Ok?
    ensures GetInstaller(RegisterInstaller(c, key, a).value, key) == Ok(a)
    ensures RegisterInstaller(RegisterInstaller(c, key, a).value, key, b).Err?
  {
  }

  /** `RosdepContext.register_os_installer`: without an installer it looks the mode up
      through a module-level `get_installer` that does not exist; with one it reaches
      `raise NotImplemented`. It never succeeds. */
  function RegisterOsInstaller<I>(c: RosdepContext<I>, os: string, mode: string, installer: Option<I>)
    : (r: Result<RosdepContext<I>, Error>)
    ensures installer.None? ==> r == Err(NameError("get_installer"))
    ensures installer.Some? ==> r == Err(TypeError)
  {
    if installer.None? then Err(NameError("get_installer")) else Err(TypeError)
  }

  /** `RosdepContext.set_default_os_installer`: `register_os_installer` under the mode
      `'default'`, after the same failing lookup when no installer is given. */
  function SetDefaultOsInstaller<I>(c: RosdepContext<I>, os: string, mode: string, installer: Option<I>)
    : (r: Result<RosdepContext<I>, Error>)
    ensures r.Err?
    ensures installer.None? <==> r == Err(NameError("get_installer"))
  {
    if installer.None? then Err(NameError("get_installer")) else RegisterOsInstaller(c, os, "default", installer)
  }

  /** `OsInstallers`: one OS's installers by mode. */
  datatype OsInstallers<I> = OsInstallers(installers: map<string, I>)

  /** The mode `get_installer` uses when none is given. */
  const DefaultMode := "default"

  /** `OsInstallers.add_installer`: a later installer for the same mode replaces the
      earlier one. */
  function AddInstaller<I>(o: OsInstallers<I>, mode: string, installer: I): (r: OsInstallers<I>)
    ensures mode in r.installers && r.installers[mode] == installer
    ensures forall m :: m != mode ==> (m in r.installers <==> m in o.installers)
    ensures forall m :: m != mode && m in o.installers ==> r.installers[m] == o.installers[m]
  {
    OsInstallers(o.installers[mode := installer])
  }

  /** `OsInstallers.get_installer`: `KeyError` for a mode without an installer. */
  function GetOsInstaller<I>(o: OsInstallers<I>, mode: string): (r: Result<I, Error>)
    ensures r.Ok? <==> mode in o.installers
    ensures r.Ok? ==> r.value == o.installers[mode]
    ensures r.Err? ==> r.error == KeyError(mode)
  {
    if mode in o.installers then Ok(o.installers[mode]) else Err(KeyError(mode))
  }

  /** The last installer added for a mode is the one returned; other modes are not
      affected. */
  lemma {:induction false} LastAddWins<I>(o: OsInstallers<I>, mode: string, other: string, a: I, b: I)
    requires other != mode
    ensures GetOsInstaller(AddInstaller(AddInstaller(o, mode, a), mode, b), mode) == Ok(b)
    ensures GetOsInstaller(AddInstaller(o, mode, a), other) == GetOsInstaller(o, other)
  {
    var o1 := AddInstaller(o, mode, a);
    assert other in o1.installers <==> other in o.installers;
  }

  /** `PackageManagerInstaller.get_packages_to_install`: the requested packages the
      detection function does not report, as a set (the source builds a list from a set
      difference, so its order is unspecified). */
  function GetPackagesToInstall(packages: seq<string>, detect: seq<string> -> seq<string>): (r: set<string>)
    ensures forall p :: p in r <==> p in packages && p !in detect(packages)
  {
    set p | p in packages && p !in detect(packages)
  }

  /** `PackageManagerInstaller.check_presence`: nothing is left to install. */
  predicate CheckPresence(packages: seq<string>, detect: seq<string> -> seq<string>) {
    |GetPackagesToInstall(packages, detect)| == 0
  }

  /** The installer's packages are present exactly when detection reports every one of
      them. */
  lemma PresenceIffAllDetected(packages: seq<string>, detect: seq<string> -> seq<string>)
    ensures CheckPresence(packages, detect) <==> forall p :: p in packages ==> p in detect(packages)
  {
    var r := GetPackagesToInstall(packages, detect);
    if !(forall p :: p in packages ==> p in detect(packages)) {
      var p :| p in packages && p !in detect(packages);
      assert p in r;
    }
  }
}
