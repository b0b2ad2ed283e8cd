/** The installer registry (`InstallerContext`) and the generic package-manager
    semantics (`PackageManagerInstaller`) of src/rosdep2/installers.py. */
module Installers {
  import opened Base
  import opened Yaml
  import Strings
  import Seqs

  /** How an OS's version key is obtained from the OS detector. */
  const TypeVersion := "version"
  const TypeCodename := "codename"

  /** The exceptions raised by the registry and by `PackageManagerInstaller`. */
  datatype Error =
    | KeyError(key: string)
    | ValueError
    | TypeError
    | InvalidRosdepData
    | NameError(name: string)

  /** A registered package-manager installer; `supportsDepends` lets its rules
      carry a `depends` list of further rosdep keys. */
  datatype Installer = Installer(name: string, supportsDepends: bool)

  /** A value handed to `set_installer`: an `Installer` instance or anything else. */
  datatype Candidate = IsInstaller(installer: Installer) | NotInstaller

  /** What the OS detector reports about the running system. */
  datatype OsDetect = OsDetect(name: string, version: string, codename: string)

  /** The registry. `osInstallers` is Python's `defaultdict(list)`: reading an
      absent OS through `get_os_installer_keys` inserts it with `[]`. */
  datatype Context = Context(
    installers: map<string, Installer>,
    osInstallers: map<string, seq<string>>,
    defaults: map<string, string>,
    versionTypes: map<string, string>,
    detect: OsDetect,
    osOverride: Option<(string, string)>)

  /** The registry's invariant: every installer key listed for an OS is registered,
      and every default is one of its OS's listed installers. */
  ghost predicate Valid(c: Context) {
    && (forall os, i :: os in c.osInstallers && 0 <= i < |c.osInstallers[os]| ==> c.osInstallers[os][i] in c.installers)
    && (forall os :: os in c.defaults ==> os in c.osInstallers && c.defaults[os] in c.osInstallers[os])
  }

  /** A fresh context: nothing registered, no override. */
  function Empty(detect: OsDetect): (c: Context)
    ensures Valid(c)
    ensures c.osOverride.None? && c.installers == map[]
  {
    Context(map[], map[], map[], map[], detect, None)
  }

  function SetOsOverride(c: Context, osName: string, osVersion: string): (r: Context)
    ensures GetOsNameAndVersion(r) == (osName, osVersion)
    ensures r.installers == c.installers && r.osInstallers == c.osInstallers && r.defaults == c.defaults
  {
    c.(osOverride := Some((osName, osVersion)))
  }

  /** The configured version type of an OS, `'version'` when none was set. */
  function GetOsVersionType(c: Context, osName: string): (t: string)
    ensures osName !in c.versionTypes ==> t == TypeVersion
  {
    if osName in c.versionTypes then c.versionTypes[osName] else TypeVersion
  }

  /** Accepts only `'version'` and `'codename'`, else `ValueError`. */
  function SetOsVersionType(c: Context, osName: string, versionType: string): (r: Result<Context, Error>)
    ensures r.Ok? <==> versionType == TypeVersion || versionType == TypeCodename
    ensures r.Err? ==> r.error == ValueError
    ensures r.Ok? ==> GetOsVersionType(r.value, osName) == versionType
    ensures r.Ok? ==> forall os :: os != osName ==> GetOsVersionType(r.value, os) == GetOsVersionType(c, os)
    ensures r.Ok? && Valid(c) ==> Valid(r.value)
  {
    if versionType != TypeVersion && versionType != TypeCodename then Err(ValueError)
    else Ok(c.(versionTypes := c.versionTypes[osName := versionType]))
  }

  /** The override if one is set; otherwise the detected name with its codename
      or version, as the version type of that name says. */
  function GetOsNameAndVersion(c: Context): (r: (string, string))
  {
    if c.osOverride.Some? then c.osOverride.value
    else if GetOsVersionType(c, c.detect.name) == TypeCodename then (c.detect.name, c.detect.codename)
    else (c.detect.name, c.detect.version)
  }

  /** The OS name and version read only the detection, the override and the
      version types. */
  lemma NameAndVersionFrame(a: Context, b: Context)
    requires a.detect == b.detect && a.osOverride == b.osOverride && a.versionTypes == b.versionTypes
    ensures GetOsNameAndVersion(a) == GetOsNameAndVersion(b)
  {
  }

  /** Without an override the detected name is used, with the codename exactly when
      the name's version type is `'codename'`. */
  lemma NameAndVersionDetected(c: Context)
    requires c.osOverride.None?
    ensures GetOsNameAndVersion(c).0 == c.detect.name
    ensures GetOsVersionType(c, c.detect.name) == TypeCodename ==> GetOsNameAndVersion(c).1 == c.detect.codename
    ensures GetOsVersionType(c, c.detect.name) != TypeCodename ==> GetOsNameAndVersion(c).1 == c.detect.version
  {
  }

  /** Rejects non-installers with `TypeError`; otherwise binds the key, replacing any earlier binding. */
  function SetInstaller(c: Context, key: string, candidate: Candidate): (r: Result<Context, Error>)
    ensures r.Err? <==> candidate.NotInstaller?
    ensures r.Err? ==> r.error == TypeError
    ensures r.Ok? ==> GetInstaller(r.value, key) == Ok(candidate.installer)
    ensures r.Ok? ==> forall k :: k != key ==> GetInstaller(r.value, k) == GetInstaller(c, k)
    ensures r.Ok? && Valid(c) ==> Valid(r.value)
  {
    match candidate
    case NotInstaller => Err(TypeError)
    case IsInstaller(inst) => Ok(c.(installers := c.installers[key := inst]))
  }

  /** The installer bound to `key`, `KeyError` if none. */
  function GetInstaller(c: Context, key: string): (r: Result<Installer, Error>)
    ensures r.Ok? <==> key in c.installers
    ensures r.Err? ==> r.error == KeyError(key)
  {
    if key in c.installers then Ok(c.installers[key]) else Err(KeyError(key))
  }

  function GetInstallerKeys(c: Context): (r: set<string>)
    ensures forall k :: k in r <==> GetInstaller(c, k).Ok?
  {
    c.installers.Keys
  }

  function GetOsKeys(c: Context): set<string> {
    c.osInstallers.Keys
  }

  /** Appends an installer key to an OS's list after checking that the installer is
      registered (`KeyError` otherwise). */
  function AddOsInstallerKey(c: Context, os: string, key: string): (r: Result<Context, Error>)
    ensures r.Ok? <==> key in c.installers
    ensures r.Err? ==> r.error == KeyError(key)
    ensures r.Ok? ==> GetOsInstallerKeys(r.value, os).0 == GetOsInstallerKeys(c, os).0 + [key]
    ensures r.Ok? ==> forall o :: o != os ==> GetOsInstallerKeys(r.value, o).0 == GetOsInstallerKeys(c, o).0
    ensures r.Ok? && Valid(c) ==> Valid(r.value)
  {
    if key !in c.installers then Err(KeyError(key))
    else
      var current := if os in c.osInstallers then c.osInstallers[os] else [];
      Ok(c.(osInstallers := c.osInstallers[os := current + [key]]))
  }

  /** A copy of the OS's installer keys. An unknown OS yields `[]` and, as with
      Python's `defaultdict`, becomes known: the second component is the context
      after the read. */
  function GetOsInstallerKeys(c: Context, os: string): (r: (seq<string>, Context))
    ensures os in r.1.osInstallers
    ensures os in c.osInstallers ==> r.1 == c
    ensures os !in c.osInstallers ==> r.0 == [] && r.1.osInstallers == c.osInstallers[os := []]
    ensures r.1.installers == c.installers && r.1.defaults == c.defaults
    ensures Valid(c) ==> Valid(r.1)
  {
    if os in c.osInstallers then (c.osInstallers[os], c)
    else ([], c.(osInstallers := c.osInstallers[os := []]))
  }

  /** Sets the OS's default installer: the OS must be known and the installer already
      added to that OS, else `KeyError`. */
  function SetDefaultOsInstallerKey(c: Context, os: string, key: string): (r: Result<Context, Error>)
    requires Valid(c)
    ensures r.Ok? <==> os in c.osInstallers && key in c.osInstallers[os]
    ensures r.Err? ==> r.error.KeyError?
    ensures r.Ok? ==> GetDefaultOsInstallerKey(r.value, os) == Ok(Some(key))
    ensures r.Ok? ==> Valid(r.value)
  {
    if os !in c.osInstallers then Err(KeyError(os))
    else if key !in c.osInstallers[os] then Err(KeyError(key))
    else
      assert key in c.installers;
      Ok(c.(defaults := c.defaults[os := key]))
  }

  /** The OS's default installer key, `None` when unset; `KeyError` for an unknown OS. */
  function GetDefaultOsInstallerKey(c: Context, os: string): (r: Result<Option<string>, Error>)
    ensures r.Err? <==> os !in c.osInstallers
    ensures r.Err? ==> r.error == KeyError(os)
    ensures r.Ok? && r.value.Some? ==> os in c.defaults && r.value.value == c.defaults[os]
    ensures r.Ok? && r.value.None? ==> os !in c.defaults
  {
    if os !in c.osInstallers then Err(KeyError(os))
    else if os in c.defaults then Ok(Some(c.defaults[os]))
    else Ok(None)
  }

  /** Asking an unknown OS for its installer keys makes it known: the default lookup
      that would have raised `KeyError` now answers `None`. */
  lemma ReadingKeysRegistersOs(c: Context, os: string)
    requires Valid(c)
    requires os !in c.osInstallers
    ensures GetDefaultOsInstallerKey(c, os).Err?
    ensures GetOsInstallerKeys(c, os).0 == []
    ensures GetDefaultOsInstallerKey(GetOsInstallerKeys(c, os).1, os) == Ok(None)
  {
  }

  /** `PackageManagerInstaller.resolve`: the `packages` entry of a mapping (a string is
      split on whitespace, a missing entry is `[]`), a string split on single spaces,
      a list unchanged, anything else `InvalidRosdepData`. */
  function Resolve(args: Value): (r: Result<Value, Error>)
    ensures r.Err? <==> !(args.Dict? || args.Str? || args.List?)
    ensures r.Err? ==> r.error == InvalidRosdepData
    ensures args.List? ==> r == Ok(args)
    ensures args.Dict? && "packages" !in args.entries ==> r == Ok(List([]))
  {
    match args
    case Dict(m) =>
      var packages := if "packages" in m then m["packages"] else List([]);
      if packages.Str? then Ok(List(Strs(Strings.Words(packages.s)))) else Ok(packages)
    case Str(s) => Ok(List(Strs(Strings.Split(s, ' '))))
    case List(_) => Ok(args)
    case _ => Err(InvalidRosdepData)
  }

  /** A rule written as a space-separated string of package names resolves to those names. */
  lemma ResolveStringRule(pkgs: seq<string>)
    requires |pkgs| > 0
    requires forall i :: 0 <= i < |pkgs| ==> Strings.FreeOf(pkgs[i], {' '})
    ensures Resolve(Str(Strings.Join(pkgs, ' '))) == Ok(List(Strs(pkgs)))
  {
    Strings.SplitJoin(pkgs, ' ');
  }

  /** A `packages:` string of words resolves to those words, however they were spaced. */
  lemma ResolvePackagesString(words: seq<string>)
    requires forall i :: 0 <= i < |words| ==> |words[i]| > 0 && Strings.FreeOf(words[i], Strings.Whitespace)
    ensures Resolve(Dict(map["packages" := Str(Strings.Join(words, ' '))])) == Ok(List(Strs(words)))
  {
    Strings.WordsJoin(words);
  }

  /** `PackageManagerInstaller.unique`: the sorted, duplicate-free union of several resolutions. */
  function Unique(resolved: seq<seq<string>>): (r: seq<string>)
    ensures Seqs.StrictlySorted(r)
    ensures forall p :: p in r <==> exists i :: 0 <= i < |resolved| && p in resolved[i]
  {
    if |resolved| == 0 then []
    else
      var rest := Unique(resolved[..|resolved| - 1]);
      var last := resolved[|resolved| - 1];
      var r := Seqs.SortedSet(rest + last);
      assert forall i :: 0 <= i < |resolved| - 1 ==> resolved[i] == resolved[..|resolved| - 1][i];
      r
  }

  /** Any strictly sorted listing of exactly the resolved packages is `Unique`'s result. */
  lemma UniqueIsTheSortedUnion(resolved: seq<seq<string>>, listing: seq<string>)
    requires Seqs.StrictlySorted(listing)
    requires forall p :: p in listing <==> exists i :: 0 <= i < |resolved| && p in resolved[i]
    ensures Unique(resolved) == listing
  {
    Seqs.StrictlySortedUnique(Unique(resolved), listing);
  }

  /** `get_packages_to_install`: the resolved packages the detector did not report. */
  function PackagesToInstall(resolved: seq<string>, detected: seq<string>): (r: set<string>)
    ensures forall p :: p in r <==> p in resolved && p !in detected
  {
    (set p | p in resolved) - (set p | p in detected)
  }

  /** `is_installed`: nothing is left to install. */
  predicate IsInstalled(resolved: seq<string>, detected: seq<string>) {
    PackagesToInstall(resolved, detected) == {}
  }

  /** Installed exactly when every resolved package was detected. */
  lemma IsInstalledIff(resolved: seq<string>, detected: seq<string>)
    ensures IsInstalled(resolved, detected) <==> forall i :: 0 <= i < |resolved| ==> resolved[i] in detected
  {
    if !IsInstalled(resolved, detected) {
      var p :| p in PackagesToInstall(resolved, detected);
      var i := Seqs.IndexOf(resolved, p);
      assert resolved[i] !in detected;
    } else {
      forall i | 0 <= i < |resolved| ensures resolved[i] in detected {
        assert resolved[i] !in PackagesToInstall(resolved, detected);
      }
    }
  }

  /** `get_depends` as written: for an installer that supports `depends` and a mapping
      rule it reads the undefined name `rosdep_args_dict`, so it raises `NameError`. */
  function GetDependsAsWritten(inst: Installer, args: Value): (r: Result<Value, Error>)
    ensures inst.supportsDepends && args.Dict? ==> r == Err(NameError("rosdep_args_dict"))
    ensures !(inst.supportsDepends && args.Dict?) ==> r == Ok(List([]))
  {
    if inst.supportsDepends && args.Dict? then Err(NameError("rosdep_args_dict"))
    else Ok(List([]))
  }

  /** As written, `get_depends` never reports a dependency. */
  lemma GetDependsAsWrittenNeverDepends(inst: Installer, args: Value)
    ensures GetDependsAsWritten(inst, args).Ok? ==> GetDependsAsWritten(inst, args).value == List([])
  {
  }

  /** The intended `get_depends`: the rule's `depends` list (default `[]`) when the
      installer supports it and the rule is a mapping, `[]` otherwise. */
  function GetDepends(inst: Installer, args: Value): (r: Value)
    ensures inst.supportsDepends && args.Dict? && "depends" in args.entries ==> r == args.entries["depends"]
    ensures !(inst.supportsDepends && args.Dict? && "depends" in args.entries) ==> r == List([])
  {
    if inst.supportsDepends && args.Dict? then args.Get("depends", List([])) else List([])
  }

  /** The input that separates the two: a `depends` rule for a depends-capable installer. */
  lemma GetDependsDiscrepancy()
    ensures var args := Dict(map["depends" := List([Str("foo")])]);
            GetDependsAsWritten(Installer("pm", true), args).Err? &&
            GetDepends(Installer("pm", true), args) == List([Str("foo")])
  {
  }
}
