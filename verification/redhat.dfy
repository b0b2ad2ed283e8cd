/** src/rosdep2/platforms/redhat.py: Fedora and RHEL with the dnf and yum
    installers, CentOS as an alias of RHEL, and detection through `rpm`.

    The `rpm` Python module is taken to be absent, so detection is the command path:
    `rpm -E` expands a macro and `rpm -q --whatprovides` lists what is provided. The
    shell is `exec`, a function from the command to its output. The expansion done
    while building an install command is `expand`, applied only to names with a
    `%`. */
module RedHat {
  import opened Base
  import opened Strings
  import Installers
  import opened Platforms

  const DnfInstaller := "dnf"
  const YumInstaller := "yum"
  const OsFedora := "fedora"
  const OsRhel := "rhel"
  const OsCentos := "centos"

  /** Whether a version string is a release number above `n`. */
  predicate ReleaseAbove(version: string, n: nat) {
    IsDigits(version) && DigitsValue(version) > n
  }

  /** Fedora's default installer: dnf from release 22 on, yum before and for a
      version that is not a number. */
  function FedoraDefault(d: Installers.OsDetect): (r: string)
    ensures r == DnfInstaller || r == YumInstaller
    ensures r == DnfInstaller <==> ReleaseAbove(d.version, 21)
  {
    if ReleaseAbove(d.version, 21) then DnfInstaller else YumInstaller
  }

  /** Release 22 is the first with dnf: 21 keeps yum, and a later release never goes
      back to yum. */
  lemma FedoraDnfFrom22(name: string, codename: string, v: string, w: string)
    requires ReleaseAbove(v, 21) && IsDigits(w) && DigitsValue(w) >= DigitsValue(v)
    ensures FedoraDefault(Installers.OsDetect(name, "22", codename)) == DnfInstaller
    ensures FedoraDefault(Installers.OsDetect(name, "21", codename)) == YumInstaller
    ensures FedoraDefault(Installers.OsDetect(name, w, codename)) == DnfInstaller
  {
    assert DigitsValue("22") == 22 by { assert "22"[..1] == "2"; }
    assert DigitsValue("21") == 21 by { assert "21"[..1] == "2"; }
  }

  /** Fedora's version key: the release number from release 21 on, the codename
      before. */
  function FedoraVersionKey(d: Installers.OsDetect): (r: string)
    ensures ReleaseAbove(d.version, 20) ==> r == d.version && IsDigits(r)
    ensures !ReleaseAbove(d.version, 20) ==> r == d.codename
  {
    if ReleaseAbove(d.version, 20) then d.version else d.codename
  }

  /** RHEL's version key: the major version, before the first `.`. */
  function RhelVersionKey(d: Installers.OsDetect): (r: string)
    ensures '.' !in r && |r| <= |d.version| && d.version[..|r|] == r
  {
    Before(d.version, '.')
  }

  /** `register_fedora`: pip, dnf, yum and source, the default chosen by release. */
  const Fedora := Platform(OsFedora, ["pip", DnfInstaller, YumInstaller, "source"], FedoraDefault)

  /** `register_rhel`: pip, yum and source, yum the default. */
  const Rhel := Platform(OsRhel, ["pip", YumInstaller, "source"], d => YumInstaller)

  /** `register_fedora` then `register_rhel`. */
  function RegisterBoth(c: Installers.Context): (r: Result<Installers.Context, Installers.Error>)
    requires Installers.Valid(c)
    ensures (forall k :: k in Fedora.installers ==> k in c.installers) ==> r.Ok?
    ensures r.Ok? ==> Installers.Valid(r.value)
    ensures r.Ok? ==> Installers.GetDefaultOsInstallerKey(r.value, OsFedora) == Ok(Some(FedoraDefault(c.detect)))
    ensures r.Ok? ==> Installers.GetDefaultOsInstallerKey(r.value, OsRhel) == Ok(Some(YumInstaller))
    ensures r.Ok? ==> Installers.GetOsNameAndVersion(r.value) == Installers.GetOsNameAndVersion(c)
  {
    FedoraCoversRhel(c.detect);
    var r := RegisterTwo(c, Fedora, Rhel);
    assert (forall k :: k in Fedora.installers ==> k in c.installers) ==> r.Ok? by {
      if forall k :: k in Fedora.installers ==> k in c.installers {
        assert forall i :: 0 <= i < |Fedora.installers| ==> Fedora.installers[i] in c.installers;
        assert forall i :: 0 <= i < |Rhel.installers| ==> Rhel.installers[i] in c.installers;
      }
    }
    if r.Ok? then
      Installers.NameAndVersionFrame(r.value, c);
      r
    else r
  }

  /** Every RHEL installer is a Fedora one, and each platform's default is among its
      own installers. */
  lemma FedoraCoversRhel(d: Installers.OsDetect)
    ensures forall i :: 0 <= i < |Rhel.installers| ==> Rhel.installers[i] in Fedora.installers
    ensures Fedora.defaultInstaller(d) in Fedora.installers && Rhel.defaultInstaller(d) in Rhel.installers
  {
  }

  /** `register_centos`: a detected CentOS without an override becomes RHEL with the
      major version. */
  function AliasCentos(c: Installers.Context): (r: Installers.Context)
    ensures r.installers == c.installers && r.osInstallers == c.osInstallers && r.defaults == c.defaults
    ensures c.osOverride.None? && Installers.GetOsNameAndVersion(c).0 == OsCentos ==>
              Installers.GetOsNameAndVersion(r) == (OsRhel, Before(Installers.GetOsNameAndVersion(c).1, '.'))
    ensures Installers.GetOsNameAndVersion(c).0 != OsCentos || c.osOverride.Some? ==> r == c
  {
    var (name, version) := Installers.GetOsNameAndVersion(c);
    Alias(c, OsCentos, OsRhel, Before(version, '.'))
  }

  /** `register_platforms`: Fedora, RHEL, then the CentOS alias. */
  function RegisterPlatforms(c: Installers.Context): (r: Result<Installers.Context, Installers.Error>)
    requires Installers.Valid(c)
    ensures (forall k :: k in Fedora.installers ==> k in c.installers) ==> r.Ok?
    ensures r.Ok? ==> Installers.Valid(r.value)
    ensures r.Ok? ==> Installers.GetDefaultOsInstallerKey(r.value, OsFedora) == Ok(Some(FedoraDefault(c.detect)))
    ensures r.Ok? ==> Installers.GetDefaultOsInstallerKey(r.value, OsRhel) == Ok(Some(YumInstaller))
    ensures r.Ok? && c.osOverride.None? && Installers.GetOsNameAndVersion(c).0 == OsCentos ==>
              Installers.GetOsNameAndVersion(r.value) == (OsRhel, Before(Installers.GetOsNameAndVersion(c).1, '.'))
    ensures r.Ok? && Installers.GetOsNameAndVersion(c).0 != OsCentos ==>
              Installers.GetOsNameAndVersion(r.value) == Installers.GetOsNameAndVersion(c)
  {
    var h := RegisterBoth(c);
    if h.Err? then h
    else
      var r := AliasCentos(h.value);
      assert Installers.GetDefaultOsInstallerKey(r, OsFedora) == Installers.GetDefaultOsInstallerKey(h.value, OsFedora);
      assert Installers.GetDefaultOsInstallerKey(r, OsRhel) == Installers.GetDefaultOsInstallerKey(h.value, OsRhel);
      Ok(r)
  }

  // ---------------------------------------------------------------------------
  // rpm_expand and rpm_detect_cmd

  /** `rpm_expand`: a name without `%` is its own expansion. */
  function RpmExpand(name: string, expand: string -> string): (r: string)
    ensures '%' !in name ==> r == name
    ensures '%' in name ==> r == expand(name)
  {
    if '%' !in name then name else expand(name)
  }

  /** `rpm_expand_cmd`: the stripped output of `rpm -E`. */
  function RpmExpandCmd(macro: string, exec: seq<string> -> string): (r: string)
    ensures '%' !in macro ==> r == macro
    ensures '%' in macro ==> r == Strip(exec(["rpm", "-E", macro]))
  {
    RpmExpand(macro, m => Strip(exec(["rpm", "-E", m])))
  }

  /** The query `rpm_detect_cmd` runs on the expanded names. */
  const RpmQuery := ["rpm", "-q", "--whatprovides", "--qf", "[%{PROVIDES}\n]"]

  /** The expanded form of each name, in order. */
  function ExpandAll(names: seq<string>, exec: seq<string> -> string): (r: seq<string>)
    ensures |r| == |names| && forall i :: 0 <= i < |names| ==> r[i] == RpmExpandCmd(names[i], exec)
  {
    seq(|names|, i requires 0 <= i < |names| => RpmExpandCmd(names[i], exec))
  }

  /** The loop of `rpm_detect_cmd`: `raw[i]` is kept when `expanded[i]` is one of the
      output lines. */
  function Provided(raw: seq<string>, expanded: seq<string>, lines: seq<string>): (r: seq<string>)
    requires |raw| == |expanded|
    ensures |r| <= |raw|
    decreases |raw|
  {
    if |raw| == 0 then []
    else
      var rest := Provided(raw[1..], expanded[1..], lines);
      if expanded[0] in lines then [raw[0]] + rest else rest
  }

  /** `rpm_detect_cmd`. */
  function RpmDetectCmd(raw: seq<string>, exec: seq<string> -> string): (r: seq<string>)
    ensures |r| <= |raw|
  {
    var packages := ExpandAll(raw, exec);
    Provided(raw, packages, Split(exec(RpmQuery + packages), '\n'))
  }

  /** The index loop is a filter of the raw names by whether their expansion was
      listed. */
  lemma {:induction false} ProvidedIsKeep(raw: seq<string>, exec: seq<string> -> string, lines: seq<string>)
    ensures Provided(raw, ExpandAll(raw, exec), lines) == Keep(raw, p => RpmExpandCmd(p, exec) in lines)
    decreases |raw|
  {
    if |raw| > 0 {
      assert ExpandAll(raw, exec)[1..] == ExpandAll(raw[1..], exec);
      ProvidedIsKeep(raw[1..], exec, lines);
    }
  }

  /** A name is detected exactly when it was requested and its expansion is a whole
      line of the query's output; the detected names keep the request order. */
  lemma RpmDetectCmdMembers(raw: seq<string>, exec: seq<string> -> string)
    ensures var lines := Split(exec(RpmQuery + ExpandAll(raw, exec)), '\n');
            RpmDetectCmd(raw, exec) == Keep(raw, p => RpmExpandCmd(p, exec) in lines) &&
            forall p :: p in RpmDetectCmd(raw, exec) <==> p in raw && RpmExpandCmd(p, exec) in lines
  {
    var lines := Split(exec(RpmQuery + ExpandAll(raw, exec)), '\n');
    ProvidedIsKeep(raw, exec, lines);
  }

  // ---------------------------------------------------------------------------
  // DnfInstaller and YumInstaller

  /** The expanded names to install. */
  function ExpandEach(names: seq<string>, expand: string -> string): (r: seq<string>)
    ensures |r| == |names| && forall i :: 0 <= i < |names| ==> r[i] == RpmExpand(names[i], expand)
  {
    seq(|names|, i requires 0 <= i < |names| => RpmExpand(names[i], expand))
  }

  /** The four branches shared by the dnf and yum commands; `lenient` is dnf's
      `--setopt=strict=0` or yum's `--skip-broken`. */
  function RpmInstall(manager: string, lenient: string, toInstall: seq<string>, expand: string -> string,
                      interactive: bool, quiet: bool, elev: seq<string>): (r: seq<seq<string>>)
    ensures |toInstall| == 0 <==> r == []
  {
    var packages := ExpandEach(toInstall, expand);
    if |packages| == 0 then []
    else if !interactive && quiet then [elev + [manager, "--assumeyes", "--quiet", lenient, "install"] + packages]
    else if quiet then [elev + [manager, "--quiet", lenient, "install"] + packages]
    else if !interactive then [elev + [manager, "--assumeyes", lenient, "install"] + packages]
    else [elev + [manager, lenient, "install"] + packages]
  }

  /** The four branches are one command whose options are `--assumeyes` exactly when
      not interactive and `--quiet` exactly when quiet, followed by the lenient option
      and `install`, then every expanded name. */
  lemma RpmInstallShape(manager: string, lenient: string, toInstall: seq<string>, expand: string -> string,
                        interactive: bool, quiet: bool, elev: seq<string>)
    ensures var options := Flag(!interactive, "--assumeyes") + Flag(quiet, "--quiet") + [lenient, "install"];
            RpmInstall(manager, lenient, toInstall, expand, interactive, quiet, elev)
              == AllAtOnce(elev, [manager], options, ExpandEach(toInstall, expand))
  {
    var packages := ExpandEach(toInstall, expand);
    var options := Flag(!interactive, "--assumeyes") + Flag(quiet, "--quiet") + [lenient, "install"];
    var words := if !interactive && quiet then [manager, "--assumeyes", "--quiet", lenient, "install"]
                 else if quiet then [manager, "--quiet", lenient, "install"]
                 else if !interactive then [manager, "--assumeyes", lenient, "install"]
                 else [manager, lenient, "install"];
    assert [manager] + options == words;
    assert elev + [manager] + options + packages == elev + words + packages;
  }

  /** `DnfInstaller.get_install_command`. */
  function DnfCommand(toInstall: seq<string>, expand: string -> string, interactive: bool, quiet: bool, elev: seq<string>)
    : (r: seq<seq<string>>)
    ensures |toInstall| == 0 <==> r == []
    ensures |toInstall| > 0 ==> |r| == 1 && Invokes(r[0], elev, [DnfInstaller], ExpandEach(toInstall, expand))
    ensures |toInstall| > 0 ==> Options(r[0], elev, [DnfInstaller], ExpandEach(toInstall, expand))
                                == Flag(!interactive, "--assumeyes") + Flag(quiet, "--quiet") + ["--setopt=strict=0", "install"]
  {
    RpmInstallShape(DnfInstaller, "--setopt=strict=0", toInstall, expand, interactive, quiet, elev);
    RpmInstall(DnfInstaller, "--setopt=strict=0", toInstall, expand, interactive, quiet, elev)
  }

  /** `YumInstaller.get_install_command`. */
  function YumCommand(toInstall: seq<string>, expand: string -> string, interactive: bool, quiet: bool, elev: seq<string>)
    : (r: seq<seq<string>>)
    ensures |toInstall| == 0 <==> r == []
    ensures |toInstall| > 0 ==> |r| == 1 && Invokes(r[0], elev, [YumInstaller], ExpandEach(toInstall, expand))
    ensures |toInstall| > 0 ==> Options(r[0], elev, [YumInstaller], ExpandEach(toInstall, expand))
                                == Flag(!interactive, "--assumeyes") + Flag(quiet, "--quiet") + ["--skip-broken", "install"]
  {
    RpmInstallShape(YumInstaller, "--skip-broken", toInstall, expand, interactive, quiet, elev);
    RpmInstall(YumInstaller, "--skip-broken", toInstall, expand, interactive, quiet, elev)
  }

}
