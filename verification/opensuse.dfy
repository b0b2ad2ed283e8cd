/** src/rosdep2/platforms/opensuse.py: the zypper installer. `rpm -q` prints the
    name of each installed package and an error sentence for each other one, so a
    non-empty line without a space names an installed package. The install command
    always starts with `sudo`. */
module OpenSuse {
  import opened Base
  import opened Strings
  import Installers
  import opened Platforms

  const ZypperInstaller := "zypper"
  const OsOpenSuse := "opensuse"

  /** `register_platforms`: source, then zypper, the default. */
  function RegisterPlatforms(c: Installers.Context): (r: Result<Installers.Context, Installers.Error>)
    requires Installers.Valid(c)
    ensures r.Ok? <==> "source" in c.installers && ZypperInstaller in c.installers
    ensures r.Ok? ==> Installers.Valid(r.value)
    ensures r.Ok? ==> Installers.GetDefaultOsInstallerKey(r.value, OsOpenSuse) == Ok(Some(ZypperInstaller))
    ensures r.Ok? ==> Installers.GetOsInstallerKeys(r.value, OsOpenSuse).0
                      == Installers.GetOsInstallerKeys(c, OsOpenSuse).0 + ["source", ZypperInstaller]
  {
    var added := AddKeys(c, OsOpenSuse, ["source", ZypperInstaller]);
    if added.Err? then added
    else Installers.SetDefaultOsInstallerKey(added.value, OsOpenSuse, ZypperInstaller)
  }

  /** The query for the requested packages. */
  function RpmQuery(packages: seq<string>): seq<string> {
    ["rpm", "-q", "--queryformat", "%{NAME}\n"] + packages
  }

  /** Whether an output line names a package rather than reporting an error. */
  predicate NamesPackage(line: string) {
    line != "" && ' ' !in line
  }

  /** `rpm_detect`: the output lines that name packages, in output order. */
  function RpmDetect(packages: seq<string>, exec: seq<string> -> string): (r: seq<string>)
    ensures forall x :: x in r <==> x in Split(exec(RpmQuery(packages)), '\n') && NamesPackage(x)
  {
    Keep(Split(exec(RpmQuery(packages)), '\n'), NamesPackage)
  }

  /** When `rpm` prints one name per line, each installed one, exactly those names
      are detected, in order. */
  lemma {:induction false} DetectsPrintedNames(packages: seq<string>, exec: seq<string> -> string, names: seq<string>)
    requires forall i :: 0 <= i < |names| ==> NamesPackage(names[i]) && '\n' !in names[i]
    requires exec(RpmQuery(packages)) == Join(names + [""], '\n')
    ensures RpmDetect(packages, exec) == names
  {
    assert forall i :: 0 <= i < |names + [""]| ==> FreeOf((names + [""])[i], {'\n'});
    SplitJoin(names + [""], '\n');
    KeepAppend(names, [""], NamesPackage);
    KeepAll(names);
  }

  lemma {:induction false} KeepAll(names: seq<string>)
    requires forall i :: 0 <= i < |names| ==> NamesPackage(names[i])
    ensures Keep(names, NamesPackage) == names
  {
    if |names| > 0 {
      KeepAll(names[1..]);
    }
  }

  /** `ZypperInstaller.get_install_command`: one `sudo zypper install` carrying every
      package, with `-yl` exactly when not interactive. */
  function GetInstallCommand(toInstall: seq<string>, interactive: bool): (r: seq<seq<string>>)
    ensures r == AllAtOnce(["sudo"], ["zypper", "install"], Flag(!interactive, "-yl"), toInstall)
  {
    if |toInstall| == 0 then []
    else if !interactive then
      assert ["sudo"] + ["zypper", "install"] + ["-yl"] + toInstall == ["sudo", "zypper", "install", "-yl"] + toInstall;
      [["sudo", "zypper", "install", "-yl"] + toInstall]
    else
      assert ["sudo"] + ["zypper", "install"] + [] + toInstall == ["sudo", "zypper", "install"] + toInstall;
      [["sudo", "zypper", "install"] + toInstall]
  }
}
