/** src/rosdep2/platforms/arch.py: the pacman installer, and Manjaro as an alias of
    Arch. A package is detected when `pacman -T` exits 0 for it, given as `probe`. */
module Arch {
  import opened Base
  import Installers
  import opened Platforms

  const PacmanInstaller := "pacman"
  const OsArch := "arch"
  const OsManjaro := "manjaro"

  /** The Arch platform: source, pacman and pip, pacman the default. */
  const ArchPlatform := Platform(OsArch, ["source", PacmanInstaller, "pip"], d => PacmanInstaller)

  /** `register_platforms`: the Arch platform, then the Manjaro alias, which keeps
      the detected codename. */
  function RegisterPlatforms(c: Installers.Context): (r: Result<Installers.Context, Installers.Error>)
    requires Installers.Valid(c)
    ensures (forall k :: k in ["source", PacmanInstaller, "pip"] ==> k in c.installers) <==> r.Ok?
    ensures r.Ok? ==> Installers.Valid(r.value)
    ensures r.Ok? ==> Installers.GetDefaultOsInstallerKey(r.value, OsArch) == Ok(Some(PacmanInstaller))
    ensures r.Ok? && c.osOverride.None? && Installers.GetOsNameAndVersion(c).0 == OsManjaro ==>
              Installers.GetOsNameAndVersion(r.value) == (OsArch, c.detect.codename)
  {
    ArchKeys(c);
    var a := Register(c, ArchPlatform);
    if a.Err? then a
    else
      var r := Alias(a.value, OsManjaro, OsArch, a.value.detect.codename);
      assert Installers.GetDefaultOsInstallerKey(r, OsArch) == Installers.GetDefaultOsInstallerKey(a.value, OsArch);
      Ok(r)
  }

  /** The Arch keys are registered exactly when each listed one is, and the default
      is one of them. */
  lemma ArchKeys(c: Installers.Context)
    ensures (forall k :: k in ["source", PacmanInstaller, "pip"] ==> k in c.installers) <==>
            (forall i :: 0 <= i < |ArchPlatform.installers| ==> ArchPlatform.installers[i] in c.installers)
    ensures ArchPlatform.defaultInstaller(c.detect) in ArchPlatform.installers
  {
    var ks := ArchPlatform.installers;
    if forall i :: 0 <= i < |ks| ==> ks[i] in c.installers {
      assert ks[0] in c.installers && ks[1] in c.installers && ks[2] in c.installers;
    }
  }

  /** `pacman_detect`. */
  function PacmanDetect(packages: seq<string>, probe: string -> bool): (r: seq<string>)
    ensures forall p :: p in r <==> p in packages && probe(p)
  {
    Keep(packages, probe)
  }

  /** `PacmanInstaller.get_install_command`: one `pacman -S` with every package;
      `--noconfirm` exactly when not interactive, `--needed` exactly when not
      reinstalling, `-q` exactly when quiet. */
  function GetInstallCommand(toInstall: seq<string>, interactive: bool, reinstall: bool, quiet: bool, elev: seq<string>)
    : (r: seq<seq<string>>)
    ensures |toInstall| == 0 <==> r == []
    ensures |toInstall| > 0 ==>
              && |r| == 1 && Invokes(r[0], elev, ["pacman", "-S"], toInstall)
              && ("--noconfirm" in Options(r[0], elev, ["pacman", "-S"], toInstall) <==> !interactive)
              && ("--needed" in Options(r[0], elev, ["pacman", "-S"], toInstall) <==> !reinstall)
              && ("-q" in Options(r[0], elev, ["pacman", "-S"], toInstall) <==> quiet)
  {
    AllAtOnce(elev, ["pacman", "-S"], Flag(!interactive, "--noconfirm") + Flag(!reinstall, "--needed") + Flag(quiet, "-q"), toInstall)
  }

}
