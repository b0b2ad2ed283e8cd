/** src/rosdep2/platforms/alpine.py: the apk installer. `apk info --installed` prints
    the installed ones of the packages it is given, one per line. */
module Alpine {
  import opened Base
  import opened Strings
  import Installers
  import opened Platforms

  const ApkInstaller := "apk"
  const OsAlpine := "alpine"

  /** `register_platforms`: apk, pip and source, apk the default. */
  function RegisterPlatforms(c: Installers.Context): (r: Result<Installers.Context, Installers.Error>)
    requires Installers.Valid(c)
    ensures (forall k :: k in [ApkInstaller, "pip", "source"] ==> k in c.installers) <==> r.Ok?
    ensures r.Ok? ==> Installers.Valid(r.value)
    ensures r.Ok? ==> Installers.GetDefaultOsInstallerKey(r.value, OsAlpine) == Ok(Some(ApkInstaller))
  {
    Register(c, Platform(OsAlpine, [ApkInstaller, "pip", "source"], d => ApkInstaller))
  }

  /** `apk_detect`: no query for no packages; otherwise the output's lines. */
  function ApkDetect(pkgs: seq<string>, exec: seq<string> -> string): (r: seq<string>)
    ensures |pkgs| == 0 ==> r == []
    ensures forall i :: 0 <= i < |r| ==> '\n' !in r[i]
  {
    if |pkgs| == 0 then []
    else
      var r := Lines(exec(["apk", "info", "--installed"] + pkgs));
      assert forall i :: 0 <= i < |r| ==> FreeOf(r[i], {'\n'});
      r
  }

  /** Names printed one per line, with or without a final line break (`final`),
      are read back in order; without the final line break the last name must not
      be empty, since an empty last line is not a line. */
  lemma {:induction false} ReadsListing(pkgs: seq<string>, exec: seq<string> -> string, names: seq<string>, final: bool)
    requires |pkgs| > 0 && |names| > 0 && (!final ==> names[|names| - 1] != "")
    requires forall i :: 0 <= i < |names| ==> FreeOf(names[i], {'\n'})
    requires exec(["apk", "info", "--installed"] + pkgs) == Join(names, '\n') + (if final then "\n" else "")
    ensures ApkDetect(pkgs, exec) == names
  {
    if final {
      JoinAppend(names, "", '\n');
      assert Join(names, '\n') + "\n" == Join(names + [""], '\n');
      assert forall i :: 0 <= i < |names + [""]| ==> FreeOf((names + [""])[i], {'\n'});
      SplitJoin(names + [""], '\n');
      assert (names + [""])[..|names|] == names;
    } else {
      assert Join(names, '\n') + "" == Join(names, '\n');
      SplitJoin(names, '\n');
    }
  }

  /** `ApkInstaller.get_install_command`: one `apk add` with every package,
      `--interactive` exactly when interactive and `--quiet` exactly when quiet. */
  function GetInstallCommand(toInstall: seq<string>, interactive: bool, quiet: bool, elev: seq<string>): (r: seq<seq<string>>)
    ensures |toInstall| == 0 <==> r == []
    ensures |toInstall| > 0 ==>
              && |r| == 1 && Invokes(r[0], elev, ["apk", "add"], toInstall)
              && ("--interactive" in Options(r[0], elev, ["apk", "add"], toInstall) <==> interactive)
              && ("--quiet" in Options(r[0], elev, ["apk", "add"], toInstall) <==> quiet)
  {
    AllAtOnce(elev, ["apk", "add"], Flag(interactive, "--interactive") + Flag(quiet, "--quiet"), toInstall)
  }
}
