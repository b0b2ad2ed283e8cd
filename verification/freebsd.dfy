/** src/rosdep2/platforms/freebsd.py: the pkg installer. A package is installed when
    `pkg query %n` prints anything for it; `builtin` always is. */
module FreeBsd {
  import opened Base
  import opened Strings
  import Installers
  import opened Platforms

  const PkgInstaller := "pkg"
  const OsFreeBsd := "freebsd"

  /** `register_platforms`: pkg and pip, pkg the default. */
  function RegisterPlatforms(c: Installers.Context): (r: Result<Installers.Context, Installers.Error>)
    requires Installers.Valid(c)
    ensures (forall k :: k in [PkgInstaller, "pip"] ==> k in c.installers) <==> r.Ok?
    ensures r.Ok? ==> Installers.Valid(r.value)
    ensures r.Ok? ==> Installers.GetDefaultOsInstallerKey(r.value, OsFreeBsd) == Ok(Some(PkgInstaller))
  {
    Register(c, Platform(OsFreeBsd, [PkgInstaller, "pip"], d => PkgInstaller))
  }

  /** `pkg_detect_single`. */
  predicate PkgDetectSingle(p: string, exec: seq<string> -> string) {
    p == "builtin" || Words(exec(["/usr/sbin/pkg", "query", "%n", p])) != []
  }

  /** `pkg_detect`: the installed packages, in request order. */
  function PkgDetect(packages: seq<string>, exec: seq<string> -> string): (r: seq<string>)
    ensures forall p :: p in r <==> p in packages && PkgDetectSingle(p, exec)
    ensures forall p :: p in packages && p == "builtin" ==> p in r
  {
    Keep(packages, p => PkgDetectSingle(p, exec))
  }

  /** With no query output, only `builtin` is detected. */
  lemma {:induction false} SilentQuery(packages: seq<string>)
    ensures PkgDetect(packages, cmd => "") == Keep(packages, p => p == "builtin")
    decreases |packages|
  {
    assert SplitOn("", Whitespace) == [""];
    assert NonEmpty([""]) == NonEmpty([""][1..]);
    assert Words("") == [];
    if |packages| > 0 {
      SilentQuery(packages[1..]);
    }
  }

  /** `PkgInstaller.get_install_command`: one `pkg install -y` with every package. */
  function GetInstallCommand(toInstall: seq<string>, elev: seq<string>): (r: seq<seq<string>>)
    ensures |toInstall| == 0 <==> r == []
    ensures |toInstall| > 0 ==> |r| == 1 && Invokes(r[0], elev, ["/usr/sbin/pkg", "install", "-y"], toInstall)
                                && Options(r[0], elev, ["/usr/sbin/pkg", "install", "-y"], toInstall) == []
  {
    AllAtOnce(elev, ["/usr/sbin/pkg", "install", "-y"], [], toInstall)
  }

}
