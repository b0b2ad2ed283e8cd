/** src/rosdep2/platforms/slackware.py: the sbotools and slackpkg installers.
    sbotools detects a package when some entry of `/var/log/packages` starts with its
    name, ignoring case (`grep -i '^name'`, the name read literally); slackpkg detects
    it when `slackpkg search` exits 0, given as `probe`. Whether each tool's program
    exists is a flag. */
module Slackware {
  import opened Base
  import opened Strings
  import Installers
  import opened Platforms

  const OsSlackware := "slackware"
  const SbotoolsInstaller := "sbotools"
  const SlackpkgInstaller := "slackpkg"

  /** `register_platforms`: sbotools, pip, source and slackpkg, sbotools the default. */
  function RegisterPlatforms(c: Installers.Context): (r: Result<Installers.Context, Installers.Error>)
    requires Installers.Valid(c)
    ensures (forall k :: k in [SbotoolsInstaller, "pip", "source", SlackpkgInstaller] ==> k in c.installers) <==> r.Ok?
    ensures r.Ok? ==> Installers.Valid(r.value)
    ensures r.Ok? ==> Installers.GetDefaultOsInstallerKey(r.value, OsSlackware) == Ok(Some(SbotoolsInstaller))
  {
    Register(c, Platform(OsSlackware, [SbotoolsInstaller, "pip", "source", SlackpkgInstaller], d => SbotoolsInstaller))
  }

  /** Whether some entry starts with `p`, ignoring case. */
  function AnyStartsWith(entries: seq<string>, p: string): (b: bool)
    ensures b <==> exists i :: 0 <= i < |entries| && StartsWith(Lower(entries[i]), Lower(p))
  {
    if |entries| == 0 then false
    else
      assert forall i :: 1 <= i < |entries| ==> entries[i] == entries[1..][i - 1];
      StartsWith(Lower(entries[0]), Lower(p)) || AnyStartsWith(entries[1..], p)
  }

  /** `sbotools_detect`: the requested packages some installed entry starts with. */
  function SbotoolsDetect(packages: seq<string>, listing: string): (r: seq<string>)
    ensures forall p :: p in r <==> (p in packages &&
              exists i :: 0 <= i < |Lines(listing)| && StartsWith(Lower(Lines(listing)[i]), Lower(p)))
  {
    Keep(packages, p => AnyStartsWith(Lines(listing), p))
  }

  /** A package is detected when an entry of the listing starts with its name in any
      case, and not when no entry does. */
  lemma {:induction false} DetectsListedEntry(p: string, entries: seq<string>, i: nat)
    requires i < |entries| && entries[|entries| - 1] != ""
    requires forall j :: 0 <= j < |entries| ==> FreeOf(entries[j], {'\n'})
    ensures StartsWith(Lower(entries[i]), Lower(p)) ==> SbotoolsDetect([p], Join(entries, '\n')) == [p]
    ensures (forall j :: 0 <= j < |entries| ==> !StartsWith(Lower(entries[j]), Lower(p))) ==>
              SbotoolsDetect([p], Join(entries, '\n')) == []
  {
    SplitJoin(entries, '\n');
    assert Lines(Join(entries, '\n')) == entries;
  }

  /** What Python 3 says when `communicate` is handed a `str` for a binary pipe. */
  const NotBytes := "memoryview: a bytes-like object is required, not 'str'"

  /** `sbotools_detect` as Python 3 runs it. `read_stdout` returns a decoded `str`,
      and `communicate` on grep's binary stdin raises `TypeError` for any non-empty
      one. An empty listing is written as nothing and grep finds no line. So a call
      with packages either raises or detects nothing. */
  function SbotoolsDetectAsWritten(packages: seq<string>, listing: string): (r: Result<seq<string>, string>)
    ensures r.Err? <==> |packages| > 0 && listing != ""
    ensures r.Err? ==> r.error == NotBytes
    ensures r.Ok? ==> r.value == []
  {
    if |packages| > 0 && listing != "" then Err(NotBytes) else Ok([])
  }

  /** A package that an installed entry names is detected by `SbotoolsDetect`, while
      under Python 3 the same call raises. */
  lemma {:induction false} PipeRaisesOnInstalled(p: string, entries: seq<string>, i: nat)
    requires i < |entries| && entries[|entries| - 1] != ""
    requires forall j :: 0 <= j < |entries| ==> FreeOf(entries[j], {'\n'})
    requires StartsWith(Lower(entries[i]), Lower(p))
    ensures SbotoolsDetect([p], Join(entries, '\n')) == [p]
    ensures SbotoolsDetectAsWritten([p], Join(entries, '\n')) == Err(NotBytes)
  {
    DetectsListedEntry(p, entries, i);
    JoinLastNonEmpty(entries);
  }

  /** Joining entries whose last one is non-empty gives a non-empty string. */
  lemma {:induction false} JoinLastNonEmpty(entries: seq<string>)
    requires |entries| > 0 && entries[|entries| - 1] != ""
    ensures Join(entries, '\n') != ""
  {
    if |entries| > 1 {
      assert entries[1..][|entries[1..]| - 1] == entries[|entries| - 1];
      JoinLastNonEmpty(entries[1..]);
    }
  }

  /** `SbotoolsInstaller.get_install_command`: `InstallFailed` without sbotools;
      otherwise `sboinstall <p> -j` per package. */
  function SbotoolsCommand(available: bool, toInstall: seq<string>, elev: seq<string>)
    : (r: Result<seq<seq<string>>, InstallFailed>)
    ensures r.Err? <==> !available
    ensures r.Err? ==> r.error == InstallFailed(SbotoolsInstaller, "sbotools is not installed")
    ensures r.Ok? ==> |r.value| == |toInstall|
    ensures r.Ok? ==> forall i :: 0 <= i < |toInstall| ==> r.value[i] == elev + ["sboinstall", toInstall[i], "-j"]
  {
    if !available then Err(InstallFailed(SbotoolsInstaller, "sbotools is not installed"))
    else if |toInstall| == 0 then Ok([])
    else Ok(EachPackage(elev, ["sboinstall"], toInstall, ["-j"]))
  }

  /** `slackpkg_detect`. */
  function SlackpkgDetect(packages: seq<string>, probe: string -> bool): (r: seq<string>)
    ensures forall p :: p in r <==> p in packages && probe(p)
  {
    Keep(packages, probe)
  }

  /** `SlackpkgInstaller.get_install_command`: `slackpkg install <p>` per package,
      whatever `interactive` says. */
  function SlackpkgCommand(toInstall: seq<string>, elev: seq<string>): (r: seq<seq<string>>)
    ensures |r| == |toInstall|
    ensures forall i :: 0 <= i < |r| ==> Invokes(r[i], elev, ["slackpkg", "install"], [toInstall[i]]) &&
                                         Options(r[i], elev, ["slackpkg", "install"], [toInstall[i]]) == []
  {
    if |toInstall| == 0 then [] else PerPackage(elev, ["slackpkg", "install"], [], toInstall)
  }
}
