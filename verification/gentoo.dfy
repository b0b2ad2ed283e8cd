/** src/rosdep2/platforms/gentoo.py: the equery installer. Command output is the
    parameter `exec` (argument list to standard output); whether `/usr/bin/equery`
    exists is the flag `present`. */
module Gentoo {
  import opened Base
  import Installers
  import opened Platforms

  const EqueryInstaller := "equery"
  const OsGentoo := "gentoo"

  /** `register_platforms`: equery and source, equery the default. */
  function RegisterPlatforms(c: Installers.Context): (r: Result<Installers.Context, Installers.Error>)
    requires Installers.Valid(c)
    ensures (forall k :: k in [EqueryInstaller, "source"] ==> k in c.installers) <==> r.Ok?
    ensures r.Ok? ==> Installers.Valid(r.value)
    ensures r.Ok? ==> Installers.GetDefaultOsInstallerKey(r.value, OsGentoo) == Ok(Some(EqueryInstaller))
  {
    Register(c, Platform(OsGentoo, [EqueryInstaller, "source"], d => EqueryInstaller))
  }

  /** Python's `s.count("")`: one match before each character and one at the end. */
  function CountEmpty(s: string): nat {
    |s| + 1
  }

  /** `equery_detect_single`, as written: the test `std_out.count("") == 1`. */
  predicate EqueryDetectSingle(p: string, exec: seq<string> -> string) {
    CountEmpty(exec(["equery", "-q", "l", p])) == 1
  }

  /** `equery_detect`: a package counts as detected exactly when `equery -q l` prints
      nothing for it. */
  function EqueryDetect(packages: seq<string>, exec: seq<string> -> string): (r: seq<string>)
    ensures |r| <= |packages|
    ensures forall p :: p in r <==> p in packages && exec(["equery", "-q", "l", p]) == ""
  {
    Keep(packages, p => EqueryDetectSingle(p, exec))
  }

  /** The detected packages keep their order: detecting a concatenation detects each
      part. */
  lemma DetectAppend(xs: seq<string>, ys: seq<string>, exec: seq<string> -> string)
    ensures EqueryDetect(xs + ys, exec) == EqueryDetect(xs, exec) + EqueryDetect(ys, exec)
  {
    KeepAppend(xs, ys, p => EqueryDetectSingle(p, exec));
  }

  /** `NameError` raised when a name is not defined. */
  datatype NameError = NameError(name: string)

  /** `equery_available` as written: without `/usr/bin/equery` it is `False`; with it,
      the comparison reads `stdout`, a name the function never binds (the output was
      stored in `std_out`), so it raises `NameError`. */
  function EqueryAvailableAsWritten(present: bool): (r: Result<bool, NameError>)
    ensures !present ==> r == Ok(false)
    ensures present ==> r == Err(NameError("stdout"))
  {
    if !present then Ok(false) else Err(NameError("stdout"))
  }

  /** `equery_available` as evidently intended: characters 8 to 12 of `equery -V` (the
      gentoolkit version after the program name) are `"0.3."`. */
  function EqueryAvailable(present: bool, exec: seq<string> -> string): (r: bool)
    ensures r ==> present
    ensures r <==> present && PySlice(exec(["equery", "-V"]), 8, 12) == "0.3."
  {
    present && PySlice(exec(["equery", "-V"]), 8, 12) == "0.3."
  }

  /** gentoolkit 0.3 is accepted and 0.2 is not. */
  lemma AvailableVersions(exec: seq<string> -> string)
    ensures exec(["equery", "-V"]) == "equery (0.3.0.5)" ==> EqueryAvailable(true, exec)
    ensures exec(["equery", "-V"]) == "equery (0.2.4.2)" ==> !EqueryAvailable(true, exec)
  {
    if exec(["equery", "-V"]) == "equery (0.3.0.5)" {
      assert "equery (0.3.0.5)"[8..12] == "0.3.";
    }
    if exec(["equery", "-V"]) == "equery (0.2.4.2)" {
      assert "equery (0.2.4.2)"[8..12] == "0.2.";
    }
  }

  /** One `sudo emerge` (with `-u` when `update`) per package; no elevation hook. */
  function Emerge(update: bool, packages: seq<string>): (r: seq<seq<string>>)
    ensures |r| == |packages|
    ensures forall i :: 0 <= i < |r| ==>
              Invokes(r[i], [], ["sudo", "emerge"], [packages[i]]) &&
              Options(r[i], [], ["sudo", "emerge"], [packages[i]]) == Flag(update, "-u")
  {
    PerPackage([], ["sudo", "emerge"], Flag(update, "-u"), packages)
  }

  /** `EqueryInstaller.get_install_command` as written: `[]` for nothing to install,
      otherwise the `NameError` of `equery_available` when equery is present, and
      `sudo emerge -u` per package when it is not. */
  function GetInstallCommandAsWritten(present: bool, toInstall: seq<string>): (r: Result<seq<seq<string>>, NameError>)
    ensures |toInstall| == 0 ==> r == Ok([])
    ensures |toInstall| > 0 ==> (r.Err? <==> present)
    ensures r.Ok? ==> r.value == Emerge(true, toInstall)
  {
    if |toInstall| == 0 then Ok([])
    else
      match EqueryAvailableAsWritten(present)
      case Err(e) => Err(e)
      case Ok(available) => Ok(if available then Emerge(false, toInstall) else Emerge(true, toInstall))
  }

  /** `EqueryInstaller.get_install_command` with the intended availability check:
      `sudo emerge p` per package when equery 0.3 is available, `sudo emerge -u p`
      otherwise; `interactive` changes nothing. */
  function GetInstallCommand(present: bool, exec: seq<string> -> string, toInstall: seq<string>): (r: seq<seq<string>>)
    ensures |r| == |toInstall|
    ensures forall i :: 0 <= i < |r| ==>
              Invokes(r[i], [], ["sudo", "emerge"], [toInstall[i]]) &&
              ("-u" in Options(r[i], [], ["sudo", "emerge"], [toInstall[i]]) <==> !EqueryAvailable(present, exec))
  {
    if |toInstall| == 0 then [] else Emerge(!EqueryAvailable(present, exec), toInstall)
  }

  /** Where equery is missing, the two versions agree. */
  lemma AgreeWithoutEquery(exec: seq<string> -> string, toInstall: seq<string>)
    ensures GetInstallCommandAsWritten(false, toInstall) == Ok(GetInstallCommand(false, exec, toInstall))
  {
  }

  /** The two commands for `a` and `b`, with and without equery 0.3. */
  lemma TwoPackages(exec: seq<string> -> string)
    ensures EqueryAvailable(true, exec) ==>
              GetInstallCommand(true, exec, ["a", "b"]) == [["sudo", "emerge", "a"], ["sudo", "emerge", "b"]]
    ensures GetInstallCommand(false, exec, ["a", "b"]) == [["sudo", "emerge", "-u", "a"], ["sudo", "emerge", "-u", "b"]]
  {
    var pkgs := ["a", "b"];
    var program := ["sudo", "emerge"];
    assert Flag(true, "-u") == ["-u"] && Flag(false, "-u") == [];
    assert [] + program + Flag(false, "-u") + ["a"] == ["sudo", "emerge", "a"];
    assert [] + program + Flag(false, "-u") + ["b"] == ["sudo", "emerge", "b"];
    assert seq(|pkgs|, i requires 0 <= i < |pkgs| => [] + program + Flag(false, "-u") + [pkgs[i]])
        == [["sudo", "emerge", "a"], ["sudo", "emerge", "b"]];
    assert [] + program + Flag(true, "-u") + ["a"] == ["sudo", "emerge", "-u", "a"];
    assert [] + program + Flag(true, "-u") + ["b"] == ["sudo", "emerge", "-u", "b"];
    assert seq(|pkgs|, i requires 0 <= i < |pkgs| => [] + program + Flag(true, "-u") + [pkgs[i]])
        == [["sudo", "emerge", "-u", "a"], ["sudo", "emerge", "-u", "b"]];
  }
}
