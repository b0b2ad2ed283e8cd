/** src/rosdep2/platforms/conda.py: the conda installer. Detection reads the
    environment's package list (`conda list --json`, given here as name and version
    pairs in listing order); a request may pin a version as `name version`. The
    install command is a single `install` from the robostack and conda-forge
    channels. Which of micromamba, mamba and conda runs is `runs`. */
module Conda {
  import opened Base
  import opened Strings
  import Installers
  import opened Platforms

  const CondaInstaller := "conda"
  const OsConda := "conda"

  /** The executables tried, in order. */
  const Candidates := ["micromamba", "mamba", "conda"]

  /** `get_conda_mamba_cmd`: the first candidate that runs, else the exception. */
  function GetCondaMambaCmd(runs: string -> bool): (r: Result<string, string>)
    ensures r.Ok? <==> exists i :: 0 <= i < |Candidates| && runs(Candidates[i])
    ensures r.Ok? ==> r.value in Candidates && runs(r.value)
    ensures r.Ok? ==> forall i :: 0 <= i < Rank(r.value) ==> !runs(Candidates[i])
    ensures r.Err? ==> r.error == "None of micromamba, mamba, conda was found."
  {
    if runs(Candidates[0]) then Ok(Candidates[0])
    else if runs(Candidates[1]) then Ok(Candidates[1])
    else if runs(Candidates[2]) then Ok(Candidates[2])
    else
      NotFoundMessage();
      Err("None of " + JoinWith(Candidates, ", ") + " was found.")
  }

  /** The message names the candidates in order, separated by commas. */
  lemma NotFoundMessage()
    ensures "None of " + JoinWith(Candidates, ", ") + " was found." == "None of micromamba, mamba, conda was found."
  {
    CandidatesJoined();
  }

  lemma CandidatesJoined()
    ensures JoinWith(Candidates, ", ") == "micromamba, mamba, conda"
  {
    var tail := ["conda"];
    assert JoinWith(tail, ", ") == "conda";
    JoinWithCons("mamba", tail, ", ");
    assert ["mamba", "conda"] == ["mamba"] + tail;
    var rest := ["mamba", "conda"];
    JoinWithCons("micromamba", rest, ", ");
    assert Candidates == ["micromamba"] + rest;
  }

  /** A candidate's place in the order. */
  function Rank(c: string): nat {
    if c == Candidates[0] then 0 else if c == Candidates[1] then 1 else 2
  }

  /** `register_platforms`: conda is the only installer and the default. */
  function RegisterPlatforms(c: Installers.Context): (r: Result<Installers.Context, Installers.Error>)
    requires Installers.Valid(c)
    ensures CondaInstaller in c.installers <==> r.Ok?
    ensures r.Ok? ==> Installers.Valid(r.value)
    ensures r.Ok? ==> Installers.GetDefaultOsInstallerKey(r.value, OsConda) == Ok(Some(CondaInstaller))
  {
    Register(c, Platform(OsConda, [CondaInstaller], d => CondaInstaller))
  }

  /** Requests that are always reported installed. */
  predicate IsGl(req: string) {
    req == "REQUIRE_OPENGL" || req == "REQUIRE_GL"
  }

  /** The version listed for the first installed package of that name. */
  function FirstVersion(installed: seq<(string, string)>, name: string): (r: Option<string>)
    ensures r.None? <==> forall i :: 0 <= i < |installed| ==> installed[i].0 != name
    ensures r.Some? ==> exists i :: 0 <= i < |installed| && installed[i] == (name, r.value) &&
                                    forall j :: 0 <= j < i ==> installed[j].0 != name
  {
    if |installed| == 0 then None
    else if installed[0].0 == name then Some(installed[0].1)
    else
      var r := FirstVersion(installed[1..], name);
      assert forall i :: 1 <= i < |installed| ==> installed[i] == installed[1..][i - 1];
      r
  }

  /** `requested.split(' ')[0]` and `[1]` of a request containing a space. */
  function NameAndVersion(req: string): (r: (string, string))
    requires ' ' in req
    ensures ' ' !in r.0 && ' ' !in r.1
    ensures req == r.0 + " " + r.1 || (|r.0| + 1 + |r.1| < |req| && req[..|r.0| + 1 + |r.1| + 1] == r.0 + " " + r.1 + " ")
  {
    var name := Before(req, ' ');
    var rest := req[|name| + 1..];
    var version := Before(rest, ' ');
    assert req == name + " " + rest;
    if ' ' in rest then
      assert rest[..|version| + 1] == version + " ";
      assert req[..|name| + 1 + |version| + 1] == name + " " + rest[..|version| + 1];
      (name, version)
    else (name, version)
  }

  /** The first installed listing of `name` has exactly `version`, or a version that
      starts with it and a dot. */
  predicate PinMatches(installed: seq<(string, string)>, name: string, version: string) {
    var v := FirstVersion(installed, name);
    v.Some? && (v.value == version || StartsWith(v.value, version + "."))
  }

  /** Whether `conda_detect` reports one request: always for the GL markers; for a
      plain name when it is installed; for `name version` when the pin matches. */
  predicate Detected(installed: seq<(string, string)>, req: string) {
    if IsGl(req) then true
    else if ' ' in req then
      var (name, version) := NameAndVersion(req);
      PinMatches(installed, name, version)
    else FirstVersion(installed, req).Some?
  }

  /** `conda_detect`: the detected requests, in request order. */
  function CondaDetect(packages: seq<string>, installed: seq<(string, string)>): (r: seq<string>)
    ensures forall p :: p in packages && IsGl(p) ==> p in r
    ensures forall p :: ' ' !in p && !IsGl(p) ==>
              (p in r <==> p in packages && exists i :: 0 <= i < |installed| && installed[i].0 == p)
    ensures forall p :: ' ' in p && !IsGl(p) ==>
              (p in r <==> p in packages && PinMatches(installed, NameAndVersion(p).0, NameAndVersion(p).1))
    ensures forall p :: p in r ==> p in packages
  {
    Keep(packages, req => Detected(installed, req))
  }

  /** The packages as conda reads them: `name version` becomes `name=version`. */
  function Pinned(packages: seq<string>): (r: seq<string>)
    ensures |r| == |packages|
    ensures forall i :: 0 <= i < |r| ==> ' ' !in r[i] && |r[i]| == |packages[i]|
    ensures forall i :: 0 <= i < |r| && ' ' !in packages[i] ==> r[i] == packages[i]
    ensures forall i, k :: 0 <= i < |r| && 0 <= k < |r[i]| ==>
              r[i][k] == (if packages[i][k] == ' ' then '=' else packages[i][k])
  {
    seq(|packages|, i requires 0 <= i < |packages| =>
      if ' ' !in packages[i] then packages[i] else ReplaceChar(packages[i], ' ', '='))
  }

  /** The program words: the executable, `install`, and the two channels. */
  function CondaProgram(exe: string): seq<string> {
    [exe, "install", "-c", "robostack", "-c", "conda-forge"]
  }

  /** `CondaInstaller.get_install_command`: nothing to install needs no executable;
      otherwise one command with `-y` exactly when not interactive, `-q` exactly when
      quiet and `--force-reinstall` exactly when reinstalling. */
  function GetInstallCommand(runs: string -> bool, toInstall: seq<string>, interactive: bool, reinstall: bool, quiet: bool)
    : (r: Result<seq<seq<string>>, string>)
    ensures |toInstall| == 0 ==> r == Ok([])
    ensures |toInstall| > 0 ==> (r.Ok? <==> GetCondaMambaCmd(runs).Ok?)
    ensures |toInstall| > 0 && r.Ok? ==>
              var program := CondaProgram(GetCondaMambaCmd(runs).value);
              && |r.value| == 1
              && Invokes(r.value[0], [], program, Pinned(toInstall))
              && ("-y" in Options(r.value[0], [], program, Pinned(toInstall)) <==> !interactive)
              && ("-q" in Options(r.value[0], [], program, Pinned(toInstall)) <==> quiet)
              && ("--force-reinstall" in Options(r.value[0], [], program, Pinned(toInstall)) <==> reinstall)
  {
    var packages := Pinned(toInstall);
    if |packages| == 0 then Ok([])
    else
      match GetCondaMambaCmd(runs)
      case Err(e) => Err(e)
      case Ok(exe) =>
        var options := Flag(!interactive, "-y") + Flag(quiet, "-q") + Flag(reinstall, "--force-reinstall");
        Assemble([], CondaProgram(exe), options, packages);
        Ok([[] + CondaProgram(exe) + options + packages])
  }
}
