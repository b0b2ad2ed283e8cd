/** src/rosdep2/platforms/pip.py: finding a pip to run, detecting installed Python
    packages from `pip freeze` (and, when the real shell is used, `pip show`), and the
    per-package `pip install -U` commands.

    The environment `get_pip_command` probes is a `PipEnv`. Running a command is a
    function from the command to its output, and `pip show` a function from the
    package to its return code and output. */
module Pip {
  import opened Base
  import opened Strings
  import opened Platforms

  const PipInstaller := "pip"

  /** What `get_pip_command` looks at: `ROS_PYTHON_VERSION`, the first character of
      `sys.version`, `sys.executable`, whether `import pip` works, and which commands
      run with exit status 0. */
  datatype PipEnv = PipEnv(
    rosPythonVersion: string,
    pythonMajor: char,
    executable: string,
    pipImportable: bool,
    available: seq<string> -> bool)

  /** `get_pip_command`: `pipN`, else this interpreter's `-m pip` when it is the
      requested major version and has pip, else `pythonN -m pip`, else nothing. */
  function GetPipCommand(env: PipEnv): (r: Option<seq<string>>)
    ensures var pipN := ["pip" + env.rosPythonVersion];
            var self := [env.executable, "-m", "pip"];
            var pythonN := ["python" + env.rosPythonVersion, "-m", "pip"];
            && (r.Some? ==> r.value in {pipN, self, pythonN})
            && (env.available(pipN) ==> r == Some(pipN))
            && (r.Some? && r.value == self && self != pipN && self != pythonN ==> env.rosPythonVersion == [env.pythonMajor] && env.pipImportable)
            && (r.None? <==> !env.available(pipN) && !(env.rosPythonVersion == [env.pythonMajor] && env.pipImportable)
                             && !env.available(pythonN))
  {
    var pipN := ["pip" + env.rosPythonVersion];
    if env.available(pipN) then Some(pipN)
    else if env.rosPythonVersion == [env.pythonMajor] && env.pipImportable then Some([env.executable, "-m", "pip"])
    else
      var pythonN := ["python" + env.rosPythonVersion, "-m", "pip"];
      if env.available(pythonN) then Some(pythonN) else None
  }

  /** The tests' three cases: `pip3` when it runs; this interpreter when nothing runs;
      `python3 -m pip` when only that runs and this interpreter is another version. */
  lemma PipCommandChoices(exe: string)
    ensures GetPipCommand(PipEnv("3", '3', exe, true, cmd => true)) == Some(["pip3"])
    ensures GetPipCommand(PipEnv("3", '3', exe, true, cmd => false)) == Some([exe, "-m", "pip"])
    ensures GetPipCommand(PipEnv("3", '2', exe, true, cmd => |cmd| > 0 && cmd[0] != "pip3"))
            == Some(["python3", "-m", "pip"])
  {
    assert "pip" + "3" == "pip3";
    assert "python" + "3" == "python3";
  }

  /** `line.split('==')[0]`: the package name of a `pip freeze` line. */
  function FreezeName(line: string): (r: string)
    ensures |r| <= |line| && line[..|r|] == r
    ensures forall j :: !OccursAt(r, "==", j)
    ensures (forall j :: !OccursAt(line, "==", j)) ==> r == line
  {
    var k := Find(line, "==");
    if k == -1 then
      assert line[..|line|] == line;
      line
    else
      assert forall j :: OccursAt(line[..k], "==", j) ==> OccursAt(line, "==", j) by {
        forall j | OccursAt(line[..k], "==", j) ensures OccursAt(line, "==", j) {
          assert line[..k][j..j + 2] == line[j..j + 2];
        }
      }
      line[..k]
  }

  /** The names the freeze lines that are requested give, in line order. */
  function FreezeMatches(lines: seq<string>, pkgs: seq<string>): (r: seq<string>)
    ensures forall p :: p in r ==> p in pkgs
    decreases |lines|
  {
    if |lines| == 0 then []
    else
      var rest := FreezeMatches(lines[1..], pkgs);
      if FreezeName(lines[0]) in pkgs then [FreezeName(lines[0])] + rest else rest
  }

  /** A requested package is matched exactly when some freeze line names it. */
  lemma {:induction false} FreezeMatchesIff(lines: seq<string>, pkgs: seq<string>, p: string)
    ensures p in FreezeMatches(lines, pkgs) <==> p in pkgs && exists i :: 0 <= i < |lines| && FreezeName(lines[i]) == p
    decreases |lines|
  {
    if |lines| > 0 {
      FreezeMatchesIff(lines[1..], pkgs, p);
      if exists i :: 0 <= i < |lines| && FreezeName(lines[i]) == p {
        var i :| 0 <= i < |lines| && FreezeName(lines[i]) == p;
        if i > 0 { assert FreezeName(lines[1..][i - 1]) == p; }
      }
      if exists i :: 0 <= i < |lines[1..]| && FreezeName(lines[1..][i]) == p {
        var i :| 0 <= i < |lines[1..]| && FreezeName(lines[1..][i]) == p;
        assert FreezeName(lines[i + 1]) == p;
      }
    }
  }

  /** `pip_detect`. `shell` is set when no `exec_fn` was given: only then are the
      packages freeze missed asked about one by one with `pip show`, which detects a
      package when it exits 0 with output. */
  function PipDetect(pkgs: seq<string>, pipCmd: Option<seq<string>>, exec: seq<string> -> string, shell: bool,
                     show: string -> (int, string)): (r: seq<string>)
    ensures pipCmd.None? ==> r == []
    ensures forall p :: p in r ==> p in pkgs
    ensures pipCmd.Some? ==> var frozen := FreezeMatches(Split(exec(pipCmd.value + ["freeze"]), '\n'), pkgs);
                             |frozen| <= |r| && r[..|frozen|] == frozen && (!shell ==> r == frozen)
  {
    if pipCmd.None? then []
    else
      var frozen := FreezeMatches(Split(exec(pipCmd.value + ["freeze"]), '\n'), pkgs);
      if !shell then frozen
      else
        var shown := Keep(Keep(pkgs, p => p !in frozen), p => show(p).0 == 0 && Strip(show(p).1) != "");
        assert (frozen + shown)[..|frozen|] == frozen;
        frozen + shown
  }

  /** The `pip show` fallback only adds packages `pip freeze` did not list, and only
      ones it shows. */
  lemma ShowAddsOnlyMissed(pkgs: seq<string>, pipCmd: seq<string>, exec: seq<string> -> string,
                           show: string -> (int, string), p: string)
    requires p in PipDetect(pkgs, Some(pipCmd), exec, true, show)
    ensures var frozen := FreezeMatches(Split(exec(pipCmd + ["freeze"]), '\n'), pkgs);
            p in frozen || (show(p).0 == 0 && Strip(show(p).1) != "")
  {
  }

  /** The test with empty freeze output detects nothing. */
  lemma EmptyFreeze(pkgs: seq<string>, pipCmd: seq<string>, show: string -> (int, string))
    requires forall p :: p in pkgs ==> p != ""
    ensures PipDetect(pkgs, Some(pipCmd), cmd => "", false, show) == []
  {
    assert Split("", '\n') == [""];
    assert FreezeName("") == "";
  }

  /** The option words of one pip command: `-q` exactly when quiet, `-I` exactly when
      reinstalling. */
  predicate PipCommand(cmd: seq<string>, elev: seq<string>, pipCmd: seq<string>, p: string, quiet: bool, reinstall: bool) {
    && Invokes(cmd, elev, pipCmd + ["install", "-U"], [p])
    && ("-q" in Options(cmd, elev, pipCmd + ["install", "-U"], [p]) <==> quiet)
    && ("-I" in Options(cmd, elev, pipCmd + ["install", "-U"], [p]) <==> reinstall)
  }

  /** `PipInstaller.get_install_command`: `InstallFailed` without a pip; otherwise one
      `pip install -U` per package, in order. */
  function GetInstallCommand(pipCmd: Option<seq<string>>, toInstall: seq<string>, reinstall: bool, quiet: bool,
                             elev: seq<string>): (r: Result<seq<seq<string>>, InstallFailed>)
    ensures pipCmd.None? <==> r.Err?
    ensures r.Err? ==> r.error == InstallFailed(PipInstaller, "pip is not installed")
    ensures r.Ok? ==> |r.value| == |toInstall|
    ensures r.Ok? ==> forall i :: 0 <= i < |toInstall| ==> PipCommand(r.value[i], elev, pipCmd.value, toInstall[i], quiet, reinstall)
  {
    if pipCmd.None? then Err(InstallFailed(PipInstaller, "pip is not installed"))
    else if |toInstall| == 0 then Ok([])
    else
      Ok(PerPackage(elev, pipCmd.value + ["install", "-U"], Flag(quiet, "-q") + Flag(reinstall, "-I"), toInstall))
  }

  /** The test's two packages, neither quiet nor reinstalling. */
  lemma TwoPackages(elev: seq<string>)
    ensures GetInstallCommand(Some(["mock-pip"]), ["a", "b"], false, false, elev)
            == Ok([elev + ["mock-pip", "install", "-U", "a"], elev + ["mock-pip", "install", "-U", "b"]])
  {
    var options := Flag(false, "-q") + Flag(false, "-I");
    var program := ["mock-pip"] + ["install", "-U"];
    assert options == [];
    var pkgs := ["a", "b"];
    assert elev + program + options + ["a"] == elev + ["mock-pip", "install", "-U", "a"];
    assert elev + program + options + ["b"] == elev + ["mock-pip", "install", "-U", "b"];
    assert seq(|pkgs|, i requires 0 <= i < |pkgs| => elev + program + options + [pkgs[i]])
        == [elev + ["mock-pip", "install", "-U", "a"], elev + ["mock-pip", "install", "-U", "b"]];
  }
}
