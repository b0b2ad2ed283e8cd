/** src/rosdep2/platforms/npm.py: the npm installer. Detection reads
    `npm list -parseable`, whose first line is the project directory and whose other
    lines are module paths; the install command is one `npm install` per package,
    global when running as root. `exec` gives a command's output and `npmRuns` whether
    `npm` can be started. */
module Npm {
  import opened Strings
  import opened Base
  import opened Platforms

  const NpmInstaller := "npm"

  /** The listing command: global exactly when running as root. */
  function ListCommand(asRoot: bool): (r: seq<string>)
    ensures "-g" in r <==> asRoot
    ensures |r| >= 3 && r[..2] == ["npm", "list"] && r[|r| - 1] == "-parseable"
  {
    ["npm", "list"] + Flag(asRoot, "-g") + ["-parseable"]
  }

  /** The last `/`-separated segment of each line. */
  function LastSegments(lines: seq<string>): (r: seq<string>)
    ensures |r| == |lines| && forall i :: 0 <= i < |lines| ==> r[i] == Basename(lines[i])
  {
    seq(|lines|, i requires 0 <= i < |lines| => Basename(lines[i]))
  }

  /** `npm_detect`: the requested modules among the listed paths after the first,
      in listing order. */
  function NpmDetect(pkgs: seq<string>, asRoot: bool, exec: seq<string> -> string): (r: seq<string>)
    ensures var lines := Split(exec(ListCommand(asRoot)), '\n');
            forall p :: p in r <==> p in pkgs && Listed(lines, p)
  {
    var lines := Split(exec(ListCommand(asRoot)), '\n');
    forall p ensures p in LastSegments(lines[1..]) <==> Listed(lines, p) {
      SegmentsListed(lines, p);
    }
    Keep(LastSegments(lines[1..]), n => n in pkgs)
  }

  /** Some line after the first ends in the segment `p`. */
  predicate Listed(lines: seq<string>, p: string) {
    exists i :: 1 <= i < |lines| && Basename(lines[i]) == p
  }

  /** The segments after the first line are exactly the listed names. */
  lemma SegmentsListed(lines: seq<string>, p: string)
    requires |lines| >= 1
    ensures p in LastSegments(lines[1..]) <==> Listed(lines, p)
  {
    var segments := LastSegments(lines[1..]);
    if p in segments {
      var j :| 0 <= j < |segments| && segments[j] == p;
      assert Basename(lines[j + 1]) == p;
    }
    if Listed(lines, p) {
      var i :| 1 <= i < |lines| && Basename(lines[i]) == p;
      assert segments[i - 1] == p;
    }
  }

  /** Empty output lists nothing, so nothing is detected. */
  lemma EmptyListing(pkgs: seq<string>, asRoot: bool)
    ensures NpmDetect(pkgs, asRoot, cmd => "") == []
  {
    assert Split("", '\n') == [""];
  }

  /** `NpmInstaller.get_install_command`: `InstallFailed` when npm cannot be started;
      otherwise one `npm install` per package, with `-g` exactly when running as
      root. */
  function GetInstallCommand(npmRuns: bool, toInstall: seq<string>, asRoot: bool, elev: seq<string>)
    : (r: Result<seq<seq<string>>, InstallFailed>)
    ensures r.Err? <==> !npmRuns
    ensures r.Err? ==> r.error == InstallFailed(NpmInstaller, "npm is not installed")
    ensures r.Ok? ==> |r.value| == |toInstall|
    ensures r.Ok? ==> forall i :: 0 <= i < |toInstall| ==>
              && Invokes(r.value[i], elev, ["npm", "install"], [toInstall[i]])
              && ("-g" in Options(r.value[i], elev, ["npm", "install"], [toInstall[i]]) <==> asRoot)
  {
    if !npmRuns then Err(InstallFailed(NpmInstaller, "npm is not installed"))
    else if |toInstall| == 0 then Ok([])
    else Ok(PerPackage(elev, ["npm", "install"], Flag(asRoot, "-g"), toInstall))
  }

  /** The test's two packages as root and not. */
  lemma TwoPackages(elev: seq<string>)
    ensures GetInstallCommand(true, ["a", "b"], true, elev)
            == Ok([elev + ["npm", "install", "-g", "a"], elev + ["npm", "install", "-g", "b"]])
    ensures GetInstallCommand(true, ["a", "b"], false, [])
            == Ok([["npm", "install", "a"], ["npm", "install", "b"]])
  {
    var pkgs := ["a", "b"];
    assert elev + ["npm", "install"] + ["-g"] + ["a"] == elev + ["npm", "install", "-g", "a"];
    assert elev + ["npm", "install"] + ["-g"] + ["b"] == elev + ["npm", "install", "-g", "b"];
    assert seq(|pkgs|, i requires 0 <= i < |pkgs| => elev + ["npm", "install"] + ["-g"] + [pkgs[i]])
        == [elev + ["npm", "install", "-g", "a"], elev + ["npm", "install", "-g", "b"]];
    var none: seq<string> := [];
    assert none + ["npm", "install"] + none + ["a"] == ["npm", "install", "a"];
    assert none + ["npm", "install"] + none + ["b"] == ["npm", "install", "b"];
    assert seq(|pkgs|, i requires 0 <= i < |pkgs| => none + ["npm", "install"] + none + [pkgs[i]])
        == [["npm", "install", "a"], ["npm", "install", "b"]];
  }
}
