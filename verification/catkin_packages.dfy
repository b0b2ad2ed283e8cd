/** src/rosdep2/catkin_packages.py: the process-wide record of workspace packages,
    of which key each package replaces or conflicts with, and the cache of package
    names found under a directory. The module's globals are one `State` value that
    each operation takes and returns; the directory crawl of `catkin_pkg` is a
    parameter. */
module CatkinPackages {
  import opened Base
  import Seqs

  /** The four module globals. */
  datatype State = State(
    workspace: seq<string>,
    replaced: map<string, string>,
    conflicted: map<string, string>,
    cache: map<string, seq<string>>)

  const Initial := State([], map[], map[], map[])

  /** A package found under a directory: its name and the names it replaces and
      conflicts with. */
  datatype Package = Package(name: string, replacing: seq<string>, conflicting: seq<string>)

  /** `OSError` for a path that does not exist. */
  datatype OSError = OSError(msg: string)

  /** `set_workspace_packages`: a copy of the list, `None` standing for no packages. */
  function SetWorkspacePackages(st: State, packages: Option<seq<string>>): (r: State)
    ensures r.workspace == (if packages.Some? then packages.value else [])
    ensures r.replaced == st.replaced && r.conflicted == st.conflicted && r.cache == st.cache
  {
    st.(workspace := packages.GetOr([]))
  }

  /** `add_workspace_packages`: appended only when absent. */
  function AddWorkspacePackages(st: State, name: string): (r: State)
    ensures forall p :: p in r.workspace <==> p in st.workspace || p == name
    ensures Seqs.Distinct(st.workspace) ==> Seqs.Distinct(r.workspace)
    ensures |st.workspace| <= |r.workspace| <= |st.workspace| + 1 && r.workspace[..|st.workspace|] == st.workspace
    ensures r.replaced == st.replaced && r.conflicted == st.conflicted && r.cache == st.cache
  {
    if name in st.workspace then st
    else
      assert (st.workspace + [name])[..|st.workspace|] == st.workspace;
      st.(workspace := st.workspace + [name])
  }

  /** Adding a package twice is adding it once. */
  lemma AddWorkspaceIdempotent(st: State, name: string)
    ensures AddWorkspacePackages(AddWorkspacePackages(st, name), name) == AddWorkspacePackages(st, name)
  {
  }

  /** The first-wins update shared by `add_replaced_packages` and
      `add_conflicted_packages`: each key not yet recorded gets `name`. */
  function RecordFirst(m: map<string, string>, name: string, keys: seq<string>): (r: map<string, string>)
    ensures forall k :: k in r <==> k in m || k in keys
    ensures forall k :: k in m ==> r[k] == m[k]
    ensures forall k :: k in keys && k !in m ==> r[k] == name
    decreases |keys|
  {
    if |keys| == 0 then m
    else
      var m' := if keys[0] in m then m else m[keys[0] := name];
      assert forall k :: k in keys <==> k == keys[0] || k in keys[1..];
      RecordFirst(m', name, keys[1..])
  }

  /** Recording the same keys again changes nothing. */
  lemma RecordFirstIdempotent(m: map<string, string>, name: string, other: string, keys: seq<string>)
    ensures RecordFirst(RecordFirst(m, name, keys), other, keys) == RecordFirst(m, name, keys)
  {
  }

  /** `add_replaced_packages`: the first package to replace a key keeps it; later
      replacers only warn. */
  function AddReplacedPackages(st: State, name: string, keys: seq<string>): (r: State)
    ensures forall k :: k in r.replaced <==> k in st.replaced || k in keys
    ensures forall k :: k in st.replaced ==> r.replaced[k] == st.replaced[k]
    ensures forall k :: k in keys && k !in st.replaced ==> r.replaced[k] == name
    ensures r.workspace == st.workspace && r.conflicted == st.conflicted && r.cache == st.cache
  {
    st.(replaced := RecordFirst(st.replaced, name, keys))
  }

  /** `add_conflicted_packages`: the first package recorded for a key wins, silently. */
  function AddConflictedPackages(st: State, name: string, keys: seq<string>): (r: State)
    ensures forall k :: k in r.conflicted <==> k in st.conflicted || k in keys
    ensures forall k :: k in st.conflicted ==> r.conflicted[k] == st.conflicted[k]
    ensures forall k :: k in keys && k !in st.conflicted ==> r.conflicted[k] == name
    ensures r.workspace == st.workspace && r.replaced == st.replaced && r.cache == st.cache
  {
    st.(conflicted := RecordFirst(st.conflicted, name, keys))
  }

  /** Of two packages replacing the same key, the one added first is kept. */
  lemma FirstReplacerWins(st: State, a: string, b: string, key: string, ks1: seq<string>, ks2: seq<string>)
    requires key in ks1 && key in ks2 && key !in st.replaced
    ensures AddReplacedPackages(AddReplacedPackages(st, a, ks1), b, ks2).replaced[key] == a
  {
  }

  /** The packages' names, and the replacement and conflict records, folded over the
      packages in order. */
  function Record(st: State, packages: seq<Package>): (r: State)
    ensures r.workspace == st.workspace && r.cache == st.cache
    decreases |packages|
  {
    if |packages| == 0 then st
    else
      var p := packages[0];
      var st' := st.(replaced := RecordFirst(st.replaced, p.name, p.replacing),
                     conflicted := RecordFirst(st.conflicted, p.name, p.conflicting));
      Record(st', packages[1..])
  }

  /** The recording done while crawling is the same as calling `add_replaced_packages`
      and `add_conflicted_packages` for each package in turn. */
  lemma {:induction false} RecordIsAdding(st: State, packages: seq<Package>)
    ensures Record(st, packages) == AddAll(st, packages)
    decreases |packages|
  {
    if |packages| > 0 {
      var p := packages[0];
      var st' := st.(replaced := RecordFirst(st.replaced, p.name, p.replacing),
                     conflicted := RecordFirst(st.conflicted, p.name, p.conflicting));
      assert AddConflictedPackages(AddReplacedPackages(st, p.name, p.replacing), p.name, p.conflicting) == st';
      RecordIsAdding(st', packages[1..]);
    }
  }

  /** Calling the two public update functions for each package in turn. */
  function AddAll(st: State, packages: seq<Package>): State
    decreases |packages|
  {
    if |packages| == 0 then st
    else
      var p := packages[0];
      AddAll(AddConflictedPackages(AddReplacedPackages(st, p.name, p.replacing), p.name, p.conflicting), packages[1..])
  }

  function Names(packages: seq<Package>): (r: seq<string>)
    ensures |r| == |packages| && forall i :: 0 <= i < |packages| ==> r[i] == packages[i].name
  {
    seq(|packages|, i requires 0 <= i < |packages| => packages[i].name)
  }

  /** `find_catkin_packages_in`. `present` is whether the path exists, `abs` its
      absolute form, and `found` what the crawl finds there (only consulted when the
      path is not cached). A crawl that finds nothing returns no names and caches
      nothing. */
  function FindCatkinPackagesIn(st: State, path: string, present: bool, abs: string, found: seq<Package>)
    : (r: Result<(State, seq<string>), OSError>)
    ensures !present ==> r == Err(OSError("given path '" + path + "' does not exist"))
    ensures present && abs in st.cache ==> r == Ok((st, st.cache[abs]))
    ensures present && abs !in st.cache && |found| == 0 ==> r == Ok((st, []))
    ensures present && abs !in st.cache && |found| > 0 ==>
              r.Ok? && r.value.1 == Names(found) && r.value.0.cache == st.cache[abs := Names(found)] &&
              r.value.0 == Record(st, found).(cache := st.cache[abs := Names(found)])
  {
    if !present then Err(OSError("given path '" + path + "' does not exist"))
    else if abs in st.cache then Ok((st, st.cache[abs]))
    else if |found| == 0 then Ok((st, []))
    else
      var names := Names(found);
      var st' := Record(st, found);
      Ok((st'.(cache := st'.cache[abs := names]), names))
  }

  /** A second look at the same directory is answered from the cache: the same names,
      and no change, whatever the crawl would find now. */
  lemma FindCached(st: State, path: string, abs: string, found: seq<Package>, later: seq<Package>)
    requires FindCatkinPackagesIn(st, path, true, abs, found).Ok?
    requires |found| > 0 || abs in st.cache
    ensures var first := FindCatkinPackagesIn(st, path, true, abs, found).value;
            FindCatkinPackagesIn(first.0, path, true, abs, later) == Ok(first)
  {
  }

  /** The crawl records replacements first-wins: a key already replaced keeps its
      replacer, and an unrecorded key goes to the first package found that replacing it. */
  lemma {:induction false} CrawlFirstWins(st: State, packages: seq<Package>, key: string, i: nat)
    requires i < |packages| && key in packages[i].replacing && key !in st.replaced
    requires forall j :: 0 <= j < i ==> key !in packages[j].replacing
    ensures key in Record(st, packages).replaced && Record(st, packages).replaced[key] == packages[i].name
    decreases |packages|
  {
    var p := packages[0];
    var st' := st.(replaced := RecordFirst(st.replaced, p.name, p.replacing),
                   conflicted := RecordFirst(st.conflicted, p.name, p.conflicting));
    if i == 0 {
      RecordKeeps(st', packages[1..], key);
    } else {
      assert forall j :: 0 <= j < i - 1 ==> packages[1..][j] == packages[j + 1];
      CrawlFirstWins(st', packages[1..], key, i - 1);
    }
  }

  /** A recorded replacement survives any further crawl. */
  lemma {:induction false} RecordKeeps(st: State, packages: seq<Package>, key: string)
    requires key in st.replaced
    ensures key in Record(st, packages).replaced && Record(st, packages).replaced[key] == st.replaced[key]
    decreases |packages|
  {
    if |packages| > 0 {
      var p := packages[0];
      var st' := st.(replaced := RecordFirst(st.replaced, p.name, p.replacing),
                     conflicted := RecordFirst(st.conflicted, p.name, p.conflicting));
      RecordKeeps(st', packages[1..], key);
    }
  }
}
