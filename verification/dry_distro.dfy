/** src/rosinstall_generator/dry_distro.py: the dependency closure of dry (rosbuild)
    stacks and their rosinstall entries. The distribution's stacks are given as data:
    for each stack, the `depends` list of its release information (fetched over the
    network by the source) and the entries its VCS configuration produces. */
module DryDistro {
  import opened Base
  import GenDistro

  type Entry = GenDistro.Entry

  /** A dry stack: the `depends` of its release information, when it has one, and its
      rosinstall entries. */
  datatype Stack = Stack(depends: Option<seq<string>>, rosinstall: seq<Entry>)

  type Stacks = map<string, Stack>

  /** The dependencies listed for a stack; none for an unknown stack or one whose
      information has no `depends`. */
  function DepsOf(stacks: Stacks, x: string): seq<string> {
    if x in stacks && stacks[x].depends.Some? then stacks[x].depends.value else []
  }

  /** Every stack dependency of a member is a member. */
  ghost predicate Closed(stacks: Stacks, s: set<string>) {
    forall x, d :: x in s && d in DepsOf(stacks, x) && d in stacks ==> d in s
  }

  /** The dependencies of the given stacks that are not dry stacks. */
  ghost function WetOf(stacks: Stacks, s: set<string>): set<string> {
    set x, d | x in s && d in DepsOf(stacks, x) && d !in stacks :: d
  }

  /** The non-stack dependencies of one more stack. */
  lemma WetOfAdd(stacks: Stacks, s: set<string>, x: string)
    ensures WetOf(stacks, s + {x}) == WetOf(stacks, s) + (set d | d in DepsOf(stacks, x) && d !in stacks)
  {
  }

  /** Every set closed under dependencies that holds the given stacks holds `dry`. */
  ghost predicate Least(stacks: Stacks, start: set<string>, dry: set<string>) {
    forall s :: Closed(stacks, s) && start <= s ==> dry <= s
  }

  /** The stack dependencies of the visited stacks have been collected. */
  ghost predicate Visited(stacks: Stacks, done: set<string>, dry: set<string>) {
    forall y, d :: y in done && d in DepsOf(stacks, y) && d in stacks ==> d in dry
  }

  /** Only given names and the distribution's stacks are collected. */
  predicate Known(stacks: Stacks, names: seq<string>, dry: set<string>) {
    forall y :: y in dry ==> y in names || y in stacks
  }

  /** A dependency of a collected stack belongs to every closed superset. */
  lemma LeastAdd(stacks: Stacks, start: set<string>, dry: set<string>, x: string, d: string)
    requires Least(stacks, start, dry) && x in dry && d in DepsOf(stacks, x) && d in stacks
    ensures Least(stacks, start, dry + {d})
  {
  }

  /** The inner loop of `get_recursive_dependencies`: the dependencies of the stack
      just taken from the work set. */
  method VisitDeps(stacks: Stacks, names: seq<string>, start: set<string>, x: string,
                   dry: set<string>, work: set<string>, ghost done: set<string>, wet: set<string>)
    returns (dry': set<string>, work': set<string>, wet': set<string>)
    requires x in stacks && x !in work && x !in done && done !! work && dry == done + {x} + work
    requires Known(stacks, names, dry) && Least(stacks, start, dry) && Visited(stacks, done, dry)
    ensures dry' == done + {x} + work' && work <= work' && x !in work' && done !! work'
    ensures Known(stacks, names, dry') && Least(stacks, start, dry') && Visited(stacks, done + {x}, dry')
    ensures wet' == wet + (set d | d in DepsOf(stacks, x) && d !in stacks)
  {
    var deps := DepsOf(stacks, x);
    dry', work', wet' := dry, work, wet;
    var i := 0;
    while i < |deps|
      invariant 0 <= i <= |deps|
      invariant dry' == done + {x} + work' && work <= work' && x !in work' && done !! work'
      invariant Known(stacks, names, dry') && Least(stacks, start, dry') && Visited(stacks, done, dry')
      invariant forall j :: 0 <= j < i && deps[j] in stacks ==> deps[j] in dry'
      invariant wet' == wet + (set d | d in deps[..i] && d !in stacks)
    {
      var d := deps[i];
      assert deps[..i + 1] == deps[..i] + [d];
      if d in stacks {
        if d !in dry' {
          LeastAdd(stacks, start, dry', x, d);
          dry' := dry' + {d};
          work' := work' + {d};
        }
      } else {
        wet' := wet' + {d};
      }
      i := i + 1;
    }
    assert deps[..i] == deps;
  }

  /** `get_recursive_dependencies`: starting from the given stacks, every stack taken
      from the work set has its dependencies split into dry stacks, which join the
      result and the work set the first time they are seen, and wet packages. A
      stack the distribution does not have raises `KeyError`; this can only be a
      given one. The result is the least closed set of stacks containing the given
      ones, whatever order the work set is taken in. */
  method GetRecursiveDependencies(stacks: Stacks, names: seq<string>) returns (r: Result<(set<string>, set<string>), string>)
    ensures r.Ok? <==> forall n :: n in names ==> n in stacks
    ensures r.Err? ==> r.error in names && r.error !in stacks
    ensures r.Ok? ==> GenDistro.Elements(names) <= r.value.0 && Closed(stacks, r.value.0)
    ensures r.Ok? ==> Least(stacks, GenDistro.Elements(names), r.value.0)
    ensures r.Ok? ==> r.value.1 == WetOf(stacks, r.value.0)
  {
    var start := GenDistro.Elements(names);
    var dry := start;
    var wet := {};
    var work := start;
    ghost var done: set<string> := {};
    ghost var universe := stacks.Keys + start;
    while work != {}
      invariant work <= dry && done !! work && dry == done + work
      invariant start <= dry <= universe
      invariant done <= stacks.Keys
      invariant Known(stacks, names, dry) && Least(stacks, start, dry) && Visited(stacks, done, dry)
      invariant wet == WetOf(stacks, done)
      decreases |universe - done|
    {
      var x :| x in work;
      work := work - {x};
      if x !in stacks {
        return Err(x);
      }
      dry, work, wet := VisitDeps(stacks, names, start, x, dry, work, done, wet);
      WetOfAdd(stacks, done, x);
      assert |universe - (done + {x})| < |universe - done| by {
        assert universe - (done + {x}) < universe - done;
      }
      done := done + {x};
    }
    return Ok((dry, wet));
  }

  /** `generate_rosinstall`: each stack's entries, in the order given; a stack the
      distribution does not have raises `KeyError`. */
  function GenerateRosinstall(stacks: Stacks, names: seq<string>): (r: Result<seq<Entry>, string>)
    ensures r.Ok? <==> forall n :: n in names ==> n in stacks
    ensures r.Err? ==> r.error in names && r.error !in stacks
    ensures r.Ok? && |names| > 0 ==> stacks[names[0]].rosinstall <= r.value
    decreases |names|
  {
    if |names| == 0 then Ok([])
    else if names[0] !in stacks then Err(names[0])
    else
      var rest := GenerateRosinstall(stacks, names[1..]);
      assert forall n :: n in names <==> n == names[0] || n in names[1..];
      if rest.Err? then rest else Ok(stacks[names[0]].rosinstall + rest.value)
  }

  /** The entries of two lists of stacks are the entries of the first followed by
      those of the second. */
  lemma {:induction false} GenerateRosinstallAppend(stacks: Stacks, a: seq<string>, b: seq<string>)
    requires forall n :: n in a + b ==> n in stacks
    ensures GenerateRosinstall(stacks, a + b).value == GenerateRosinstall(stacks, a).value + GenerateRosinstall(stacks, b).value
    decreases |a|
  {
    if |a| == 0 {
      assert a + b == b;
    } else {
      assert (a + b)[1..] == a[1..] + b;
      assert (a + b)[0] == a[0];
      GenerateRosinstallAppend(stacks, a[1..], b);
    }
  }
}
