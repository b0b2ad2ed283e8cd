/** The dependency graph of src/rosdep2/dependency_graph.py: resolutions keyed by
    rosdep key, validation, cycle detection and the post-order install listing. */
module DependencyGraph {
  import opened Base
  import opened Seqs

  /** One resolved key: its installer, the packages to install, the rosdep keys it
      depends on and whether no other key depends on it. */
  datatype Resolution = Resolution(installerKey: Option<string>, installKeys: seq<string>, dependencies: seq<string>, isRoot: bool)

  /** What the graph hands out for a key it has not seen. */
  const Fresh := Resolution(None, [], [], true)

  /** The graph: the keys in the dictionary's iteration order and their resolutions. */
  datatype Graph = Graph(order: seq<string>, res: map<string, Resolution>)

  datatype Error =
    | KeyError(key: string)
    | CycleError(key: string)
    | AttributeError(msg: string)

  /** `(installer_key, install_keys)`, one entry of the install listing. */
  type Item = (Option<string>, seq<string>)

  predicate WellFormed(g: Graph) {
    && Distinct(g.order)
    && (forall k :: k in g.res ==> k in g.order)
    && (forall i :: 0 <= i < |g.order| ==> g.order[i] in g.res)
  }

  /** The empty graph. */
  function Empty(): (g: Graph)
    ensures WellFormed(g) && g.res == map[]
  {
    Graph([], map[])
  }

  /** Reading `graph[key]`: a known key's resolution, or a fresh one that the
      default-dictionary inserts at the end of the iteration order. */
  function Get(g: Graph, key: string): (r: (Resolution, Graph))
    requires WellFormed(g)
    ensures WellFormed(r.1)
    ensures key in g.res ==> r == (g.res[key], g)
    ensures key !in g.res ==> r.0 == Fresh && r.1.order == g.order + [key] && r.1.res == g.res[key := Fresh]
  {
    if key in g.res then (g.res[key], g)
    else (Fresh, Graph(g.order + [key], g.res[key := Fresh]))
  }

  /** Stores a resolution under `key`; a new key goes to the end of the iteration order. */
  function Set(g: Graph, key: string, v: Resolution): (r: Graph)
    requires WellFormed(g)
    ensures WellFormed(r)
    ensures Get(r, key).0 == v
    ensures forall k :: k != key ==> Get(r, k).0 == Get(g, k).0
    ensures key in g.res ==> r.order == g.order
  {
    if key in g.res then Graph(g.order, g.res[key := v])
    else Graph(g.order + [key], g.res[key := v])
  }

  /** The dependency lists by key. */
  type Edges = map<string, seq<string>>

  function EdgesOf(g: Graph): (e: Edges)
    ensures e.Keys == g.res.Keys
    ensures forall k :: k in g.res ==> e[k] == g.res[k].dependencies
  {
    map k | k in g.res :: g.res[k].dependencies
  }

  /** The dependencies of a key; an absent key reads as a fresh resolution, which has none. */
  function Deps(e: Edges, k: string): seq<string> {
    if k in e then e[k] else []
  }

  /** `u` holds every dependency of each of its keys. */
  ghost predicate ClosedUnder(e: Edges, u: set<string>) {
    forall k, j :: k in u && 0 <= j < |Deps(e, k)| ==> Deps(e, k)[j] in u
  }

  ghost function Elems(t: seq<string>): set<string> {
    set x | x in t
  }

  lemma RemovingMemberShrinks(u: set<string>, t: seq<string>, key: string)
    requires key in u && key !in t
    ensures |u - Elems(t + [key])| < |u - Elems(t)|
  {
    assert u - Elems(t + [key]) == (u - Elems(t)) - {key};
  }

  lemma SubsetCard(a: set<string>, b: set<string>)
    requires a <= b
    ensures |a| <= |b|
  {
    assert b == a + (b - a);
  }

  /** `t2` continues `t`. */
  predicate Extends(t: seq<string>, t2: seq<string>) {
    |t| <= |t2| && t2[..|t|] == t
  }

  lemma ExtendsTrans(t: seq<string>, t2: seq<string>, t3: seq<string>)
    requires Extends(t, t2) && Extends(t2, t3)
    ensures Extends(t, t3)
  {
    assert t3[..|t|] == t3[..|t2|][..|t|];
  }

  lemma ExtendsLast(t: seq<string>, key: string, v: seq<string>)
    requires Extends(t + [key], v)
    ensures key in v
  {
    assert v[..|t| + 1][|t|] == key;
  }

  lemma ExtendsElems(u: set<string>, t: seq<string>, t2: seq<string>)
    requires Extends(t, t2)
    ensures forall x :: x in t ==> x in t2
    ensures |u - Elems(t2)| <= |u - Elems(t)|
  {
    forall x | x in t ensures x in t2 {
      var i :| 0 <= i < |t| && t[i] == x;
      assert t2[i] == x;
    }
    SubsetCard(u - Elems(t2), u - Elems(t));
  }

  /** One key traveled and possibly more after it: the traveled list only grows. */
  lemma ExtendsStep(u: set<string>, t: seq<string>, x: string, t2: seq<string>)
    requires Extends(t + [x], t2)
    ensures Extends(t, t2)
    ensures |u - Elems(t2)| <= |u - Elems(t)|
  {
    ExtendsTrans(t, t + [x], t2);
    ExtendsElems(u, t, t2);
  }

  /** `detect_cycles(key, traveled)`: fails if `key` was already traveled, otherwise
      appends it and visits its dependencies in order with the same, never shortened,
      traveled list. Returns the traveled list at the end. */
  function Visit(e: Edges, ghost u: set<string>, key: string, t: seq<string>): (r: Result<seq<string>, Error>)
    requires ClosedUnder(e, u) && key in u
    ensures r.Ok? ==> Extends(t + [key], r.value)
    ensures r.Err? ==> r.error.CycleError? && r.error.key in u
    decreases |u - Elems(t)|, 0, 0
  {
    if key in t then Err(CycleError(key))
    else
      RemovingMemberShrinks(u, t, key);
      var deps := Deps(e, key);
      assert forall i :: 0 <= i < |deps| ==> deps[i] in u;
      VisitAll(e, u, deps, 0, t + [key])
  }

  /** The loop of `detect_cycles` over `deps[i..]`. */
  function VisitAll(e: Edges, ghost u: set<string>, deps: seq<string>, i: nat, t: seq<string>): (r: Result<seq<string>, Error>)
    requires i <= |deps|
    requires ClosedUnder(e, u) && forall j :: 0 <= j < |deps| ==> deps[j] in u
    ensures r.Ok? ==> Extends(t, r.value)
    ensures r.Err? ==> r.error.CycleError? && r.error.key in u
    decreases |u - Elems(t)|, 1, |deps| - i
  {
    if i == |deps| then Ok(t)
    else
      var t' :- Visit(e, u, deps[i], t);
      ExtendsStep(u, t, deps[i], t');
      var r := VisitAll(e, u, deps, i + 1, t');
      if r.Ok? then ExtendsTrans(t, t', r.value); r else r
  }

  /** One iteration of the `detect_cycles` loop, unfolded. */
  lemma VisitAllStep(e: Edges, u: set<string>, deps: seq<string>, i: nat, t: seq<string>)
    requires i < |deps|
    requires ClosedUnder(e, u) && forall j :: 0 <= j < |deps| ==> deps[j] in u
    requires VisitAll(e, u, deps, i, t).Ok?
    ensures Visit(e, u, deps[i], t).Ok?
    ensures VisitAll(e, u, deps, i + 1, Visit(e, u, deps[i], t).value) == VisitAll(e, u, deps, i, t)
    ensures Extends(t, Visit(e, u, deps[i], t).value)
    ensures |u - Elems(Visit(e, u, deps[i], t).value)| <= |u - Elems(t)|
  {
    ExtendsStep(u, t, deps[i], Visit(e, u, deps[i], t).value);
  }

  /** `deps[i..]` are visited in order, so each is visited with a traveled list that holds `t`. */
  lemma {:induction false} VisitAllReaches(e: Edges, u: set<string>, deps: seq<string>, i: nat, t: seq<string>, j: nat) returns (t2: seq<string>)
    requires i <= j < |deps|
    requires ClosedUnder(e, u) && forall k :: 0 <= k < |deps| ==> deps[k] in u
    requires VisitAll(e, u, deps, i, t).Ok?
    ensures forall x :: x in t ==> x in t2
    ensures Visit(e, u, deps[j], t2).Ok?
    decreases |deps| - i
  {
    var t' := Visit(e, u, deps[i], t).value;
    if j == i {
      t2 := t;
    } else {
      t2 := VisitAllReaches(e, u, deps, i + 1, t', j);
    }
  }

  /** A path along dependency edges. */
  ghost predicate IsPath(e: Edges, path: seq<string>) {
    && |path| > 0
    && forall k :: 0 <= k < |path| - 1 ==> path[k + 1] in Deps(e, path[k])
  }

  /** No key reachable from a key visited without failure was already traveled. */
  lemma {:induction false} VisitAvoidsTraveled(e: Edges, u: set<string>, path: seq<string>, t: seq<string>)
    requires ClosedUnder(e, u) && IsPath(e, path) && path[0] in u
    requires Visit(e, u, path[0], t).Ok?
    ensures path[|path| - 1] !in t
    decreases |path|
  {
    if |path| > 1 {
      var deps := Deps(e, path[0]);
      assert forall k :: 0 <= k < |deps| ==> deps[k] in u;
      assert path[1] in deps;
      var j :| 0 <= j < |deps| && deps[j] == path[1];
      var t2 := VisitAllReaches(e, u, deps, 0, t + [path[0]], j);
      assert IsPath(e, path[1..]);
      VisitAvoidsTraveled(e, u, path[1..], t2);
      assert path[1..][|path[1..]| - 1] == path[|path| - 1];
    }
  }

  /** Any cycle through `key` makes `detect_cycles(key, ...)` fail. */
  lemma CycleDetected(e: Edges, u: set<string>, path: seq<string>, t: seq<string>)
    requires IsPath(e, path) && |path| > 1 && path[0] == path[|path| - 1]
    requires ClosedUnder(e, u) && path[0] in u
    ensures Visit(e, u, path[0], t).Err?
  {
    if Visit(e, u, path[0], t).Ok? {
      var deps := Deps(e, path[0]);
      assert forall k :: 0 <= k < |deps| ==> deps[k] in u;
      assert path[1] in deps;
      var j :| 0 <= j < |deps| && deps[j] == path[1];
      var t2 := VisitAllReaches(e, u, deps, 0, t + [path[0]], j);
      assert IsPath(e, path[1..]);
      assert path[1..][|path[1..]| - 1] == path[0];
      VisitAvoidsTraveled(e, u, path[1..], t2);
    }
  }

  /** Every dependency of every listed key is listed at an earlier position. */
  ghost predicate DepsFirst(e: Edges, r: seq<string>) {
    forall p, j :: 0 <= p < |r| && 0 <= j < |Deps(e, r[p])| ==> Deps(e, r[p])[j] in r[..p]
  }

  lemma DepsFirstConcat(e: Edges, a: seq<string>, b: seq<string>)
    requires DepsFirst(e, a) && DepsFirst(e, b)
    ensures DepsFirst(e, a + b)
  {
    var r := a + b;
    forall p, j | 0 <= p < |r| && 0 <= j < |Deps(e, r[p])| ensures Deps(e, r[p])[j] in r[..p] {
      if p < |a| {
        assert r[p] == a[p] && r[..p] == a[..p];
      } else {
        assert r[p] == b[p - |a|];
        var d := Deps(e, r[p])[j];
        assert d in b[..p - |a|];
        var q :| 0 <= q < p - |a| && b[..p - |a|][q] == d;
        assert r[..p][|a| + q] == d;
      }
    }
  }

  /** `_get_ordered_uninstalled` at the level of keys: the post-order of the keys reachable
      from `key`. It terminates because `detect_cycles` from the same key succeeded; the
      traversal is followed step by step through the ghost traveled list `t`. */
  function PostOrder(e: Edges, ghost u: set<string>, key: string, ghost t: seq<string>): (r: seq<string>)
    requires ClosedUnder(e, u) && key in u
    requires Visit(e, u, key, t).Ok?
    ensures |r| > 0 && r[|r| - 1] == key
    ensures forall x :: x in r ==> x in u
    decreases |u - Elems(t)|, 0, 0
  {
    RemovingMemberShrinks(u, t, key);
    var deps := Deps(e, key);
    assert forall i :: 0 <= i < |deps| ==> deps[i] in u;
    PostOrderAll(e, u, deps, 0, t + [key]) + [key]
  }

  function PostOrderAll(e: Edges, ghost u: set<string>, deps: seq<string>, i: nat, ghost t: seq<string>): (r: seq<string>)
    requires i <= |deps|
    requires ClosedUnder(e, u) && forall j :: 0 <= j < |deps| ==> deps[j] in u
    requires VisitAll(e, u, deps, i, t).Ok?
    ensures forall j :: i <= j < |deps| ==> deps[j] in r
    ensures forall x :: x in r ==> x in u
    decreases |u - Elems(t)|, 1, |deps| - i
  {
    if i == |deps| then []
    else
      VisitAllStep(e, u, deps, i, t);
      PostOrder(e, u, deps[i], t) + PostOrderAll(e, u, deps, i + 1, Visit(e, u, deps[i], t).value)
  }

  /** The post-order lists each key that `detect_cycles` newly traveled, and no key twice. */
  lemma {:induction false} PostOrderFresh(e: Edges, u: set<string>, key: string, t: seq<string>)
    requires ClosedUnder(e, u) && key in u
    requires Visit(e, u, key, t).Ok?
    ensures ListsNew(PostOrder(e, u, key, t), t, Visit(e, u, key, t).value)
    decreases |u - Elems(t)|, 0, 0
  {
    RemovingMemberShrinks(u, t, key);
    var deps := Deps(e, key);
    assert forall i :: 0 <= i < |deps| ==> deps[i] in u;
    var a := PostOrderAll(e, u, deps, 0, t + [key]);
    assert PostOrder(e, u, key, t) == a + [key];
    var v := Visit(e, u, key, t).value;
    assert v == VisitAll(e, u, deps, 0, t + [key]).value;
    PostOrderAllFresh(e, u, deps, 0, t + [key]);
    ExtendsLast(t, key, v);
    AppendVisited(t, key, v, a);
  }

  /** The keys new in `v` over `t + [key]`, then `key`, are the keys new in `v` over `t`,
      each once. */
  lemma AppendVisited(t: seq<string>, key: string, v: seq<string>, a: seq<string>)
    requires key !in t && key in v
    requires ListsNew(a, t + [key], v)
    ensures ListsNew(a + [key], t, v)
  {
    DistinctConcat(a, [key]);
  }

  lemma {:induction false} PostOrderAllFresh(e: Edges, u: set<string>, deps: seq<string>, i: nat, t: seq<string>)
    requires i <= |deps|
    requires ClosedUnder(e, u) && forall j :: 0 <= j < |deps| ==> deps[j] in u
    requires VisitAll(e, u, deps, i, t).Ok?
    ensures ListsNew(PostOrderAll(e, u, deps, i, t), t, VisitAll(e, u, deps, i, t).value)
    decreases |u - Elems(t)|, 1, |deps| - i
  {
    if i < |deps| {
      var t' := PostOrderFirstFresh(e, u, deps, i, t);
      PostOrderAllFresh(e, u, deps, i + 1, t');
      PostOrderAllJoin(e, u, deps, i, t);
    }
  }

  /** The first key of `deps[i..]`: its listing holds what its visit newly traveled. */
  lemma PostOrderFirstFresh(e: Edges, u: set<string>, deps: seq<string>, i: nat, t: seq<string>) returns (t': seq<string>)
    requires i < |deps|
    requires ClosedUnder(e, u) && forall j :: 0 <= j < |deps| ==> deps[j] in u
    requires VisitAll(e, u, deps, i, t).Ok?
    ensures Visit(e, u, deps[i], t).Ok? && t' == Visit(e, u, deps[i], t).value
    ensures VisitAll(e, u, deps, i + 1, t').Ok?
    ensures |u - Elems(t')| <= |u - Elems(t)|
    ensures ListsNew(PostOrder(e, u, deps[i], t), t, t')
    decreases |u - Elems(t)|, 0, 1
  {
    VisitAllStep(e, u, deps, i, t);
    t' := Visit(e, u, deps[i], t).value;
    PostOrderFresh(e, u, deps[i], t);
  }

  /** One step of `PostOrderAllFresh`: the first key's listing joined to the rest's. */
  lemma PostOrderAllJoin(e: Edges, u: set<string>, deps: seq<string>, i: nat, t: seq<string>)
    requires i < |deps|
    requires ClosedUnder(e, u) && forall j :: 0 <= j < |deps| ==> deps[j] in u
    requires VisitAll(e, u, deps, i, t).Ok?
    requires ListsNew(PostOrder(e, u, deps[i], t), t, Visit(e, u, deps[i], t).value)
    requires ListsNew(PostOrderAll(e, u, deps, i + 1, Visit(e, u, deps[i], t).value), Visit(e, u, deps[i], t).value, VisitAll(e, u, deps, i, t).value)
    ensures ListsNew(PostOrderAll(e, u, deps, i, t), t, VisitAll(e, u, deps, i, t).value)
  {
    VisitAllStep(e, u, deps, i, t);
    var t' := Visit(e, u, deps[i], t).value;
    JoinVisits(t, t', VisitAll(e, u, deps, i, t).value, PostOrder(e, u, deps[i], t), PostOrderAll(e, u, deps, i + 1, t'));
  }

  /** `r` lists each element of `v` that is not in `t`, each once. */
  ghost predicate ListsNew(r: seq<string>, t: seq<string>, v: seq<string>) {
    Distinct(r) && forall x :: x in r <==> x in v && x !in t
  }

  /** The keys new in `t'` over `t`, followed by those new in `v` over `t'`, are exactly
      those new in `v` over `t`, each once. */
  lemma JoinVisits(t: seq<string>, t': seq<string>, v: seq<string>, a: seq<string>, b: seq<string>)
    requires Extends(t, t') && Extends(t', v)
    requires ListsNew(a, t, t') && ListsNew(b, t', v)
    ensures ListsNew(a + b, t, v)
  {
    ExtendsElems({}, t, t');
    ExtendsElems({}, t', v);
    DistinctConcat(a, b);
  }

  /** The post-order lists every dependency of a key before the key itself. */
  lemma {:induction false} PostOrderDepsFirst(e: Edges, u: set<string>, key: string, t: seq<string>)
    requires ClosedUnder(e, u) && key in u
    requires Visit(e, u, key, t).Ok?
    ensures DepsFirst(e, PostOrder(e, u, key, t))
    decreases |u - Elems(t)|, 0, 0
  {
    RemovingMemberShrinks(u, t, key);
    var deps := Deps(e, key);
    assert forall i :: 0 <= i < |deps| ==> deps[i] in u;
    var a := PostOrderAll(e, u, deps, 0, t + [key]);
    PostOrderAllDepsFirst(e, u, deps, 0, t + [key]);
    var r := a + [key];
    assert r == PostOrder(e, u, key, t);
    forall p, j | 0 <= p < |r| && 0 <= j < |Deps(e, r[p])| ensures Deps(e, r[p])[j] in r[..p] {
      if p < |a| {
        assert r[p] == a[p] && r[..p] == a[..p];
      } else {
        assert r[..p] == a;
      }
    }
  }

  lemma {:induction false} PostOrderAllDepsFirst(e: Edges, u: set<string>, deps: seq<string>, i: nat, t: seq<string>)
    requires i <= |deps|
    requires ClosedUnder(e, u) && forall j :: 0 <= j < |deps| ==> deps[j] in u
    requires VisitAll(e, u, deps, i, t).Ok?
    ensures DepsFirst(e, PostOrderAll(e, u, deps, i, t))
    decreases |u - Elems(t)|, 1, |deps| - i
  {
    if i < |deps| {
      var t' := Visit(e, u, deps[i], t).value;
      ExtendsTrans(t, t + [deps[i]], t');
      ExtendsElems(u, t, t');
      PostOrderDepsFirst(e, u, deps[i], t);
      PostOrderAllDepsFirst(e, u, deps, i + 1, t');
      DepsFirstConcat(e, PostOrder(e, u, deps[i], t), PostOrderAll(e, u, deps, i + 1, t'));
    }
  }

  /** The listing entry of a key, read through the default-dictionary. */
  function ItemOf(g: Graph, k: string): Item {
    var v := if k in g.res then g.res[k] else Fresh;
    (v.installerKey, v.installKeys)
  }

  /** The first dependency, in iteration order, that is not a key of the graph. */
  function FirstMissing(g: Graph, keys: seq<string>): (r: Option<string>)
    requires forall i :: 0 <= i < |keys| ==> keys[i] in g.res
    ensures r.None? <==> forall i, j :: 0 <= i < |keys| && 0 <= j < |g.res[keys[i]].dependencies| ==> g.res[keys[i]].dependencies[j] in g.res
    ensures r.Some? ==> r.value !in g.res && IsDependencyOf(g, keys, r.value)
  {
    if |keys| == 0 then None
    else
      var deps := g.res[keys[0]].dependencies;
      var i := FirstAbsent(deps, g.res.Keys);
      if i < |deps| then Some(deps[i])
      else
        var rest := FirstMissing(g, keys[1..]);
        assert forall i :: 1 <= i < |keys| ==> keys[i] == keys[1..][i - 1];
        rest
  }

  /** Position of the first element of `xs` outside `s`; `|xs|` if there is none. */
  function FirstAbsent(xs: seq<string>, s: set<string>): (i: nat)
    ensures i <= |xs|
    ensures i < |xs| ==> xs[i] !in s
    ensures forall k :: 0 <= k < i ==> xs[k] in s
  {
    if |xs| == 0 then 0
    else if xs[0] !in s then 0
    else 1 + FirstAbsent(xs[1..], s)
  }

  /** `k` is listed as a dependency of one of `keys`. */
  predicate IsDependencyOf(g: Graph, keys: seq<string>, k: string)
    requires forall i :: 0 <= i < |keys| ==> keys[i] in g.res
  {
    exists i, j :: 0 <= i < |keys| && 0 <= j < |g.res[keys[i]].dependencies| && g.res[keys[i]].dependencies[j] == k
  }

  /** Some key of the graph lists `k` as a dependency. */
  ghost predicate IsDependency(g: Graph, k: string) {
    exists d, j :: d in g.res && 0 <= j < |g.res[d].dependencies| && g.res[d].dependencies[j] == k
  }

  /** The marking pass of `validate`: every key named as a dependency is no longer a root;
      nothing else changes. */
  function MarkNonRoots(g: Graph): (r: Graph)
    requires WellFormed(g)
    ensures WellFormed(r) && r.order == g.order && r.res.Keys == g.res.Keys
    ensures forall k :: k in g.res ==>
              && r.res[k].isRoot == (g.res[k].isRoot && !IsDependency(g, k))
              && r.res[k] == g.res[k].(isRoot := r.res[k].isRoot)
    ensures EdgesOf(r) == EdgesOf(g)
  {
    var res := map k | k in g.res :: g.res[k].(isRoot := g.res[k].isRoot && !IsDependencyOf(g, g.order, k));
    assert forall k :: IsDependencyOf(g, g.order, k) <==> IsDependency(g, k) by {
      forall k ensures IsDependencyOf(g, g.order, k) <==> IsDependency(g, k) {
        if IsDependency(g, k) {
          var d, j :| d in g.res && 0 <= j < |g.res[d].dependencies| && g.res[d].dependencies[j] == k;
          var i := IndexOf(g.order, d);
          assert g.order[i] == d;
        }
      }
    }
    Graph(g.order, res)
  }

  /** The cycle-check pass of `validate`: `detect_cycles(key, [])` for every key in order. */
  function CheckCycles(e: Edges, ghost u: set<string>, keys: seq<string>): (r: Result<(), Error>)
    requires ClosedUnder(e, u) && forall i :: 0 <= i < |keys| ==> keys[i] in u
    ensures r.Ok? <==> forall i :: 0 <= i < |keys| ==> Visit(e, u, keys[i], []).Ok?
    ensures r.Err? ==> r.error.CycleError?
  {
    if |keys| == 0 then Ok(())
    else
      var _ :- Visit(e, u, keys[0], []);
      assert forall i :: 1 <= i < |keys| ==> keys[i] == keys[1..][i - 1];
      CheckCycles(e, u, keys[1..])
  }

  /** Every dependency is a key of the graph. */
  ghost predicate Complete(g: Graph) {
    forall k, i :: k in g.res && 0 <= i < |g.res[k].dependencies| ==> g.res[k].dependencies[i] in g.res
  }

  /** `validate`: a dependency that is not a key is a `KeyError`; then non-roots are
      marked and each key is checked for cycles. `Ok` carries the marked graph. */
  function Validate(g: Graph): (r: Result<Graph, Error>)
    requires WellFormed(g)
    ensures r.Err? && r.error.KeyError? ==> r.error.key !in g.res && IsDependency(g, r.error.key)
    ensures r.Ok? <==> Complete(g) && forall k :: k in g.res ==> Visit(EdgesOf(g), g.res.Keys, k, []).Ok?
    ensures r.Ok? ==> r.value == MarkNonRoots(g)
  {
    MissingMeansIncomplete(g);
    match FirstMissing(g, g.order)
    case Some(d) => Err(KeyError(d))
    case None =>
      var m := MarkNonRoots(g);
      CompleteClosed(g);
      CyclesOverKeys(g);
      var _ :- CheckCycles(EdgesOf(g), g.res.Keys, g.order);
      Ok(m)
  }

  /** What Python 3 says when `validate` calls `self.has_key`. */
  const NoHasKey := AttributeError("'DependencyGraph' object has no attribute 'has_key'")

  /** `validate` as Python 3 runs it. Python 3 dictionaries have no `has_key`, so the
      first dependency the loop reaches raises `AttributeError`. Only a graph in
      which no key has a dependency gets through, and nothing is marked in it. */
  function ValidateAsWritten(g: Graph): (r: Result<Graph, Error>)
    requires WellFormed(g)
    ensures r.Err? <==> exists k :: k in g.res && |g.res[k].dependencies| > 0
    ensures r.Err? ==> r.error == NoHasKey
    ensures r.Ok? ==> r == Validate(g) && r.value == g
  {
    if exists i :: 0 <= i < |g.order| && |g.res[g.order[i]].dependencies| > 0 then Err(NoHasKey)
    else
      NoDependencyValidates(g);
      Validate(g)
  }

  /** A graph none of whose listed keys has a dependency validates unchanged. */
  lemma NoDependencyValidates(g: Graph)
    requires WellFormed(g)
    requires forall i :: 0 <= i < |g.order| ==> |g.res[g.order[i]].dependencies| == 0
    ensures forall k :: k in g.res ==> |g.res[k].dependencies| == 0
    ensures Validate(g) == Ok(g)
  {
    forall k | k in g.res ensures |g.res[k].dependencies| == 0 {
      var i := IndexOf(g.order, k);
      assert g.order[i] == k;
    }
    assert Complete(g);
    var e := EdgesOf(g);
    forall k | k in g.res ensures Visit(e, g.res.Keys, k, []).Ok? {
      assert Deps(e, k) == [] && [] + [k] == [k];
      assert VisitAll(e, g.res.Keys, [], 0, [k]).Ok?;
    }
    var m := MarkNonRoots(g);
    forall k | k in g.res ensures m.res[k] == g.res[k] {
      assert !IsDependency(g, k);
    }
    assert m.res == g.res;
  }

  /** Under Python 3 `validate` rejects the two-key graph `a` on `b`, which has every
      dependency defined and no cycle and which `Validate` accepts. */
  lemma HasKeyRejectsValidGraph()
    ensures var g := Graph(["a", "b"], map["a" := Resolution(None, ["pa"], ["b"], true),
                                          "b" := Resolution(None, ["pb"], [], true)]);
            && WellFormed(g)
            && ValidateAsWritten(g) == Err(NoHasKey)
            && Validate(g).Ok?
  {
    var g := Graph(["a", "b"], map["a" := Resolution(None, ["pa"], ["b"], true),
                                  "b" := Resolution(None, ["pb"], [], true)]);
    assert g.order[0] == "a" && g.order[1] == "b";
    assert WellFormed(g);
    assert |g.res[g.order[0]].dependencies| > 0;
    assert Complete(g);
    var e := EdgesOf(g);
    var u := g.res.Keys;
    assert e == map["a" := ["b"], "b" := []];
    assert Deps(e, "a") == ["b"] && Deps(e, "b") == [];
    var ab := ["a", "b"];
    assert "b" !in ["a"] && ["a"] + ["b"] == ab;
    assert Visit(e, u, "b", ["a"]) == Ok(ab);
    assert VisitAll(e, u, ["b"], 0, ["a"]) == Ok(ab);
    assert [] + ["a"] == ["a"];
    assert Visit(e, u, "a", []) == Ok(ab);
    assert [] + ["b"] == ["b"];
    assert Visit(e, u, "b", []) == Ok(["b"]);
    assert forall k :: k in g.res ==> Visit(e, u, k, []).Ok?;
  }

  lemma MissingMeansIncomplete(g: Graph)
    requires WellFormed(g)
    ensures FirstMissing(g, g.order).None? <==> Complete(g)
    ensures FirstMissing(g, g.order).Some? ==> IsDependency(g, FirstMissing(g, g.order).value)
  {
    if !Complete(g) {
      var k, i :| k in g.res && 0 <= i < |g.res[k].dependencies| && g.res[k].dependencies[i] !in g.res;
      var p := IndexOf(g.order, k);
      assert g.order[p] == k;
    }
    var r := FirstMissing(g, g.order);
    if r.Some? {
      var i, j :| 0 <= i < |g.order| && 0 <= j < |g.res[g.order[i]].dependencies| && g.res[g.order[i]].dependencies[j] == r.value;
      assert g.order[i] in g.res;
    }
  }

  lemma CompleteClosed(g: Graph)
    requires Complete(g)
    ensures ClosedUnder(EdgesOf(g), g.res.Keys)
  {
  }

  lemma CyclesOverKeys(g: Graph)
    requires WellFormed(g) && Complete(g)
    ensures ClosedUnder(EdgesOf(g), g.res.Keys)
    ensures (forall i :: 0 <= i < |g.order| ==> Visit(EdgesOf(g), g.res.Keys, g.order[i], []).Ok?)
        <==> (forall k :: k in g.res ==> Visit(EdgesOf(g), g.res.Keys, k, []).Ok?)
  {
    CompleteClosed(g);
    if forall i :: 0 <= i < |g.order| ==> Visit(EdgesOf(g), g.res.Keys, g.order[i], []).Ok? {
      forall k | k in g.res ensures Visit(EdgesOf(g), g.res.Keys, k, []).Ok? {
        var p := IndexOf(g.order, k);
      }
    }
  }

  /** The post-orders of the roots among `keys`, concatenated in iteration order (the
      `uninstalled` list before duplicates are dropped), as keys. */
  function RootListing(m: Graph, e: Edges, ghost u: set<string>, keys: seq<string>): (r: seq<string>)
    requires ClosedUnder(e, u)
    requires forall i :: 0 <= i < |keys| ==> keys[i] in u && keys[i] in m.res && Visit(e, u, keys[i], []).Ok?
    ensures forall i :: 0 <= i < |keys| && m.res[keys[i]].isRoot ==> keys[i] in r
    ensures forall x :: x in r ==> x in u
  {
    if |keys| == 0 then []
    else
      var first := if m.res[keys[0]].isRoot then PostOrder(e, u, keys[0], []) else [];
      var rest := RootListing(m, e, u, keys[1..]);
      assert forall i :: 1 <= i < |keys| ==> keys[i] == keys[1..][i - 1];
      first + rest
  }

  /** The listing entries of `keys`, one per key. */
  function ItemsOf(g: Graph, keys: seq<string>): (r: seq<Item>)
    ensures |r| == |keys|
    ensures forall i :: 0 <= i < |keys| ==> r[i] == ItemOf(g, keys[i])
  {
    seq(|keys|, i requires 0 <= i < |keys| => ItemOf(g, keys[i]))
  }

  /** The entries listed for `keys` are exactly the entries of the keys in `keys`. */
  lemma ItemsOfContents(g: Graph, keys: seq<string>, x: Item)
    ensures x in ItemsOf(g, keys) <==> exists k :: k in keys && x == ItemOf(g, k)
  {
    var items := ItemsOf(g, keys);
    if x in items {
      var i := IndexOf(items, x);
      assert keys[i] in keys;
    }
    if exists k :: k in keys && x == ItemOf(g, k) {
      var k :| k in keys && x == ItemOf(g, k);
      var i := IndexOf(keys, k);
      assert items[i] == x;
    }
  }

  /** Marking roots leaves every listing entry as it was. */
  lemma MarkingKeepsItems(g: Graph, k: string)
    requires WellFormed(g)
    ensures ItemOf(MarkNonRoots(g), k) == ItemOf(g, k)
  {
  }

  /** The key-level listing of a validated graph. */
  function Listing(g: Graph): (r: seq<string>)
    requires WellFormed(g) && Validate(g).Ok?
    ensures forall k :: k in g.res && Validate(g).value.res[k].isRoot ==> k in r
    ensures forall x :: x in r ==> x in g.res
  {
    var m := Validate(g).value;
    CyclesOverKeys(g);
    RootListing(m, EdgesOf(g), g.res.Keys, m.order)
  }

  /** `get_ordered_uninstalled`: validation, then the roots' post-orders in iteration
      order, then first occurrences only. Fails exactly when `validate` fails. */
  function GetOrderedUninstalled(g: Graph): (r: Result<seq<Item>, Error>)
    requires WellFormed(g)
    ensures r.Err? <==> Validate(g).Err?
    ensures r.Err? ==> r.error == Validate(g).error
    ensures r.Ok? ==> r.value == Dedup(ItemsOf(g, Listing(g)))
  {
    var m :- Validate(g);
    var keys := Listing(g);
    forall k ensures ItemOf(m, k) == ItemOf(g, k) {
      MarkingKeepsItems(g, k);
    }
    assert ItemsOf(m, keys) == ItemsOf(g, keys);
    Ok(Dedup(ItemsOf(m, keys)))
  }

  /** Each entry of the ordered listing appears once, and the entries listed are exactly
      those of the keys reachable from the roots. */
  lemma OrderedUninstalledContents(g: Graph, x: Item)
    requires WellFormed(g) && GetOrderedUninstalled(g).Ok?
    ensures Distinct(GetOrderedUninstalled(g).value)
    ensures x in GetOrderedUninstalled(g).value <==> exists k :: k in Listing(g) && x == ItemOf(g, k)
  {
    ItemsOfContents(g, Listing(g), x);
  }

  lemma {:induction false} RootListingDepsFirst(m: Graph, e: Edges, u: set<string>, keys: seq<string>)
    requires ClosedUnder(e, u)
    requires forall i :: 0 <= i < |keys| ==> keys[i] in u && keys[i] in m.res && Visit(e, u, keys[i], []).Ok?
    ensures DepsFirst(e, RootListing(m, e, u, keys))
    decreases |keys|
  {
    if |keys| > 0 {
      var rest := RootListing(m, e, u, keys[1..]);
      RootListingDepsFirst(m, e, u, keys[1..]);
      if m.res[keys[0]].isRoot {
        PostOrderDepsFirst(e, u, keys[0], []);
        DepsFirstConcat(e, PostOrder(e, u, keys[0], []), rest);
      } else {
        assert RootListing(m, e, u, keys) == [] + rest == rest;
      }
    }
  }

  /** In the key-level listing every dependency of a key is listed before it. */
  lemma ListingDepsFirst(g: Graph)
    requires WellFormed(g) && Validate(g).Ok?
    ensures DepsFirst(EdgesOf(g), Listing(g))
  {
    var m := Validate(g).value;
    CyclesOverKeys(g);
    RootListingDepsFirst(m, EdgesOf(g), g.res.Keys, m.order);
  }

  /** Distinct keys of the graph have distinct listing entries. */
  predicate DistinctItems(g: Graph) {
    forall a, b :: a in g.res && b in g.res && a != b ==> ItemOf(g, a) != ItemOf(g, b)
  }

  /** The position of a key's first occurrence is its entry's first position in the listing. */
  lemma FirstItemPosition(g: Graph, keys: seq<string>, k: string)
    requires DistinctItems(g) && forall x :: x in keys ==> x in g.res
    requires k in keys
    ensures ItemOf(g, k) in ItemsOf(g, keys)
    ensures IndexOf(ItemsOf(g, keys), ItemOf(g, k)) == IndexOf(keys, k)
  {
    var items := ItemsOf(g, keys);
    var p := IndexOf(keys, k);
    assert items[p] == ItemOf(g, k);
    forall q | 0 <= q < p ensures items[q] != ItemOf(g, k) {
      assert keys[q] in keys;
    }
  }

  /** Deduplicating the entries of a listing whose keys come after their dependencies
      puts each dependency's entry before the key's entry. */
  lemma DedupDepsFirst(g: Graph, keys: seq<string>, k: string, j: nat)
    requires DistinctItems(g) && forall x :: x in keys ==> x in g.res
    requires DepsFirst(EdgesOf(g), keys)
    requires k in keys && j < |Deps(EdgesOf(g), k)|
    ensures ItemOf(g, Deps(EdgesOf(g), k)[j]) in Dedup(ItemsOf(g, keys))
    ensures ItemOf(g, k) in Dedup(ItemsOf(g, keys))
    ensures IndexOf(Dedup(ItemsOf(g, keys)), ItemOf(g, Deps(EdgesOf(g), k)[j]))
          < IndexOf(Dedup(ItemsOf(g, keys)), ItemOf(g, k))
  {
    var d := Deps(EdgesOf(g), k)[j];
    var p := IndexOf(keys, k);
    assert d in keys[..p];
    var q := IndexOf(keys[..p], d);
    assert keys[q] == d;
    FirstItemPosition(g, keys, k);
    FirstItemPosition(g, keys, d);
    DedupKeepsOrder(ItemsOf(g, keys), ItemOf(g, d), ItemOf(g, k));
  }

  /** When distinct keys have distinct entries, `get_ordered_uninstalled` lists the entry
      of each dependency of a listed key before the key's own entry. */
  lemma OrderedUninstalledDepsFirst(g: Graph, k: string, j: nat)
    requires WellFormed(g) && DistinctItems(g)
    requires GetOrderedUninstalled(g).Ok?
    requires k in Listing(g) && j < |Deps(EdgesOf(g), k)|
    ensures ItemOf(g, Deps(EdgesOf(g), k)[j]) in GetOrderedUninstalled(g).value
    ensures ItemOf(g, k) in GetOrderedUninstalled(g).value
    ensures IndexOf(GetOrderedUninstalled(g).value, ItemOf(g, Deps(EdgesOf(g), k)[j]))
          < IndexOf(GetOrderedUninstalled(g).value, ItemOf(g, k))
  {
    ListingDepsFirst(g);
    DedupDepsFirst(g, Listing(g), k, j);
  }

  /** `detect_cycles` never removes a key from the traveled list, so a key reached
      along two paths from one start is reported as a cycle: with `a` depending on
      `b` and `c`, and both of those on `d`, the check from `a` fails at `d`. */
  lemma SharedDependencyIsCycle()
    ensures var e := map["a" := ["b", "c"], "b" := ["d"], "c" := ["d"], "d" := []];
            ClosedUnder(e, e.Keys) && Visit(e, e.Keys, "a", []) == Err(CycleError("d"))
  {
    var e: Edges := map["a" := ["b", "c"], "b" := ["d"], "c" := ["d"], "d" := []];
    var u := e.Keys;
    assert ClosedUnder(e, u);
    var ab, abd := ["a", "b"], ["a", "b", "d"];
    assert "d" !in ab && ab + ["d"] == abd && Deps(e, "d") == [];
    assert VisitAll(e, u, [], 0, abd) == Ok(abd);
    assert Visit(e, u, "d", ab) == Ok(abd);
    assert VisitAll(e, u, ["d"], 1, abd) == Ok(abd);
    assert VisitAll(e, u, ["d"], 0, ab) == Ok(abd);
    assert "b" !in ["a"] && ["a"] + ["b"] == ab && Deps(e, "b") == ["d"];
    assert Visit(e, u, "b", ["a"]) == Ok(abd);
    var abdc := abd + ["c"];
    assert "d" in abdc;
    assert VisitAll(e, u, ["d"], 0, abdc) == Err(CycleError("d"));
    assert "c" !in abd && Deps(e, "c") == ["d"];
    assert Visit(e, u, "c", abd) == Err(CycleError("d"));
    assert VisitAll(e, u, ["b", "c"], 1, abd) == Err(CycleError("d"));
    assert VisitAll(e, u, ["b", "c"], 0, ["a"]) == Err(CycleError("d"));
    assert [] + ["a"] == ["a"] && Deps(e, "a") == ["b", "c"];
  }
}
