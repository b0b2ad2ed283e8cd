/** The stack database of src/rosdep/model.py: loaded rosdep data per stack and
    the transitive closure of stack dependencies. The rosdep2 view database,
    which the rule lookup reads, is modelled by the same structure. */
module RosdepModel {
  import opened Base
  import opened Yaml

  /** `KeyError` for an absent stack. */
  datatype Error = KeyError(stack: string)

  /** One stack's rules (a mapping, kept in its iteration order), its stack
      dependencies and where the data came from (`None` for a stack only marked loaded). */
  datatype Entry = Entry(rosdepData: seq<(string, Value)>, stackDependencies: seq<string>, origin: Option<string>)

  type Database = map<string, Entry>

  /** `is_loaded`: data was set, or the stack was marked loaded. */
  predicate IsLoaded(db: Database, stack: string) {
    stack in db
  }

  /** `set_stack_data`: stores a new entry, replacing any previous one. Values are
      immutable here, so the stored data cannot change when the caller's map does. */
  function SetStackData(db: Database, stack: string, data: seq<(string, Value)>, deps: seq<string>, origin: Option<string>): (r: Database)
    ensures IsLoaded(r, stack)
    ensures GetStackData(r, stack) == Ok(Entry(data, deps, origin))
    ensures forall s :: s != stack ==> GetStackData(r, s) == GetStackData(db, s)
  {
    db[stack := Entry(data, deps, origin)]
  }

  /** `mark_loaded`: the stack gets empty data, no dependencies and no origin. */
  function MarkLoaded(db: Database, stack: string): (r: Database)
    ensures IsLoaded(r, stack)
    ensures GetStackData(r, stack) == Ok(Entry([], [], None))
    ensures forall s :: s != stack ==> IsLoaded(r, s) == IsLoaded(db, s)
  {
    SetStackData(db, stack, [], [], None)
  }

  function GetStackNames(db: Database): (r: set<string>)
    ensures forall s :: s in r <==> IsLoaded(db, s)
  {
    db.Keys
  }

  /** `get_stack_data`: the entry, `KeyError` for an unset stack. */
  function GetStackData(db: Database, stack: string): (r: Result<Entry, Error>)
    ensures r.Ok? <==> IsLoaded(db, stack)
    ensures r.Err? ==> r.error == KeyError(stack)
  {
    if stack in db then Ok(db[stack]) else Err(KeyError(stack))
  }

  /** `rank` witnesses that the dependencies among loaded stacks form no cycle:
      a loaded dependency always has a smaller rank. The source has no cycle guard,
      so a cyclic database makes it recurse without end. */
  ghost predicate Acyclic(db: Database, rank: map<string, nat>) {
    forall s :: s in db ==>
      && s in rank
      && forall i :: 0 <= i < |db[s].stackDependencies| && db[s].stackDependencies[i] in db ==>
           db[s].stackDependencies[i] in rank && rank[db[s].stackDependencies[i]] < rank[s]
  }

  ghost function Height(db: Database, rank: map<string, nat>, s: string): nat
    requires Acyclic(db, rank)
  {
    if s in db then rank[s] + 1 else 0
  }

  /** Every stack of `S` is loaded and lists only dependencies that are in `S`. */
  ghost predicate Closed(db: Database, S: set<string>) {
    forall x :: x in S ==> x in db && forall j :: 0 <= j < |db[x].stackDependencies| ==> db[x].stackDependencies[j] in S
  }

  /** `get_stack_dependencies`: the stacks reachable from `stack` through one or more
      dependency edges. `KeyError` if `stack` or any reachable stack is not loaded. */
  function GetStackDependencies(db: Database, ghost rank: map<string, nat>, stack: string): (r: Result<set<string>, Error>)
    requires Acyclic(db, rank)
    ensures r.Ok? ==> stack in db && forall j :: 0 <= j < |db[stack].stackDependencies| ==> db[stack].stackDependencies[j] in r.value
    ensures r.Ok? ==> Closed(db, r.value)
    ensures r.Err? ==> r.error.stack !in db
    decreases Height(db, rank, stack), 1, 0
  {
    if stack !in db then Err(KeyError(stack))
    else
      var deps := db[stack].stackDependencies;
      var rest :- DependenciesOfAll(db, rank, deps, Height(db, rank, stack));
      Ok((set j | 0 <= j < |deps| :: deps[j]) + rest)
  }

  /** The union of `GetStackDependencies` over `deps`, failing at the first failure. */
  function DependenciesOfAll(db: Database, ghost rank: map<string, nat>, deps: seq<string>, ghost bound: nat): (r: Result<set<string>, Error>)
    requires Acyclic(db, rank)
    requires forall i :: 0 <= i < |deps| ==> Height(db, rank, deps[i]) < bound
    ensures r.Ok? ==> forall i :: 0 <= i < |deps| ==>
                        && deps[i] in db
                        && forall j :: 0 <= j < |db[deps[i]].stackDependencies| ==> db[deps[i]].stackDependencies[j] in r.value
    ensures r.Ok? ==> Closed(db, r.value)
    ensures r.Err? ==> r.error.stack !in db
    decreases bound, 0, |deps|
  {
    if |deps| == 0 then Ok({})
    else
      var first :- GetStackDependencies(db, rank, deps[0]);
      var rest :- DependenciesOfAll(db, rank, deps[1..], bound);
      Ok(first + rest)
  }

  /** The closure is the least one: any set that holds the stack's dependencies and
      every dependency of its own loaded members contains it. */
  lemma {:induction false} DependenciesLeast(db: Database, rank: map<string, nat>, stack: string, S: set<string>)
    requires Acyclic(db, rank)
    requires GetStackDependencies(db, rank, stack).Ok?
    requires stack in db && forall j :: 0 <= j < |db[stack].stackDependencies| ==> db[stack].stackDependencies[j] in S
    requires forall x :: x in S && x in db ==> forall j :: 0 <= j < |db[x].stackDependencies| ==> db[x].stackDependencies[j] in S
    ensures GetStackDependencies(db, rank, stack).value <= S
    decreases Height(db, rank, stack), 1, 0
  {
    var deps := db[stack].stackDependencies;
    AllLeast(db, rank, deps, Height(db, rank, stack), S);
  }

  lemma {:induction false} AllLeast(db: Database, rank: map<string, nat>, deps: seq<string>, bound: nat, S: set<string>)
    requires Acyclic(db, rank)
    requires forall i :: 0 <= i < |deps| ==> Height(db, rank, deps[i]) < bound
    requires DependenciesOfAll(db, rank, deps, bound).Ok?
    requires forall i :: 0 <= i < |deps| ==> deps[i] in S
    requires forall x :: x in S && x in db ==> forall j :: 0 <= j < |db[x].stackDependencies| ==> db[x].stackDependencies[j] in S
    ensures DependenciesOfAll(db, rank, deps, bound).value <= S
    decreases bound, 0, |deps|
  {
    if |deps| > 0 {
      assert deps[0] in S;
      DependenciesLeast(db, rank, deps[0], S);
      AllLeast(db, rank, deps[1..], bound, S);
    }
  }
}
