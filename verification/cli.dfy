/** The command-line helpers of src/rosdep2/main.py: `key:value` option lists,
    boolean words, the `--os` override, option flattening, `get_keys` and the choice
    of handler for a command. */
module Cli {
  import opened Base
  import opened Strings
  import opened Seqs

  /** `UsageError` and the option parser's `parser.error`, with their messages. */
  datatype UsageError =
    | UsageError(msg: string)
    | ParserError(msg: string)

  // ---------------------------------------------------------------------------
  // Option lists

  /** Each element split on single spaces, the pieces concatenated: how `--skip-keys`,
      `--filter-for-installers`, `--dependency-types` and `--as-root` are flattened. */
  function SplitEach(xs: seq<string>): (r: seq<string>)
    ensures forall i :: 0 <= i < |r| ==> FreeOf(r[i], {' '})
  {
    if |xs| == 0 then []
    else
      var first := Split(xs[0], ' ');
      var rest := SplitEach(xs[1..]);
      assert forall i :: 0 <= i < |first + rest| ==> (first + rest)[i] == if i < |first| then first[i] else rest[i - |first|];
      first + rest
  }

  /** Flattening keeps space-free elements as they are, and flattening a concatenation
      flattens each part. */
  lemma {:induction false} SplitEachKeeps(xs: seq<string>)
    requires forall i :: 0 <= i < |xs| ==> FreeOf(xs[i], {' '})
    ensures SplitEach(xs) == xs
    decreases |xs|
  {
    if |xs| > 0 {
      SplitFree(xs[0], ' ');
      SplitEachKeeps(xs[1..]);
      assert xs == [xs[0]] + xs[1..];
    }
  }

  lemma {:induction false} SplitEachConcat(a: seq<string>, b: seq<string>)
    ensures SplitEach(a + b) == SplitEach(a) + SplitEach(b)
    decreases |a|
  {
    if |a| > 0 {
      assert (a + b)[1..] == a[1..] + b;
      SplitEachConcat(a[1..], b);
    } else {
      assert a + b == b;
    }
  }

  /** Every token has exactly one ':'. */
  predicate PairTokens(tokens: seq<string>) {
    forall i :: 0 <= i < |tokens| ==> |Split(tokens[i], ':')| == 2
  }

  /** The pairs of a `key:value` list: each token split on ':' with the parts stripped;
      `None` for a token that does not have exactly two parts. */
  function Pairs(tokens: seq<string>): (r: Option<seq<(string, string)>>)
    ensures r.Some? <==> PairTokens(tokens)
    ensures r.Some? ==> |r.value| == |tokens| && forall i :: 0 <= i < |tokens| ==> r.value[i] == PairOf(tokens[i])
  {
    if |tokens| == 0 then Some([])
    else
      var rest := Pairs(tokens[1..]);
      PairTokensCons(tokens);
      if |Split(tokens[0], ':')| != 2 || rest.None? then None
      else
        assert forall i :: 1 <= i < |tokens| ==> tokens[i] == tokens[1..][i - 1];
        Some([PairOf(tokens[0])] + rest.value)
  }

  /** One `key:value` token as a pair of stripped parts. */
  function PairOf(token: string): (string, string)
    requires |Split(token, ':')| == 2
  {
    (Strip(Split(token, ':')[0]), Strip(Split(token, ':')[1]))
  }

  /** A list of pairs is its first token being one and the rest being pairs. */
  lemma PairTokensCons(tokens: seq<string>)
    requires |tokens| > 0
    ensures PairTokens(tokens) <==> |Split(tokens[0], ':')| == 2 && PairTokens(tokens[1..])
  {
    assert forall i :: 1 <= i < |tokens| ==> tokens[i] == tokens[1..][i - 1];
  }

  /** `dict(pairs)`: later pairs overwrite earlier ones. */
  function ToMap(pairs: seq<(string, string)>): (m: map<string, string>)
    ensures forall k :: k in m <==> exists i :: 0 <= i < |pairs| && pairs[i].0 == k
    decreases |pairs|
  {
    if |pairs| == 0 then map[]
    else
      var n := |pairs| - 1;
      var m := ToMap(pairs[..n]);
      assert forall i :: 0 <= i < n ==> pairs[..n][i] == pairs[i];
      m[pairs[n].0 := pairs[n].1]
  }

  /** The value stored for a key is the one of its last pair. */
  lemma {:induction false} ToMapLastWins(pairs: seq<(string, string)>, i: nat)
    requires i < |pairs|
    requires forall j :: i < j < |pairs| ==> pairs[j].0 != pairs[i].0
    ensures pairs[i].0 in ToMap(pairs) && ToMap(pairs)[pairs[i].0] == pairs[i].1
    decreases |pairs|
  {
    var n := |pairs| - 1;
    if i < n {
      assert forall j :: i < j < n ==> pairs[..n][j] == pairs[j];
      ToMapLastWins(pairs[..n], i);
    }
  }

  /** The keys of the pairs, in order of first appearance: the iteration order of the
      resulting dictionary. */
  function KeyOrder(pairs: seq<(string, string)>): (r: seq<string>)
    ensures Distinct(r)
    ensures forall k :: k in r <==> exists i :: 0 <= i < |pairs| && pairs[i].0 == k
  {
    var keys := seq(|pairs|, i requires 0 <= i < |pairs| => pairs[i].0);
    assert forall k :: k in keys <==> exists i :: 0 <= i < |pairs| && pairs[i].0 == k by {
      forall k ensures k in keys <==> exists i :: 0 <= i < |pairs| && pairs[i].0 == k {
        if k in keys {
          var i := IndexOf(keys, k);
          assert pairs[i].0 == k;
        }
        if exists i :: 0 <= i < |pairs| && pairs[i].0 == k {
          var i :| 0 <= i < |pairs| && pairs[i].0 == k;
          assert keys[i] == k;
        }
      }
    }
    Dedup(keys)
  }

  /** An ordered dictionary: keys in iteration order, and their values. */
  datatype Dict = Dict(order: seq<string>, values: map<string, string>)

  /** `key_list_to_dict`: `'foo:bar quux:quax'` style strings to a dictionary. A token
      without exactly one ':' is a `UsageError` naming the whole flattened list. */
  function KeyListToDict(keyList: seq<string>): (r: Result<Dict, UsageError>)
    ensures var tokens := SplitEach(keyList);
            && (r.Ok? <==> PairTokens(tokens))
            && (r.Err? ==> r.error == UsageError("Invalid 'key:value' list: '" + JoinWith(tokens, " ") + "'"))
    ensures r.Ok? ==> (forall k :: k in r.value.order <==> k in r.value.values) && Distinct(r.value.order)
  {
    var tokens := SplitEach(keyList);
    match Pairs(tokens)
    case None => Err(UsageError("Invalid 'key:value' list: '" + JoinWith(tokens, " ") + "'"))
    case Some(pairs) => Ok(Dict(KeyOrder(pairs), ToMap(pairs)))
  }

  /** A single well-formed `key:value` token yields exactly that entry. */
  lemma KeyListSingle(k: string, v: string)
    requires FreeOf(k, {' ', ':'}) && FreeOf(v, {' ', ':'})
    requires Strip(k) == k && Strip(v) == v
    ensures KeyListToDict([k + ":" + v]) == Ok(Dict([k], map[k := v]))
  {
    var t := k + ":" + v;
    assert Join([k, v], ':') == t;
    assert FreeOf(k, {':'}) && FreeOf(v, {':'});
    SplitJoin([k, v], ':');
    assert FreeOf(t, {' '}) by {
      assert forall j :: 0 <= j < |t| ==> t[j] == if j < |k| then k[j] else if j == |k| then ':' else v[j - |k| - 1];
    }
    SplitFree(t, ' ');
    assert SplitEach([t]) == [t] + SplitEach([]);
    var pairs := [(k, v)];
    assert [t][1..] == [];
    assert Split(t, ':') == [k, v];
    assert Pairs([]) == Some([]);
    assert [(k, v)] + [] == pairs;
    assert Pairs([t]) == Some(pairs);
    assert SplitEach([t]) == [t];
    assert pairs[..0] == [];
    assert ToMap(pairs) == map[k := v];
    assert seq(|pairs|, i requires 0 <= i < |pairs| => pairs[i].0) == [k];
    assert [k][..0] == [];
    assert Dedup([k]) == [k];
    assert KeyOrder(pairs) == [k];
  }

  // ---------------------------------------------------------------------------
  // Booleans and the OS override

  /** `str_to_bool`: `yes`/`true` and `no`/`false`, in any letter case. */
  function StrToBool(s: string): (r: Result<bool, UsageError>)
    ensures r.Ok? <==> Lower(s) in {"yes", "true", "no", "false"}
    ensures r.Ok? ==> (r.value <==> Lower(s) in {"yes", "true"})
    ensures r.Err? ==> r.error == UsageError("Cannot parse '" + Lower(s) + "' as boolean")
  {
    var l := Lower(s);
    if l == "yes" || l == "true" then Ok(true)
    else if l == "no" || l == "false" then Ok(false)
    else Err(UsageError("Cannot parse '" + l + "' as boolean"))
  }

  lemma LowerIdempotent(s: string)
    ensures Lower(Lower(s)) == Lower(s)
  {
  }

  /** The parse depends only on the lower-cased text, so it reads an already
      lower-cased word the same way. */
  lemma StrToBoolCaseInsensitive(s: string)
    ensures StrToBool(s) == StrToBool(Lower(s))
  {
    LowerIdempotent(s);
  }

  /** `as_root`: each value of the dictionary read as a boolean, in iteration order;
      the first value that is not a boolean word raises. */
  function AsRoot(d: Dict, keys: seq<string>): (r: Result<map<string, bool>, UsageError>)
    requires forall i :: 0 <= i < |keys| ==> keys[i] in d.values
    ensures r.Ok? <==> forall i :: 0 <= i < |keys| ==> StrToBool(d.values[keys[i]]).Ok?
    ensures r.Ok? ==> r.value.Keys == set i | 0 <= i < |keys| :: keys[i]
    ensures r.Ok? ==> forall i :: 0 <= i < |keys| ==> r.value[keys[i]] == StrToBool(d.values[keys[i]]).value
  {
    if |keys| == 0 then Ok(map[])
    else
      var b :- StrToBool(d.values[keys[0]]);
      var rest :- AsRoot(d, keys[1..]);
      assert forall i :: 1 <= i < |keys| ==> keys[i] == keys[1..][i - 1];
      Ok(rest[keys[0] := b])
  }

  /** `convert_os_override_option`: no override for an absent or empty option; otherwise
      name and version around the first ':'. */
  function ConvertOsOverride(opt: Option<string>): (r: Result<Option<(string, string)>, UsageError>)
    ensures opt.None? || opt.value == "" ==> r == Ok(None)
    ensures opt.Some? && opt.value != "" && ':' !in opt.value ==> r.Err?
    ensures r.Ok? && r.value.Some? ==>
              (opt.Some? && opt.value == r.value.value.0 + ":" + r.value.value.1 && ':' !in r.value.value.0)
  {
    if opt.None? || opt.value == "" then Ok(None)
    else
      var val := opt.value;
      if ':' !in val then Err(UsageError("OS override must be colon-separated OS_NAME:OS_VERSION, e.g. ubuntu:maverick"))
      else
        var i := IndexOf(val, ':');
        assert val == val[..i] + ":" + val[i + 1..];
        Ok(Some((val[..i], val[i + 1..])))
  }

  /** The override splits back into the name and version it was written from, even when
      the version holds a ':'. */
  lemma ConvertOsOverrideRoundTrip(name: string, version: string)
    requires ':' !in name
    ensures ConvertOsOverride(Some(name + ":" + version)) == Ok(Some((name, version)))
  {
    var val := name + ":" + version;
    assert val[|name|] == ':';
    forall j | 0 <= j < |name| ensures val[j] != ':' {
      assert val[j] == name[j];
    }
    var i := IndexOf(val, ':');
    assert i == |name|;
    assert val[..i] == name && val[i + 1..] == version;
  }

  // ---------------------------------------------------------------------------
  // get_keys

  /** `get_keys`: the rosdep keys of all packages, each once. `rosdeps` is the lookup's
      `get_rosdeps(package, implicit=recursive)`, `None` where the lookup raises; the
      first such package is reported. */
  function GetKeys(rosdeps: string -> Option<seq<string>>, packages: seq<string>): (r: Result<set<string>, string>)
    ensures r.Ok? <==> forall i :: 0 <= i < |packages| ==> rosdeps(packages[i]).Some?
    ensures r.Ok? ==> forall k :: k in r.value <==> exists i :: 0 <= i < |packages| && k in rosdeps(packages[i]).value
    ensures r.Err? ==> r.error in packages && rosdeps(r.error).None?
  {
    if |packages| == 0 then Ok({})
    else
      assert forall i :: 1 <= i < |packages| ==> packages[i] == packages[1..][i - 1];
      match rosdeps(packages[0])
      case None => Err(packages[0])
      case Some(deps) =>
        var rest :- GetKeys(rosdeps, packages[1..]);
        Ok((set k | k in deps) + rest)
  }

  // ---------------------------------------------------------------------------
  // Dispatch

  /** Commands that take rosdep keys as arguments. */
  const RosdepArgCommands: set<string> := {"what-needs", "what_needs", "where-defined", "where_defined", "resolve"}

  /** Commands that take no arguments. */
  const NoArgCommands: set<string> := {"update", "init", "db", "fix-permissions"}

  /** Every command with a handler. */
  const Commands: set<string> := {"db", "check", "keys", "install", "what-needs", "where-defined", "resolve",
                                  "init", "update", "fix-permissions", "what_needs", "where_defined", "depdb"}

  /** The handler a command line reaches, with the arguments it receives. */
  datatype Invocation =
    | RosdepArgs(command: string, keys: seq<string>)
    | NoArgs(command: string)
    | Packages(command: string, packages: seq<string>)
    | AllPackages(command: string)

  /** Command selection in `_rosdep_main` and the three argument handlers. `all` is the
      `-a` flag; `asRoot` the raw `--as-root` values, converted before dispatch. */
  function Dispatch(args: seq<string>, all: bool, asRoot: seq<string>): (r: Result<Invocation, UsageError>)
    ensures |args| == 0 ==> r == Err(ParserError("Please enter a command"))
    ensures r.Ok? ==> |args| > 0 && args[0] in Commands && r.value.command == args[0]
    ensures r.Ok? && args[0] in RosdepArgCommands ==> r.value == RosdepArgs(args[0], args[1..]) && |args| > 1 && !all
    ensures r.Ok? && args[0] in NoArgCommands ==> r.value == NoArgs(args[0]) && |args| == 1
    ensures r.Ok? && args[0] !in RosdepArgCommands && args[0] !in NoArgCommands ==>
              (if all then r.value == AllPackages(args[0]) && |args| == 1 else r.value == Packages(args[0], args[1..]) && |args| > 1)
  {
    if |args| == 0 then Err(ParserError("Please enter a command"))
    else
      var command := args[0];
      if command !in Commands then Err(ParserError("Unsupported command " + command + "."))
      else
        var rest := args[1..];
        var dict :- KeyListToDict(asRoot);
        var _ :- AsRoot(dict, dict.order);
        if command in RosdepArgCommands then
          if all then Err(ParserError("-a, --all is not a valid option for this command"))
          else if |rest| < 1 then Err(ParserError("Please enter arguments for '" + command + "'"))
          else Ok(RosdepArgs(command, rest))
        else if command in NoArgCommands then
          if |rest| > 0 then Err(ParserError("command [" + command + "] takes no arguments"))
          else Ok(NoArgs(command))
        else if all then
          if |rest| > 0 then Err(ParserError("cannot specify additional arguments with -a"))
          else Ok(AllPackages(command))
        else if |rest| == 0 then Err(ParserError("no packages or stacks specified"))
        else Ok(Packages(command, rest))
  }

  /** A known command with well-formed `--as-root` values fails only for the argument
      rules of its handler. */
  lemma DispatchFailsOnlyOnArguments(args: seq<string>, all: bool, asRoot: seq<string>)
    requires |args| > 0 && args[0] in Commands
    requires KeyListToDict(asRoot).Ok? && AsRoot(KeyListToDict(asRoot).value, KeyListToDict(asRoot).value.order).Ok?
    ensures Dispatch(args, all, asRoot).Err? <==>
              if args[0] in RosdepArgCommands then all || |args| == 1
              else if args[0] in NoArgCommands then |args| > 1
              else (all && |args| > 1) || (!all && |args| == 1)
  {
  }
}
