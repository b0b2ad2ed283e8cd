/** Rule lookup of src/rosdep2/lookup.py: REP 111 rule selection for one platform,
    merging database entries into a view, locating defining views, and key
    resolution through the installer registry with its per-key cache. */
module Lookup {
  import opened Base
  import opened Yaml
  import Installers
  import RosdepModel

  /** Name under which the user's override entry is reported. */
  const OverrideEntry := ".ros"

  /** Why a key could not be resolved. */
  datatype Reason =
    | NoOsDefinition
    | NoVersionDefinition
    | NoView
    | NoDefinition
    | UnsupportedOs
    | UnsupportedInstaller(installer: Option<string>)

  datatype Error =
    | InvalidRosdepData(key: string)
    | ResolutionError(key: string, reason: Reason)
    | RosdepConflict(key: string)
    | UnknownView(view: string)
    | NameError(name: string)

  /** One key's raw rule data and the file it came from. */
  datatype Definition = Definition(key: string, data: Value, origin: Option<string>)

  /** A merged view: definitions by key. */
  datatype View = View(name: string, defs: map<string, Definition>)

  /** A rule must be a mapping, a list or a string. */
  predicate IsRule(v: Value) {
    v.Dict? || v.List? || v.Str?
  }

  /** Position of the first installer key (in list order) present in `m`; `|keys|` if none is. */
  function FirstPresent(keys: seq<string>, m: map<string, Value>): (i: nat)
    ensures i <= |keys|
    ensures i < |keys| ==> keys[i] in m
    ensures forall k :: 0 <= k < i ==> keys[k] !in m
  {
    if |keys| == 0 then 0
    else if keys[0] in m then 0
    else 1 + FirstPresent(keys[1..], m)
  }

  /** `v` is a mapping with one of the listed installers as a key. */
  predicate InstallerKeyed(v: Value, keys: seq<string>) {
    v.Dict? && FirstPresent(keys, v.entries) < |keys|
  }

  /** Reads `v` as keyed by installer: the first listed installer present gives the key
      and its value; otherwise `v` itself with the fallback key. */
  function PickInstaller(v: Value, keys: seq<string>, fallback: Option<string>): (r: (Option<string>, Value))
    ensures v.Dict? && FirstPresent(keys, v.entries) < |keys| ==>
              r == (Some(keys[FirstPresent(keys, v.entries)]), v.entries[keys[FirstPresent(keys, v.entries)]])
    ensures !(v.Dict? && FirstPresent(keys, v.entries) < |keys|) ==> r == (fallback, v)
  {
    if v.Dict? then
      var i := FirstPresent(keys, v.entries);
      if i < |keys| then (Some(keys[i]), v.entries[keys[i]]) else (fallback, v)
    else (fallback, v)
  }

  /** `RosdepDefinition.get_rule_for_platform`: under the OS entry, a key is read first
      as an installer and otherwise as an OS version, under which an installer is
      looked up again; without an installer key the default is returned. */
  function GetRuleForPlatform(def: Definition, os: string, version: string, keys: seq<string>, default: Option<string>): (r: Result<(Option<string>, Value), Error>)
    ensures !def.data.Dict? ==> r == Err(InvalidRosdepData(def.key))
    ensures def.data.Dict? && os !in def.data.entries ==> r == Err(ResolutionError(def.key, NoOsDefinition))
    ensures r.Ok? ==> IsRule(r.value.1)
    ensures r.Ok? && r.value.0 != default ==> r.value.0.Some? && r.value.0.value in keys
    ensures r.Err? && r.error.InvalidRosdepData? ==> r.error.key == def.key
    // The first installer listed for the platform that keys the OS entry wins.
    ensures def.data.Dict? && os in def.data.entries && InstallerKeyed(def.data.entries[os], keys) ==>
              var m := def.data.entries[os].entries;
              var k := keys[FirstPresent(keys, m)];
              r == if IsRule(m[k]) then Ok((Some(k), m[k])) else Err(InvalidRosdepData(def.key))
    // Otherwise the keys are OS versions, and the platform's version must be one.
    ensures def.data.Dict? && os in def.data.entries && def.data.entries[os].Dict? &&
            !InstallerKeyed(def.data.entries[os], keys) && version !in def.data.entries[os].entries ==>
              r == Err(ResolutionError(def.key, NoVersionDefinition))
    // Under the version, the first listed installer present wins again.
    ensures def.data.Dict? && os in def.data.entries && def.data.entries[os].Dict? &&
            !InstallerKeyed(def.data.entries[os], keys) && version in def.data.entries[os].entries &&
            InstallerKeyed(def.data.entries[os].entries[version], keys) ==>
              var m := def.data.entries[os].entries[version].entries;
              var k := keys[FirstPresent(keys, m)];
              r == if IsRule(m[k]) then Ok((Some(k), m[k])) else Err(InvalidRosdepData(def.key))
    // Without an installer key under the version, the version's rule gets the default.
    ensures def.data.Dict? && os in def.data.entries && def.data.entries[os].Dict? &&
            !InstallerKeyed(def.data.entries[os], keys) && version in def.data.entries[os].entries &&
            !InstallerKeyed(def.data.entries[os].entries[version], keys) ==>
              var v := def.data.entries[os].entries[version];
              r == if IsRule(v) then Ok((default, v)) else Err(InvalidRosdepData(def.key))
    // A list or string directly under the OS gets the default.
    ensures def.data.Dict? && os in def.data.entries && !def.data.entries[os].Dict? ==>
              var v := def.data.entries[os];
              r == if IsRule(v) then Ok((default, v)) else Err(InvalidRosdepData(def.key))
  {
    if !def.data.Dict? then Err(InvalidRosdepData(def.key))
    else if os !in def.data.entries then Err(ResolutionError(def.key, NoOsDefinition))
    else
      var osData := def.data.entries[os];
      var picked :-
        if osData.Dict? && FirstPresent(keys, osData.entries) == |keys| then
          if version !in osData.entries then Err(ResolutionError(def.key, NoVersionDefinition))
          else Ok(PickInstaller(osData.entries[version], keys, default))
        else Ok(PickInstaller(osData, keys, default));
      if IsRule(picked.1) then Ok(picked) else Err(InvalidRosdepData(def.key))
  }

  /** A rule given directly under an installer of the platform is chosen with that installer,
      whatever the version. */
  lemma RuleUnderInstaller(key: string, origin: Option<string>, os: string, version: string,
                           keys: seq<string>, default: Option<string>, i: nat, rule: Value)
    requires i < |keys| && IsRule(rule)
    requires forall k :: 0 <= k < i ==> keys[k] != keys[i]
    ensures GetRuleForPlatform(Definition(key, Dict(map[os := Dict(map[keys[i] := rule])]), origin), os, version, keys, default)
            == Ok((Some(keys[i]), rule))
  {
    var m := map[keys[i] := rule];
    assert FirstPresent(keys, m) == i;
  }

  /** A rule given under an OS version and then an installer is chosen with that installer,
      provided the version string is not itself an installer key. */
  lemma RuleUnderVersion(key: string, origin: Option<string>, os: string, version: string,
                         keys: seq<string>, default: Option<string>, i: nat, rule: Value)
    requires i < |keys| && IsRule(rule) && version !in keys
    requires forall k :: 0 <= k < i ==> keys[k] != keys[i]
    ensures GetRuleForPlatform(Definition(key, Dict(map[os := Dict(map[version := Dict(map[keys[i] := rule])])]), origin), os, version, keys, default)
            == Ok((Some(keys[i]), rule))
  {
    var inner := map[keys[i] := rule];
    var outer := map[version := Dict(inner)];
    assert FirstPresent(keys, outer) == |keys|;
    assert FirstPresent(keys, inner) == i;
  }

  /** A rule given under an OS version without an installer key gets the default installer. */
  lemma RuleUnderVersionDefault(key: string, origin: Option<string>, os: string, version: string,
                                keys: seq<string>, default: Option<string>, rule: Value)
    requires version !in keys && (rule.List? || rule.Str?)
    ensures GetRuleForPlatform(Definition(key, Dict(map[os := Dict(map[version := rule])]), origin), os, version, keys, default)
            == Ok((default, rule))
  {
    assert FirstPresent(keys, map[version := rule]) == |keys|;
  }

  /** A version mapping that does not name the platform's version is a resolution error. */
  lemma MissingVersion(key: string, origin: Option<string>, os: string, version: string, other: string,
                       keys: seq<string>, default: Option<string>, rule: Value)
    requires other != version && other !in keys
    ensures GetRuleForPlatform(Definition(key, Dict(map[os := Dict(map[other := rule])]), origin), os, version, keys, default)
            == Err(ResolutionError(key, NoVersionDefinition))
  {
    assert FirstPresent(keys, map[other := rule]) == |keys|;
  }

  /** Some OS key present in both rule mappings holds different values. */
  predicate Conflicts(current: map<string, Value>, update: map<string, Value>) {
    exists k :: k in current && k in update && current[k] != update[k]
  }

  /** Merges one definition into the view's definitions. With `override`, or for a new key,
      the update replaces the definition; otherwise the OS mappings are unioned, a differing
      value under a shared OS key is a `RosdepConflict`, and the first origin is kept.
      Rule data that is not a mapping on this path fails in Python; here it is
      `InvalidRosdepData`. */
  function MergeDefinition(defs: map<string, Definition>, name: string, data: Value, origin: Option<string>, override: bool): (r: Result<map<string, Definition>, Error>)
    ensures override || name !in defs ==> r == Ok(defs[name := Definition(name, data, origin)])
    ensures !override && name in defs && defs[name].data.Dict? && data.Dict? ==>
              (r.Err? <==> Conflicts(defs[name].data.entries, data.entries))
    ensures r.Err? ==> (r.error.RosdepConflict? || r.error.InvalidRosdepData?) && r.error.key == name
    ensures r.Ok? ==> r.value.Keys == defs.Keys + {name}
    ensures r.Ok? ==> forall k :: k in defs && k != name ==> r.value[k] == defs[k]
    ensures r.Ok? && !override && name in defs ==>
              && r.value[name].origin == defs[name].origin
              && r.value[name].data.Dict? && defs[name].data.Dict? && data.Dict?
              && r.value[name].data.entries.Keys == defs[name].data.entries.Keys + data.entries.Keys
              && (forall os :: os in defs[name].data.entries ==> r.value[name].data.entries[os] == defs[name].data.entries[os])
              && (forall os :: os in data.entries ==> r.value[name].data.entries[os] == data.entries[os])
  {
    if override || name !in defs then Ok(defs[name := Definition(name, data, origin)])
    else
      var current := defs[name];
      if !current.data.Dict? || !data.Dict? then Err(InvalidRosdepData(name))
      else if Conflicts(current.data.entries, data.entries) then Err(RosdepConflict(name))
      else Ok(defs[name := current.(data := Dict(current.data.entries + data.entries))])
  }

  /** The keys of an entry's rule mapping. */
  function KeysOf(items: seq<(string, Value)>): (r: set<string>)
    ensures forall k :: k in r <==> exists i :: 0 <= i < |items| && items[i].0 == k
  {
    set i | 0 <= i < |items| :: items[i].0
  }

  lemma KeysOfCons(items: seq<(string, Value)>)
    requires |items| > 0
    ensures KeysOf(items) == {items[0].0} + KeysOf(items[1..])
  {
    forall k | k in KeysOf(items) && k != items[0].0 ensures k in KeysOf(items[1..]) {
      var i :| 0 <= i < |items| && items[i].0 == k;
      assert items[1..][i - 1].0 == k;
    }
    forall k | k in KeysOf(items[1..]) ensures k in KeysOf(items) {
      var i :| 0 <= i < |items[1..]| && items[1..][i].0 == k;
      assert items[i + 1].0 == k;
    }
  }

  /** The entry's keys are distinct, as those of the Python mapping it lists. */
  predicate DistinctKeys(items: seq<(string, Value)>) {
    forall i, j :: 0 <= i < j < |items| ==> items[i].0 != items[j].0
  }

  /** `RosdepView.merge`: merges an entry's definitions in order; the first failure is raised. */
  function Merge(view: View, entry: RosdepModel.Entry, override: bool): (r: Result<View, Error>)
    ensures override ==> r.Ok?
    ensures r.Ok? ==> r.value.name == view.name
    ensures r.Ok? ==> r.value.defs.Keys == view.defs.Keys + KeysOf(entry.rosdepData)
    ensures r.Ok? ==> forall k :: k in view.defs && k !in KeysOf(entry.rosdepData) ==> r.value.defs[k] == view.defs[k]
    ensures r.Err? ==> (r.error.RosdepConflict? || r.error.InvalidRosdepData?) && r.error.key in KeysOf(entry.rosdepData)
    decreases |entry.rosdepData|
  {
    var items := entry.rosdepData;
    if |items| == 0 then Ok(view)
    else
      var defs :- MergeDefinition(view.defs, items[0].0, items[0].1, entry.origin, override);
      KeysOfCons(items);
      Merge(View(view.name, defs), entry.(rosdepData := items[1..]), override)
  }

  /** Merging with override stores every entry of a duplicate-free entry as its own
      definition with the entry's origin. */
  lemma {:induction false} MergeOverride(view: View, entry: RosdepModel.Entry, i: nat)
    requires DistinctKeys(entry.rosdepData) && i < |entry.rosdepData|
    ensures Merge(view, entry, true).Ok?
    ensures Merge(view, entry, true).value.defs[entry.rosdepData[i].0]
            == Definition(entry.rosdepData[i].0, entry.rosdepData[i].1, entry.origin)
    decreases |entry.rosdepData|
  {
    var items := entry.rosdepData;
    var defs := view.defs[items[0].0 := Definition(items[0].0, items[0].1, entry.origin)];
    var rest := entry.(rosdepData := items[1..]);
    assert Merge(view, entry, true) == Merge(View(view.name, defs), rest, true);
    assert DistinctKeys(items[1..]);
    if i == 0 {
      assert items[0].0 !in KeysOf(items[1..]) by {
        forall j | 0 <= j < |items[1..]| ensures items[1..][j].0 != items[0].0 {
          assert items[1..][j] == items[j + 1];
        }
      }
    } else {
      MergeOverride(View(view.name, defs), rest, i - 1);
      assert items[1..][i - 1] == items[i];
    }
  }

  /** `RosdepLookup.create_rosdep_view`: the entries of `viewKeys` merged in order, then the
      override entry merged with override. */
  function CreateView(name: string, db: RosdepModel.Database, viewKeys: seq<string>, overrideEntry: Option<RosdepModel.Entry>): (r: Result<View, Error>)
    ensures r.Ok? ==> r.value.name == name
    ensures r.Ok? ==> forall i :: 0 <= i < |viewKeys| ==> viewKeys[i] in db
    ensures r.Err? && r.error.UnknownView? ==> r.error.view !in db
    ensures overrideEntry.Some? ==> (r.Ok? <==> MergeAll(View(name, map[]), db, viewKeys).Ok?)
  {
    var merged :- MergeAll(View(name, map[]), db, viewKeys);
    match overrideEntry
    case None => Ok(merged)
    case Some(e) => Merge(merged, e, true)
  }

  /** The entries of `viewKeys` merged into `view` in order; an unloaded one is an unknown view. */
  function MergeAll(view: View, db: RosdepModel.Database, viewKeys: seq<string>): (r: Result<View, Error>)
    ensures r.Ok? ==> r.value.name == view.name
    ensures r.Ok? ==> forall i :: 0 <= i < |viewKeys| ==> viewKeys[i] in db
    ensures r.Ok? ==> view.defs.Keys <= r.value.defs.Keys
    ensures r.Err? && r.error.UnknownView? ==> r.error.view !in db && r.error.view in viewKeys
    decreases |viewKeys|
  {
    if |viewKeys| == 0 then Ok(view)
    else if viewKeys[0] !in db then Err(UnknownView(viewKeys[0]))
    else
      var v :- Merge(view, db[viewKeys[0]], false);
      MergeAll(v, db, viewKeys[1..])
  }

  /** The override entry takes precedence: whatever the other views define, a key of the
      override entry resolves to the override's rule. */
  lemma OverrideTakesPrecedence(name: string, db: RosdepModel.Database, viewKeys: seq<string>, e: RosdepModel.Entry, i: nat)
    requires MergeAll(View(name, map[]), db, viewKeys).Ok?
    requires DistinctKeys(e.rosdepData) && i < |e.rosdepData|
    ensures CreateView(name, db, viewKeys, Some(e)).Ok?
    ensures ViewLookup(CreateView(name, db, viewKeys, Some(e)).value, e.rosdepData[i].0)
            == Ok(Definition(e.rosdepData[i].0, e.rosdepData[i].1, e.origin))
  {
    MergeOverride(MergeAll(View(name, map[]), db, viewKeys).value, e, i);
  }

  /** `RosdepView.lookup`: the definition, or a `KeyError` (here `ResolutionError` with
      `NoDefinition`) for an undeclared key. */
  function ViewLookup(view: View, key: string): (r: Result<Definition, Error>)
    ensures r.Ok? <==> key in view.defs
    ensures r.Ok? ==> r.value == view.defs[key]
  {
    if key in view.defs then Ok(view.defs[key]) else Err(ResolutionError(key, NoDefinition))
  }

  /** The entry's rule mapping has `key`. */
  predicate Defines(e: RosdepModel.Entry, key: string) {
    exists i :: 0 <= i < |e.rosdepData| && e.rosdepData[i].0 == key
  }

  /** Some view of `views` is named `p.0`, has origin `p.1` and defines `key`. */
  predicate DefinedIn(views: seq<(string, RosdepModel.Entry)>, key: string, p: (string, Option<string>)) {
    exists i :: 0 <= i < |views| && views[i].0 == p.0 && views[i].1.origin == p.1 && Defines(views[i].1, key)
  }

  /** `get_views_that_define`: `(view, origin)` for each loaded view, in order, whose own
      entry has the key, then `('.ros', origin)` if the override entry has it. */
  function GetViewsThatDefine(views: seq<(string, RosdepModel.Entry)>, overrideEntry: Option<RosdepModel.Entry>, key: string): (r: seq<(string, Option<string>)>)
    ensures forall p :: p in r <==>
              || DefinedIn(views, key, p)
              || (overrideEntry.Some? && Defines(overrideEntry.value, key) && p == (OverrideEntry, overrideEntry.value.origin))
  {
    var found := DefiningViews(views, key);
    if overrideEntry.Some? && Defines(overrideEntry.value, key) then found + [(OverrideEntry, overrideEntry.value.origin)]
    else found
  }

  function DefiningViews(views: seq<(string, RosdepModel.Entry)>, key: string): (r: seq<(string, Option<string>)>)
    ensures forall p :: p in r <==> DefinedIn(views, key, p)
    ensures |r| <= |views|
  {
    if |views| == 0 then []
    else
      var rest := DefiningViews(views[1..], key);
      var head: (string, Option<string>) := (views[0].0, views[0].1.origin);
      assert forall p: (string, Option<string>) :: DefinedIn(views, key, p) <==>
                (p == head && Defines(views[0].1, key)) || DefinedIn(views[1..], key, p) by {
        forall p: (string, Option<string>)
          ensures DefinedIn(views, key, p) <==> (p == head && Defines(views[0].1, key)) || DefinedIn(views[1..], key, p)
        {
          if DefinedIn(views[1..], key, p) {
            var i :| 0 <= i < |views[1..]| && views[1..][i].0 == p.0 && views[1..][i].1.origin == p.1 && Defines(views[1..][i].1, key);
            assert views[i + 1] == views[1..][i];
          }
          if DefinedIn(views, key, p) {
            var i :| 0 <= i < |views| && views[i].0 == p.0 && views[i].1.origin == p.1 && Defines(views[i].1, key);
            if i > 0 {
              assert views[1..][i - 1] == views[i];
            }
          }
        }
      }
      if Defines(views[0].1, key) then [head] + rest else rest
  }

  /** What `resolve` returns: the installer key, the installer's resolution and the
      rosdep keys the rule depends on. */
  datatype Resolved = Resolved(installerKey: string, resolution: Value, dependencies: Value)

  /** A cached resolution with the OS name, OS version and view it was computed for. */
  datatype CacheEntry = CacheEntry(os: string, version: string, viewName: string, resolved: Resolved)

  type Cache = map<string, CacheEntry>

  /** The resolution steps after the cache check, for a known OS. */
  function ResolveFresh(ctx: Installers.Context, def: Definition, os: string, version: string, keys: seq<string>, default: Option<string>): (r: Result<Resolved, Error>)
    ensures r.Ok? ==> r.value.installerKey in ctx.installers
    ensures r.Ok? ==> GetRuleForPlatform(def, os, version, keys, default).Ok?
    ensures r.Ok? ==> Installers.Resolve(GetRuleForPlatform(def, os, version, keys, default).value.1) == Ok(r.value.resolution)
  {
    var rule :- GetRuleForPlatform(def, os, version, keys, default);
    var (installerKey, args) := rule;
    if installerKey.None? then Err(ResolutionError(def.key, UnsupportedInstaller(None)))
    else match Installers.GetInstaller(ctx, installerKey.value)
      case Err(_) => Err(ResolutionError(def.key, UnsupportedInstaller(installerKey)))
      case Ok(installer) =>
        match Installers.Resolve(args)
        case Err(_) => Err(InvalidRosdepData(def.key))
        case Ok(resolution) => Ok(Resolved(installerKey.value, resolution, Installers.GetDepends(installer, args)))
  }

  /** `RosdepLookup.resolve` as written. The installer keys are read first, which
      registers an unknown OS with no installers; the default-key lookup that follows
      therefore never raises, and the "Unsupported OS" error cannot occur. The
      `get_depends` call is the as-written one. Returns the result, the registry after
      the reads and the cache. */
  function ResolveAsWritten(ctx: Installers.Context, view: Option<View>, cache: Cache, key: string): (r: (Result<Resolved, Error>, Installers.Context, Cache))
    ensures r.0.Err? ==> r.0.error != ResolutionError(key, UnsupportedOs)
  {
    var (os, version) := Installers.GetOsNameAndVersion(ctx);
    if view.None? then (Err(ResolutionError(key, NoView)), ctx, cache)
    else if key !in view.value.defs then (Err(ResolutionError(key, NoDefinition)), ctx, cache)
    else if key in cache && cache[key].os == os && cache[key].version == version && cache[key].viewName == view.value.name then
      (Ok(cache[key].resolved), ctx, cache)
    else
      var def := view.value.defs[key];
      var (keys, ctx') := Installers.GetOsInstallerKeys(ctx, os);
      match Installers.GetDefaultOsInstallerKey(ctx', os)
      case Err(_) => (Err(ResolutionError(key, UnsupportedOs)), ctx', cache)
      case Ok(default) =>
        match GetRuleForPlatform(def, os, version, keys, default)
        case Err(e) => (Err(e), ctx', cache)
        case Ok((installerKey, args)) =>
          if installerKey.None? || installerKey.value !in ctx'.installers then
            (Err(ResolutionError(key, UnsupportedInstaller(installerKey))), ctx', cache)
          else
            var installer := ctx'.installers[installerKey.value];
            match Installers.Resolve(args)
            case Err(_) => (Err(InvalidRosdepData(key)), ctx', cache)
            case Ok(resolution) =>
              match Installers.GetDependsAsWritten(installer, args)
              case Err(_) => (Err(NameError("rosdep_args_dict")), ctx', cache)
              case Ok(deps) =>
                var resolved := Resolved(installerKey.value, resolution, deps);
                (Ok(resolved), ctx', cache[key := CacheEntry(os, version, view.value.name, resolved)])
  }

  /** The input that shows it: an OS with no registered installers and a rule for that OS
      is reported as an unsupported installer `None`, not as an unsupported OS. */
  lemma UnsupportedOsMisreported(detect: Installers.OsDetect, rule: Value)
    requires rule.Str?
    ensures var ctx := Installers.Empty(detect);
            var view := View("v", map["k" := Definition("k", Dict(map[detect.name := rule]), None)]);
            ResolveAsWritten(ctx, Some(view), map[], "k").0 == Err(ResolutionError("k", UnsupportedInstaller(None)))
  {
    var ctx := Installers.Empty(detect);
    assert Installers.GetOsNameAndVersion(ctx) == (detect.name, detect.version);
  }

  /** The intended resolution: an OS without registered installers is reported as
      unsupported and the registry is left unchanged; a cache entry is used only when
      OS name, OS version and view name all match. Returns the result and the cache. */
  function Resolve(ctx: Installers.Context, view: Option<View>, cache: Cache, key: string): (r: (Result<Resolved, Error>, Cache))
    ensures var (os, version) := Installers.GetOsNameAndVersion(ctx);
            view.Some? && key in view.value.defs && os !in ctx.osInstallers
            && !(key in cache && cache[key].os == os && cache[key].version == version && cache[key].viewName == view.value.name)
            ==> r.0 == Err(ResolutionError(key, UnsupportedOs))
    ensures r.0.Ok? ==> key in r.1 && r.1[key].resolved == r.0.value
    ensures forall k :: k in cache && k != key ==> k in r.1 && r.1[k] == cache[k]
  {
    var (os, version) := Installers.GetOsNameAndVersion(ctx);
    if view.None? then (Err(ResolutionError(key, NoView)), cache)
    else if key !in view.value.defs then (Err(ResolutionError(key, NoDefinition)), cache)
    else if key in cache && cache[key].os == os && cache[key].version == version && cache[key].viewName == view.value.name then
      (Ok(cache[key].resolved), cache)
    else if os !in ctx.osInstallers then (Err(ResolutionError(key, UnsupportedOs)), cache)
    else
      var default := Installers.GetDefaultOsInstallerKey(ctx, os).value;
      match ResolveFresh(ctx, view.value.defs[key], os, version, ctx.osInstallers[os], default)
      case Err(e) => (Err(e), cache)
      case Ok(resolved) => (Ok(resolved), cache[key := CacheEntry(os, version, view.value.name, resolved)])
  }

  /** The uncached answer for `key` in `view` under `ctx`. */
  function Uncached(ctx: Installers.Context, view: View, key: string): Result<Resolved, Error> {
    var (os, version) := Installers.GetOsNameAndVersion(ctx);
    if key !in view.defs then Err(ResolutionError(key, NoDefinition))
    else if os !in ctx.osInstallers then Err(ResolutionError(key, UnsupportedOs))
    else ResolveFresh(ctx, view.defs[key], os, version, ctx.osInstallers[os], Installers.GetDefaultOsInstallerKey(ctx, os).value)
  }

  /** Every cache entry for the current OS name and version holds the uncached answer
      in the view it names. */
  ghost predicate CacheSound(ctx: Installers.Context, views: map<string, View>, cache: Cache) {
    var (os, version) := Installers.GetOsNameAndVersion(ctx);
    forall k :: k in cache && cache[k].os == os && cache[k].version == version ==>
      cache[k].viewName in views && views[cache[k].viewName].name == cache[k].viewName &&
      (k in views[cache[k].viewName].defs ==> Uncached(ctx, views[cache[k].viewName], k) == Ok(cache[k].resolved))
  }

  /** The cache is invisible: with a sound cache and views fixed by name, resolving gives
      the uncached answer and leaves the cache sound. */
  lemma ResolveCacheTransparent(ctx: Installers.Context, views: map<string, View>, cache: Cache, view: View, key: string)
    requires CacheSound(ctx, views, cache)
    requires view.name in views && views[view.name] == view
    ensures Resolve(ctx, Some(view), cache, key).0 == Uncached(ctx, view, key)
    ensures CacheSound(ctx, views, Resolve(ctx, Some(view), cache, key).1)
  {
  }
}
