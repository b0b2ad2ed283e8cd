/** src/rosdep2/rospkg_loader.py: the loader over the ROS package/stack filesystem
    (views, view keys, a package's rosdep keys) and the version checker that inspects
    the version tags of a catkin package's dependencies. The filesystem crawl of
    `rospkg` is given as parameters: the package names, the stack names, each
    package's catkin dependencies and the legacy manifest lookup. */
module RospkgLoader {
  import opened Base
  import opened Strings
  import Seqs
  import RosdepModel

  /** The view seen by packages outside stacks; the root of all dependencies. */
  const DefaultViewKey := "*default*"

  // ---------------------------------------------------------------------------
  // distutils StrictVersion

  /** A parsed `StrictVersion`: `(major, minor, patch)` and an optional
      `('a' | 'b', number)` pre-release; `Unparsed` is `StrictVersion(None)`, which
      has no version attribute to compare. */
  datatype StrictVersion =
    | Parsed(major: nat, minor: nat, patch: nat, pre: Option<(char, nat)>)
    | Unparsed

  /** The exceptions the version checker can raise. */
  datatype Exc = ValueError(vstring: string) | AttributeError | TypeError

  /** Python `cmp` on integers. */
  function Cmp(a: int, b: int): int {
    if a < b then -1 else if a > b then 1 else 0
  }

  /** The position of the pre-release letter, or the length when there is none. */
  function PreStart(s: string): (p: nat)
    ensures p <= |s|
    ensures forall k :: 0 <= k < p ==> s[k] != 'a' && s[k] != 'b'
    ensures p < |s| ==> s[p] == 'a' || s[p] == 'b'
  {
    if |s| == 0 then 0
    else if s[0] == 'a' || s[0] == 'b' then 0
    else 1 + PreStart(s[1..])
  }

  /** `StrictVersion.parse`: `N.N` or `N.N.N`, optionally followed by `aN` or `bN`;
      a missing patch number is 0. */
  function ParseVersion(s: string): (r: Result<StrictVersion, Exc>)
    ensures r.Ok? ==> r.value.Parsed?
    ensures r.Err? ==> r.error == ValueError(s)
  {
    var p := PreStart(s);
    var main := Split(s[..p], '.');
    var pre := s[p..];
    if !(|main| == 2 || |main| == 3) then Err(ValueError(s))
    else if !(forall i :: 0 <= i < |main| ==> IsDigits(main[i])) then Err(ValueError(s))
    else if |pre| > 0 && !IsDigits(pre[1..]) then Err(ValueError(s))
    else
      var patch := if |main| == 3 then DigitsValue(main[2]) else 0;
      var release := if |pre| > 0 then Some((pre[0], DigitsValue(pre[1..]))) else None;
      Ok(Parsed(DigitsValue(main[0]), DigitsValue(main[1]), patch, release))
  }

  /** `StrictVersion(v)`: `None` gives an object that cannot be compared. */
  function MakeVersion(v: Option<string>): (r: Result<StrictVersion, Exc>)
    ensures v.None? ==> r == Ok(Unparsed)
  {
    match v
    case None => Ok(Unparsed)
    case Some(s) => ParseVersion(s)
  }

  /** `StrictVersion.__cmp__`: the numbers first; on a tie a release sorts after any of
      its pre-releases, and pre-releases compare by letter, then number. */
  function Compare(a: StrictVersion, b: StrictVersion): (r: Result<int, Exc>)
    ensures r.Ok? <==> a.Parsed? && b.Parsed?
    ensures r.Ok? ==> -1 <= r.value <= 1
  {
    if a.Unparsed? || b.Unparsed? then Err(AttributeError)
    else
      var c := if a.major != b.major then Cmp(a.major, b.major)
               else if a.minor != b.minor then Cmp(a.minor, b.minor)
               else Cmp(a.patch, b.patch);
      if c != 0 then Ok(c)
      else match (a.pre, b.pre)
        case (None, None) => Ok(0)
        case (Some(_), None) => Ok(-1)
        case (None, Some(_)) => Ok(1)
        case (Some(x), Some(y)) => Ok(if x.0 != y.0 then Cmp(x.0 as int, y.0 as int) else Cmp(x.1, y.1))
  }

  /** The comparison is antisymmetric, and a version equals only itself. */
  lemma CompareAntisymmetric(a: StrictVersion, b: StrictVersion)
    requires a.Parsed? && b.Parsed?
    ensures Compare(a, b).value == -Compare(b, a).value
    ensures Compare(a, b).value == 0 <==> a == b
  {
  }

  /** A pre-release sorts before its release. */
  lemma PreReleaseFirst(major: nat, minor: nat, patch: nat, letter: char, n: nat)
    ensures Compare(Parsed(major, minor, patch, Some((letter, n))), Parsed(major, minor, patch, None)) == Ok(-1)
  {
  }

  /** `M.N.P` written with digit strings parses to its numbers. */
  lemma ParseThreeParts(a: string, b: string, c: string)
    requires IsDigits(a) && IsDigits(b) && IsDigits(c)
    ensures ParseVersion(a + "." + b + "." + c) == Ok(Parsed(DigitsValue(a), DigitsValue(b), DigitsValue(c), None))
  {
    var s := a + "." + b + "." + c;
    assert Join([a, b, c], '.') == s by {
      assert Join([b, c], '.') == b + "." + c;
    }
    forall k | 0 <= k < |s| ensures s[k] != 'a' && s[k] != 'b' {
      if k < |a| {
        assert s[k] == a[k];
      } else if |a| < k < |a| + 1 + |b| {
        assert s[k] == b[k - |a| - 1];
      } else if k > |a| + |b| + 1 {
        assert s[k] == c[k - |a| - |b| - 2];
      }
    }
    assert FreeOf(a, {'.'}) && FreeOf(b, {'.'}) && FreeOf(c, {'.'});
    SplitJoin([a, b, c], '.');
    ParseOfParts(s, [a, b, c]);
  }

  /** A missing patch number reads as 0: `M.N` and `M.N.0` are the same version. */
  lemma ParseTwoParts(a: string, b: string)
    requires IsDigits(a) && IsDigits(b)
    ensures ParseVersion(a + "." + b) == Ok(Parsed(DigitsValue(a), DigitsValue(b), 0, None))
  {
    var s := a + "." + b;
    assert Join([a, b], '.') == s;
    forall k | 0 <= k < |s| ensures s[k] != 'a' && s[k] != 'b' {
      if k < |a| {
        assert s[k] == a[k];
      } else if k > |a| {
        assert s[k] == b[k - |a| - 1];
      }
    }
    assert FreeOf(a, {'.'}) && FreeOf(b, {'.'});
    SplitJoin([a, b], '.');
    ParseOfParts(s, [a, b]);
  }

  /** A version without a pre-release letter whose dot-separated fields are two or
      three digit strings parses to their numbers. */
  lemma ParseOfParts(s: string, parts: seq<string>)
    requires forall k :: 0 <= k < |s| ==> s[k] != 'a' && s[k] != 'b'
    requires Split(s, '.') == parts && (|parts| == 2 || |parts| == 3)
    requires IsDigits(parts[0]) && IsDigits(parts[1]) && (|parts| == 3 ==> IsDigits(parts[2]))
    ensures ParseVersion(s) == Ok(Parsed(DigitsValue(parts[0]), DigitsValue(parts[1]),
                                         if |parts| == 3 then DigitsValue(parts[2]) else 0, None))
  {
    assert PreStart(s) == |s|;
    assert s[..|s|] == s;
  }

  // ---------------------------------------------------------------------------
  // VersionChecker

  /** The version attributes of a catkin dependency. */
  datatype Tag = VersionEq | VersionGt | VersionGte | VersionLt | VersionLte

  /** The checker's `version_tags`, in their order. */
  const VersionTags: seq<Tag> := [VersionEq, VersionGt, VersionGte, VersionLt, VersionLte]

  /** A dependency: its name and the version attributes that are not `None`. */
  datatype Dep = Dep(name: string, versions: map<Tag, string>) {
    function Get(tag: Tag): Option<string> {
      if tag in versions then Some(versions[tag]) else None
    }
  }

  /** The tags of `ts` that `d` sets, in order. */
  function SetTags(ts: seq<Tag>, d: Dep): (r: seq<Tag>)
    ensures forall t :: t in r <==> t in ts && t in d.versions
  {
    if |ts| == 0 then []
    else (if ts[0] in d.versions then [ts[0]] else []) + SetTags(ts[1..], d)
  }

  /** The tags of `VersionTags` that `d` sets (`getattr(dep, tag) != None`), in that order. */
  function ValidTags(d: Dep): (r: seq<Tag>)
    ensures forall t :: t in r <==> t in d.versions
  {
    assert forall t: Tag :: t in VersionTags by {
      forall t: Tag ensures t in VersionTags {
        assert t.VersionEq? || t.VersionGt? || t.VersionGte? || t.VersionLt? || t.VersionLte?;
      }
    }
    SetTags(VersionTags, d)
  }

  predicate LowerBound(t: Tag) {
    t == VersionGt || t == VersionGte
  }

  predicate UpperBound(t: Tag) {
    t == VersionLt || t == VersionLte
  }

  /** `is_version_matching`: whether two version requirements can both hold. Both
      versions are parsed first. `None` is the fall-through of the source, where an
      upper bound meets another kind of upper bound or an equality meets a bound. */
  function IsVersionMatching(tag1: Tag, tag2: Tag, v1: Option<string>, v2: Option<string>): (r: Result<Option<bool>, Exc>)
    ensures r.Ok? ==> MakeVersion(v1).Ok? && MakeVersion(v2).Ok?
    ensures MakeVersion(v1).Ok? && MakeVersion(v2).Ok? && tag1 == tag2 && tag1 != VersionEq ==> r == Ok(Some(true))
    ensures MakeVersion(v1).Ok? && MakeVersion(v2).Ok? && LowerBound(tag1) && UpperBound(tag2) ==> r == Ok(Some(false))
    ensures MakeVersion(v1).Ok? && MakeVersion(v2).Ok? && UpperBound(tag1) && LowerBound(tag2) ==> r == Ok(Some(false))
    ensures r.Ok? && LowerBound(tag1) && tag2 == VersionEq ==>
              var c := Compare(MakeVersion(v1).value, MakeVersion(v2).value);
              c.Ok? && r.value == Some(c.value < 0)
    ensures r.Ok? && UpperBound(tag1) && tag2 == VersionEq ==>
              var c := Compare(MakeVersion(v1).value, MakeVersion(v2).value);
              c.Ok? && r.value == Some(c.value > 0)
    ensures r.Ok? && tag1 == VersionEq && tag2 == VersionEq ==> (r.value == Some(true) <==> MakeVersion(v1).value == MakeVersion(v2).value)
    ensures r.Ok? ==> (r.value.None? <==> (tag1 == VersionEq && tag2 != VersionEq) ||
                                          (tag1 == VersionLt && tag2 == VersionLte) || (tag1 == VersionLte && tag2 == VersionLt))
  {
    var a :- MakeVersion(v1);
    var b :- MakeVersion(v2);
    if tag1 == tag2 then
      if tag2 == VersionEq then
        var c :- Compare(a, b);
        CompareAntisymmetric(a, b);
        Ok(Some(c == 0))
      else Ok(Some(true))
    else if tag1 == VersionGt || tag1 == VersionGte then
      if tag2 == VersionLte || tag2 == VersionLt then Ok(Some(false))
      else if tag2 == VersionEq then
        var c :- Compare(a, b);
        Ok(Some(c < 0))
      else Ok(Some(true))
    else if tag1 == VersionLt || tag1 == VersionLte then
      if tag2 == VersionGte || tag2 == VersionGt then Ok(Some(false))
      else if tag2 == VersionEq then
        var c :- Compare(a, b);
        Ok(Some(c > 0))
      else Ok(None)
    else Ok(None)
  }

  /** What `is_version_consistent` returns: bare `True`, or the first clashing pair of
      requirements. */
  datatype Consistency =
    | Consistent
    | Inconsistent(tag1: Tag, v1: Option<string>, tag2: Tag, v2: Option<string>)

  /** Every pair of a tag of the first list with a tag of the second, in loop order. */
  function TagPairs(ts1: seq<Tag>, ts2: seq<Tag>): (r: seq<(Tag, Tag)>)
    ensures forall p :: p in r <==> p.0 in ts1 && p.1 in ts2
  {
    if |ts1| == 0 then []
    else
      var row := seq(|ts2|, j requires 0 <= j < |ts2| => (ts1[0], ts2[j]));
      assert forall p :: p in row <==> p.0 == ts1[0] && p.1 in ts2 by {
        forall p: (Tag, Tag) | p.0 == ts1[0] && p.1 in ts2 ensures p in row {
          var j :| 0 <= j < |ts2| && ts2[j] == p.1;
          assert row[j] == p;
        }
      }
      row + TagPairs(ts1[1..], ts2)
  }

  /** The check of two requirements raises nothing and is not exactly `False`. */
  predicate PairAgrees(t1: Tag, t2: Tag, d1: Dep, d2: Dep) {
    var m := IsVersionMatching(t1, t2, d1.Get(t1), d2.Get(t2));
    m.Ok? && m.value != Some(false)
  }

  lemma TagPairsSingle(a: Tag, b: Tag)
    ensures TagPairs([a], [b]) == [(a, b)]
  {
    assert [a][1..] == [];
    assert TagPairs([], [b]) == [];
    assert seq(1, j requires 0 <= j < 1 => (a, [b][j])) == [(a, b)];
  }

  /** The nested loops: the first pair whose check is exactly `False` is reported;
      `None` (the fall-through) does not count as `False`. */
  function ScanPairs(pairs: seq<(Tag, Tag)>, d1: Dep, d2: Dep): (r: Result<Consistency, Exc>)
    ensures r == Ok(Consistent) <==> forall i :: 0 <= i < |pairs| ==> PairAgrees(pairs[i].0, pairs[i].1, d1, d2)
    ensures r.Ok? && r.value.Inconsistent? ==>
              IsVersionMatching(r.value.tag1, r.value.tag2, r.value.v1, r.value.v2) == Ok(Some(false))
              && r.value.v1 == d1.Get(r.value.tag1) && r.value.v2 == d2.Get(r.value.tag2)
  {
    if |pairs| == 0 then Ok(Consistent)
    else
      assert forall i :: 1 <= i < |pairs| ==> pairs[i] == pairs[1..][i - 1];
      var t1, t2 := pairs[0].0, pairs[0].1;
      var m :- IsVersionMatching(t1, t2, d1.Get(t1), d2.Get(t2));
      if m == Some(false) then Ok(Inconsistent(t1, d1.Get(t1), t2, d2.Get(t2)))
      else ScanPairs(pairs[1..], d1, d2)
  }

  /** `is_version_consistent` as written: the second tag list is collected from the
      first dependency (line 96 reads `dep1`), so the second dependency is looked up
      under the first one's tags. */
  function IsVersionConsistent(d1: Dep, d2: Dep): (r: Result<Consistency, Exc>)
    ensures d1.versions == map[] ==> r == Ok(Consistent)
  {
    var tags1 := ValidTags(d1);
    var tags2 := ValidTags(d1);
    if |tags1| > 0 && |tags2| > 0 then ScanPairs(TagPairs(tags1, tags2), d1, d2)
    else Ok(Consistent)
  }

  /** `is_version_consistent` with each dependency's own tags. */
  function IsVersionConsistentFixed(d1: Dep, d2: Dep): (r: Result<Consistency, Exc>)
    ensures r == Ok(Consistent) <==>
              forall t1, t2 :: t1 in d1.versions && t2 in d2.versions ==> PairAgrees(t1, t2, d1, d2)
    ensures r.Err? ==> r.error.ValueError?
  {
    var tags1 := ValidTags(d1);
    var tags2 := ValidTags(d2);
    if |tags1| > 0 && |tags2| > 0 then
      var pairs := TagPairs(tags1, tags2);
      AllPairsScanned(d1, d2);
      ScanFixedErrors(pairs, d1, d2);
      ScanPairs(pairs, d1, d2)
    else
      assert d1.versions.Keys == {} || d2.versions.Keys == {};
      Ok(Consistent)
  }

  /** Scanning the pairs of both tag lists checks every pair of set tags. */
  lemma AllPairsScanned(d1: Dep, d2: Dep)
    ensures var pairs := TagPairs(ValidTags(d1), ValidTags(d2));
            ScanPairs(pairs, d1, d2) == Ok(Consistent) <==>
              forall t1, t2 :: t1 in d1.versions && t2 in d2.versions ==> PairAgrees(t1, t2, d1, d2)
  {
    var pairs := TagPairs(ValidTags(d1), ValidTags(d2));
    if ScanPairs(pairs, d1, d2) == Ok(Consistent) {
      forall t1, t2 | t1 in d1.versions && t2 in d2.versions ensures PairAgrees(t1, t2, d1, d2) {
        assert (t1, t2) in pairs;
        var i := Seqs.IndexOf(pairs, (t1, t2));
      }
    }
  }

  /** With each dependency's own tags, no version is `None`, so only an unparsable
      version can raise. */
  lemma {:induction false} ScanFixedErrors(pairs: seq<(Tag, Tag)>, d1: Dep, d2: Dep)
    requires forall i :: 0 <= i < |pairs| ==> pairs[i].0 in d1.versions && pairs[i].1 in d2.versions
    ensures ScanPairs(pairs, d1, d2).Err? ==> ScanPairs(pairs, d1, d2).error.ValueError?
  {
    if |pairs| > 0 {
      assert forall i :: 1 <= i < |pairs| ==> pairs[i] == pairs[1..][i - 1];
      ScanFixedErrors(pairs[1..], d1, d2);
    }
  }

  /** `dep_version_uniqueness_check` with `ignore_version`: a dependency with more
      than one version requirement has all of them cleared. */
  function UniquenessCheck(deps: seq<Dep>): (r: seq<Dep>)
    ensures |r| == |deps|
    ensures forall i :: 0 <= i < |deps| ==> r[i].name == deps[i].name
    ensures forall i :: 0 <= i < |deps| ==> |r[i].versions.Keys| <= 1
    ensures forall i :: 0 <= i < |deps| ==> r[i].versions == map[] || r[i] == deps[i]
  {
    seq(|deps|, i requires 0 <= i < |deps| =>
      if |deps[i].versions.Keys| > 1 then Dep(deps[i].name, map[]) else deps[i])
  }

  /** A second pass changes nothing. */
  lemma UniquenessIdempotent(deps: seq<Dep>)
    ensures UniquenessCheck(UniquenessCheck(deps)) == UniquenessCheck(deps)
  {
  }

  /** A dependency with at most one requirement keeps it. */
  lemma UniquenessKeepsSingle(deps: seq<Dep>, i: nat)
    requires i < |deps| && |deps[i].versions.Keys| <= 1
    ensures UniquenessCheck(deps)[i] == deps[i]
  {
  }

  /** The first pair `i < j` of dependencies with the same name, in loop order. */
  function FirstDuplicate(deps: seq<Dep>): (r: Option<(nat, nat)>)
    ensures r.None? <==> forall i, j :: 0 <= i < j < |deps| ==> deps[i].name != deps[j].name
    ensures r.Some? ==> r.value.0 < r.value.1 < |deps| && deps[r.value.0].name == deps[r.value.1].name
    ensures r.Some? ==> forall j :: r.value.0 < j < r.value.1 ==> deps[j].name != deps[r.value.0].name
    ensures r.Some? ==> forall i, j :: 0 <= i < r.value.0 && i < j < |deps| ==> deps[i].name != deps[j].name
  {
    FirstDuplicateFrom(deps, 0)
  }

  /** The first same-name pair whose first member is at `from` or later. */
  function FirstDuplicateFrom(deps: seq<Dep>, from: nat): (r: Option<(nat, nat)>)
    requires from <= |deps|
    ensures r.None? <==> forall i, j :: from <= i < j < |deps| ==> deps[i].name != deps[j].name
    ensures r.Some? ==> from <= r.value.0 < r.value.1 < |deps| && deps[r.value.0].name == deps[r.value.1].name
    ensures r.Some? ==> forall j :: r.value.0 < j < r.value.1 ==> deps[j].name != deps[r.value.0].name
    ensures r.Some? ==> forall i, j :: from <= i < r.value.0 && i < j < |deps| ==> deps[i].name != deps[j].name
    decreases |deps| - from
  {
    if from == |deps| then None
    else
      match FirstNamed(deps, from, from + 1)
      case Some(k) => Some((from, k))
      case None => FirstDuplicateFrom(deps, from + 1)
  }

  /** The first dependency at `from` or later named like the one at `i`. */
  function FirstNamed(deps: seq<Dep>, i: nat, from: nat): (r: Option<nat>)
    requires i < |deps| && from <= |deps|
    ensures r.None? <==> forall j :: from <= j < |deps| ==> deps[j].name != deps[i].name
    ensures r.Some? ==> from <= r.value < |deps| && deps[r.value].name == deps[i].name
    ensures r.Some? ==> forall j :: from <= j < r.value ==> deps[j].name != deps[i].name
    decreases |deps| - from
  {
    if from == |deps| then None
    else if deps[from].name == deps[i].name then Some(from)
    else FirstNamed(deps, i, from + 1)
  }

  /** `dep_version_faulty_redundancy` as written: the first same-name pair decides.
      When it is consistent, `is_version_consistent` returns a bare `True`, and
      unpacking it into two names raises `TypeError`; when it clashes, the loop
      reports it and stops. */
  function FaultyRedundancy(deps: seq<Dep>): (r: Result<(), Exc>)
    ensures (forall i, j :: 0 <= i < j < |deps| ==> deps[i].name != deps[j].name) ==> r == Ok(())
    ensures FirstDuplicate(deps).Some? ==>
              var c := IsVersionConsistent(deps[FirstDuplicate(deps).value.0], deps[FirstDuplicate(deps).value.1]);
              (c == Ok(Consistent) ==> r == Err(TypeError)) &&
              (c.Ok? && c.value.Inconsistent? ==> r == Ok(())) &&
              (c.Err? ==> r == Err(c.error))
  {
    match FirstDuplicate(deps)
    case None => Ok(())
    case Some((i, j)) =>
      var c :- IsVersionConsistent(deps[i], deps[j]);
      if c.Consistent? then Err(TypeError) else Ok(())
  }

  /** The pairs `(i, k)` with `j <= k` whose names agree, in loop order. */
  function RowPairs(deps: seq<Dep>, i: nat, j: nat): (r: seq<(nat, nat)>)
    requires i < |deps| && j <= |deps|
    ensures forall p :: p in r <==> p.0 == i && j <= p.1 < |deps| && deps[i].name == deps[p.1].name
    decreases |deps| - j
  {
    if j == |deps| then []
    else (if deps[i].name == deps[j].name then [(i, j)] else []) + RowPairs(deps, i, j + 1)
  }

  /** Every same-name pair `i < j` with `i` from `from` on, in loop order. */
  function PairsFrom(deps: seq<Dep>, from: nat): (r: seq<(nat, nat)>)
    ensures forall p :: p in r <==> from <= p.0 < p.1 < |deps| && deps[p.0].name == deps[p.1].name
    decreases |deps| - from
  {
    if from >= |deps| then []
    else RowPairs(deps, from, from + 1) + PairsFrom(deps, from + 1)
  }

  /** Every same-name pair `i < j`, in loop order. */
  function DuplicatePairs(deps: seq<Dep>): (r: seq<(nat, nat)>)
    ensures forall p :: p in r <==> p.0 < p.1 < |deps| && deps[p.0].name == deps[p.1].name
  {
    PairsFrom(deps, 0)
  }

  /** `dep_version_faulty_redundancy` as evidently intended: every same-name pair is
      compared, and the first clash is reported; a consistent pair moves on. */
  function FaultyRedundancyFixed(deps: seq<Dep>): (r: Result<Option<(string, Consistency)>, Exc>)
    ensures r == Ok(None) <==>
              forall i, j :: 0 <= i < j < |deps| && deps[i].name == deps[j].name ==>
                IsVersionConsistentFixed(deps[i], deps[j]) == Ok(Consistent)
    ensures r.Err? ==> r.error.ValueError?
  {
    PairsInRange(deps);
    DuplicatePairsCovered(deps);
    ScanDuplicates(DuplicatePairs(deps), deps)
  }

  /** The listed pairs index the dependencies. */
  lemma PairsInRange(deps: seq<Dep>)
    ensures forall k :: 0 <= k < |DuplicatePairs(deps)| ==> DuplicatePairs(deps)[k].0 < DuplicatePairs(deps)[k].1 < |deps|
  {
    var pairs := DuplicatePairs(deps);
    forall k | 0 <= k < |pairs| ensures pairs[k].0 < pairs[k].1 < |deps| {
      assert pairs[k] in pairs;
    }
  }

  /** Scanning the listed pairs checks every same-name pair. */
  lemma DuplicatePairsCovered(deps: seq<Dep>)
    ensures ScanDuplicates(DuplicatePairs(deps), deps) == Ok(None) <==>
              forall i, j :: 0 <= i < j < |deps| && deps[i].name == deps[j].name ==>
                IsVersionConsistentFixed(deps[i], deps[j]) == Ok(Consistent)
  {
    var pairs := DuplicatePairs(deps);
    if ScanDuplicates(pairs, deps) == Ok(None) {
      forall i, j | 0 <= i < j < |deps| && deps[i].name == deps[j].name
        ensures IsVersionConsistentFixed(deps[i], deps[j]) == Ok(Consistent)
      {
        PairScanned(deps, pairs, i, j);
      }
    } else {
      ScanFindsPair(deps, pairs);
    }
  }

  /** A scan that reports something has met a listed pair, which is a same-name
      pair, that is not consistent. */
  lemma ScanFindsPair(deps: seq<Dep>, pairs: seq<(nat, nat)>)
    requires pairs == DuplicatePairs(deps) && ScanDuplicates(pairs, deps) != Ok(None)
    ensures exists i, j :: 0 <= i < j < |deps| && deps[i].name == deps[j].name &&
              IsVersionConsistentFixed(deps[i], deps[j]) != Ok(Consistent)
  {
    var k :| 0 <= k < |pairs| && IsVersionConsistentFixed(deps[pairs[k].0], deps[pairs[k].1]) != Ok(Consistent);
    assert pairs[k] in pairs;
    var i, j := pairs[k].0, pairs[k].1;
    assert 0 <= i < j < |deps| && deps[i].name == deps[j].name;
  }

  /** A scan that finds nothing has found every listed pair consistent. */
  lemma PairScanned(deps: seq<Dep>, pairs: seq<(nat, nat)>, i: nat, j: nat)
    requires pairs == DuplicatePairs(deps) && ScanDuplicates(pairs, deps) == Ok(None)
    requires i < j < |deps| && deps[i].name == deps[j].name
    ensures IsVersionConsistentFixed(deps[i], deps[j]) == Ok(Consistent)
  {
    assert (i, j) in pairs;
    var k := Seqs.IndexOf(pairs, (i, j));
  }

  function ScanDuplicates(pairs: seq<(nat, nat)>, deps: seq<Dep>): (r: Result<Option<(string, Consistency)>, Exc>)
    requires forall k :: 0 <= k < |pairs| ==> pairs[k].0 < |deps| && pairs[k].1 < |deps|
    ensures r == Ok(None) <==>
              forall k :: 0 <= k < |pairs| ==> IsVersionConsistentFixed(deps[pairs[k].0], deps[pairs[k].1]) == Ok(Consistent)
    ensures r.Ok? && r.value.Some? ==> r.value.value.1.Inconsistent?
    ensures r.Err? ==> r.error.ValueError?
  {
    if |pairs| == 0 then Ok(None)
    else
      assert forall k :: 1 <= k < |pairs| ==> pairs[k] == pairs[1..][k - 1];
      var c :- IsVersionConsistentFixed(deps[pairs[0].0], deps[pairs[0].1]);
      if c.Inconsistent? then Ok(Some((deps[pairs[0].0].name, c)))
      else ScanDuplicates(pairs[1..], deps)
  }

  /** A dependency listed twice without version requirements (say as a build and as a
      run dependency) makes the check as written raise `TypeError`. */
  lemma RepeatedDependencyRaises()
    ensures FaultyRedundancy([Dep("foo", map[]), Dep("foo", map[])]) == Err(TypeError)
    ensures FaultyRedundancyFixed([Dep("foo", map[]), Dep("foo", map[])]) == Ok(None)
  {
    var deps := [Dep("foo", map[]), Dep("foo", map[])];
    assert FirstDuplicate(deps) == Some((0, 1));
    assert ValidTags(Dep("foo", map[])) == [];
  }

  lemma DigitValue(c: char)
    requires '0' <= c <= '9'
    ensures IsDigits([c]) && DigitsValue([c]) == c as int - '0' as int
  {
    assert [c][..0] == [];
  }

  /** The two version strings of the example below parse. */
  lemma ExampleVersions()
    ensures ParseVersion("1.0") == Ok(Parsed(1, 0, 0, None))
    ensures ParseVersion("0.5") == Ok(Parsed(0, 5, 0, None))
  {
    DigitValue('1');
    DigitValue('0');
    DigitValue('5');
    assert ['1'] + "." + ['0'] == "1.0";
    assert ['0'] + "." + ['5'] == "0.5";
    ParseTwoParts(['1'], ['0']);
    ParseTwoParts(['0'], ['5']);
  }

  /** Scanning one pair of requirements. */
  lemma ScanSingle(a: Tag, b: Tag, d1: Dep, d2: Dep)
    requires IsVersionMatching(a, b, d1.Get(a), d2.Get(b)).Ok?
    ensures ScanPairs([(a, b)], d1, d2) ==
              if IsVersionMatching(a, b, d1.Get(a), d2.Get(b)).value == Some(false)
              then Ok(Inconsistent(a, d1.Get(a), b, d2.Get(b))) else Ok(Consistent)
  {
    assert [(a, b)][1..] == [];
  }

  /** A dependency with a single requirement lists just that tag. */
  lemma {:induction false} SetTagsOnly(ts: seq<Tag>, d: Dep, t: Tag)
    requires d.versions.Keys == {t}
    requires t in ts && forall i, j :: 0 <= i < j < |ts| ==> ts[i] != ts[j]
    ensures SetTags(ts, d) == [t]
  {
    assert forall j :: 1 <= j < |ts| ==> ts[j] == ts[1..][j - 1];
    if ts[0] == t {
      assert t !in ts[1..];
      var rest := SetTags(ts[1..], d);
      if rest != [] {
        Seqs.HeadIn(rest);
      }
    } else {
      SetTagsOnly(ts[1..], d, t);
    }
  }

  lemma ExampleTags()
    ensures ValidTags(Dep("foo", map[VersionGte := "1.0"])) == [VersionGte]
    ensures ValidTags(Dep("foo", map[VersionLt := "0.5"])) == [VersionLt]
  {
    var d1 := Dep("foo", map[VersionGte := "1.0"]);
    var d2 := Dep("foo", map[VersionLt := "0.5"]);
    assert d1.versions.Keys == {VersionGte};
    assert d2.versions.Keys == {VersionLt};
    ValidTagsSingle(d1, VersionGte);
    ValidTagsSingle(d2, VersionLt);
  }

  /** A dependency with one version attribute has just that tag. */
  lemma ValidTagsSingle(d: Dep, t: Tag)
    requires d.versions.Keys == {t}
    ensures ValidTags(d) == [t]
  {
    assert t in VersionTags by {
      assert t.VersionEq? || t.VersionGt? || t.VersionGte? || t.VersionLt? || t.VersionLte?;
    }
    VersionTagsDistinct();
    SetTagsOnly(VersionTags, d, t);
  }

  lemma VersionTagsDistinct()
    ensures forall i, j :: 0 <= i < j < |VersionTags| ==> VersionTags[i] != VersionTags[j]
  {
  }

  lemma ExampleMatching()
    ensures IsVersionMatching(VersionGte, VersionGte, Some("1.0"), None) == Ok(Some(true))
    ensures IsVersionMatching(VersionGte, VersionLt, Some("1.0"), Some("0.5")) == Ok(Some(false))
  {
    ExampleVersions();
  }

  /** A lower bound on one line and a lower upper bound on the other clash, but the
      check as written looks the second one up under the first one's tag, finds no
      version there and calls the pair consistent. */
  lemma SecondTagsIgnored()
    ensures IsVersionConsistent(Dep("foo", map[VersionGte := "1.0"]), Dep("foo", map[VersionLt := "0.5"])) == Ok(Consistent)
  {
    var d1 := Dep("foo", map[VersionGte := "1.0"]);
    var d2 := Dep("foo", map[VersionLt := "0.5"]);
    ExampleTags();
    TagPairsSingle(VersionGte, VersionGte);
    ExampleMatching();
    assert d2.Get(VersionGte) == None && d1.Get(VersionGte) == Some("1.0");
    ScanSingle(VersionGte, VersionGte, d1, d2);
  }

  /** With each dependency's own tags the same pair is reported as clashing. */
  lemma SecondTagsChecked()
    ensures IsVersionConsistentFixed(Dep("foo", map[VersionGte := "1.0"]), Dep("foo", map[VersionLt := "0.5"]))
              == Ok(Inconsistent(VersionGte, Some("1.0"), VersionLt, Some("0.5")))
  {
    var d1 := Dep("foo", map[VersionGte := "1.0"]);
    var d2 := Dep("foo", map[VersionLt := "0.5"]);
    ExampleTags();
    TagPairsSingle(VersionGte, VersionLt);
    ExampleMatching();
    assert d2.Get(VersionLt) == Some("0.5") && d1.Get(VersionGte) == Some("1.0");
    ScanSingle(VersionGte, VersionLt, d1, d2);
  }

  /** `dependency_version_check` as written: requirements made unique, then the
      redundancy check as written. A repeated dependency that the check finds
      consistent, for instance one listed twice without a single version
      requirement, raises `TypeError`. A passing check hands back the dependencies
      with the uniqueness check's clearing applied. */
  function DependencyVersionCheck(deps: seq<Dep>): (r: Result<seq<Dep>, Exc>)
    ensures r.Ok? ==> r.value == UniquenessCheck(deps)
    ensures (forall i, j :: 0 <= i < j < |deps| ==> deps[i].name != deps[j].name) ==> r.Ok?
    ensures RepeatedUnversioned(deps) ==> r == Err(TypeError)
  {
    var unique := UniquenessCheck(deps);
    RepeatedUnversionedRaises(deps);
    var _ :- FaultyRedundancy(unique);
    Ok(unique)
  }

  /** Some name is listed twice, and no entry carries exactly one version
      requirement. */
  predicate RepeatedUnversioned(deps: seq<Dep>) {
    && (exists i, j :: 0 <= i < j < |deps| && deps[i].name == deps[j].name)
    && (forall i :: 0 <= i < |deps| ==> |deps[i].versions.Keys| != 1)
  }

  /** After the uniqueness check, a dependency list whose entries never carry
      exactly one requirement has no requirements left, so its first repeated
      name is consistent and the check as written raises `TypeError`. */
  lemma RepeatedUnversionedRaises(deps: seq<Dep>)
    ensures RepeatedUnversioned(deps) ==> FaultyRedundancy(UniquenessCheck(deps)) == Err(TypeError)
  {
    if !RepeatedUnversioned(deps) {
      return;
    }
    var unique := UniquenessCheck(deps);
    var i, j :| 0 <= i < j < |deps| && deps[i].name == deps[j].name;
    assert unique[i].name == unique[j].name;
    var d := FirstDuplicate(unique);
    assert d.Some?;
    var k := d.value.0;
    assert unique[k].versions == map[] by {
      if unique[k] == deps[k] {
        assert |deps[k].versions.Keys| == 0;
      }
    }
  }

  /** `dependency_version_check` with the corrected redundancy check: fails only when
      a same-name pair clashes or a version does not parse. */
  function DependencyVersionCheckFixed(deps: seq<Dep>): (r: Result<seq<Dep>, Exc>)
    ensures r.Ok? ==> r.value == UniquenessCheck(deps)
    ensures r.Err? ==> r.error.ValueError?
    ensures (forall i, j :: 0 <= i < j < |deps| ==> deps[i].name != deps[j].name) ==> r.Ok?
  {
    var unique := UniquenessCheck(deps);
    var report :- FaultyRedundancyFixed(unique);
    Ok(unique)
  }

  /** On a dependency listed twice without requirements the check as written raises
      and the corrected one passes. */
  lemma VersionCheckDiscrepancy()
    ensures DependencyVersionCheck([Dep("foo", map[]), Dep("foo", map[])]) == Err(TypeError)
    ensures DependencyVersionCheckFixed([Dep("foo", map[]), Dep("foo", map[])]) == Ok([Dep("foo", map[]), Dep("foo", map[])])
  {
    var deps := [Dep("foo", map[]), Dep("foo", map[])];
    assert deps[0].name == deps[1].name;
    assert UniquenessCheck(deps) == deps;
    RepeatedDependencyRaises();
  }

  // ---------------------------------------------------------------------------
  // RosPkgLoader

  /** `rospkg.ResourceNotFound`, or a version check failure. */
  datatype LoaderError = ResourceNotFound(msg: string) | VersionCheck(exc: Exc)

  /** `get_loadable_views`: the stack names and the default view. */
  function GetLoadableViews(stacks: seq<string>): (r: seq<string>)
    ensures forall v :: v in r <==> v in stacks || v == DefaultViewKey
  {
    stacks + [DefaultViewKey]
  }

  /** Python `str` of a list of strings. */
  function ListRepr(xs: seq<string>): string {
    "[" + JoinWith(seq(|xs|, i requires 0 <= i < |xs| => "'" + xs[i] + "'"), ", ") + "]"
  }

  /** `load_view`: a loaded view is left alone; an unknown view, or one named
      `invalid`, is not found; otherwise the view gets empty data depending on the
      underlay key when it is set. */
  function LoadView(db: RosdepModel.Database, view: string, stacks: seq<string>, underlay: Option<string>)
    : (r: Result<RosdepModel.Database, LoaderError>)
    ensures RosdepModel.IsLoaded(db, view) ==> r == Ok(db)
    ensures !RosdepModel.IsLoaded(db, view) ==> (r.Ok? <==> view in GetLoadableViews(stacks) && view != "invalid")
    ensures !RosdepModel.IsLoaded(db, view) && view !in GetLoadableViews(stacks) ==> r == Err(ResourceNotFound(view))
    ensures r.Ok? ==> RosdepModel.IsLoaded(r.value, view)
    ensures r.Ok? && !RosdepModel.IsLoaded(db, view) ==>
              RosdepModel.GetStackData(r.value, view) ==
                Ok(RosdepModel.Entry([], if underlay.Some? && underlay.value != "" then [underlay.value] else [], Some("<nodata>")))
    ensures r.Ok? ==> forall s :: s != view ==> RosdepModel.GetStackData(r.value, s) == RosdepModel.GetStackData(db, s)
  {
    if RosdepModel.IsLoaded(db, view) then Ok(db)
    else if view !in GetLoadableViews(stacks) then Err(ResourceNotFound(view))
    else if view == "invalid" then Err(ResourceNotFound("FOUND" + view + ListRepr(GetLoadableViews(stacks))))
    else
      var deps := if underlay.Some? && underlay.value != "" then [underlay.value] else [];
      Ok(RosdepModel.SetStackData(db, view, [], deps, Some("<nodata>")))
  }

  /** Loading a view twice is loading it once. */
  lemma LoadViewIdempotent(db: RosdepModel.Database, view: string, stacks: seq<string>, underlay: Option<string>)
    requires LoadView(db, view, stacks, underlay).Ok?
    ensures LoadView(LoadView(db, view, stacks, underlay).value, view, stacks, underlay) == LoadView(db, view, stacks, underlay)
  {
  }

  /** `get_view_key`: every package maps to the default view. */
  function GetViewKey(resource: string, packages: seq<string>): (r: Result<string, LoaderError>)
    ensures r.Ok? <==> resource in packages
    ensures r.Ok? ==> r.value in GetLoadableViews([])
    ensures r.Err? ==> r.error == ResourceNotFound(resource)
  {
    if resource in packages then Ok(DefaultViewKey) else Err(ResourceNotFound(resource))
  }

  /** `[d.name for d in deps]`. */
  function DepNames(deps: seq<Dep>): (r: seq<string>)
    ensures |r| == |deps| && forall i :: 0 <= i < |deps| ==> r[i] == deps[i].name
  {
    seq(|deps|, i requires 0 <= i < |deps| => deps[i].name)
  }

  /** `get_rosdeps`: a catkin package's dependency names (build, buildtool, run and
      test, in that order, after the version check as written), a legacy package's manifest
      rosdeps, nothing for a stack. `catkin` gives a package's dependency lists, `None`
      for a legacy package; `legacy` is `rospack.get_rosdeps(name, implicit)`. */
  function GetRosdeps(resource: string, implicit: bool, withVersion: bool,
                      packages: seq<string>, stacks: seq<string>,
                      catkin: string -> Option<seq<Dep>>, legacy: (string, bool) -> seq<string>)
    : (r: Result<(seq<string>, Option<seq<Dep>>), LoaderError>)
    ensures r.Err? <==> (resource !in packages && resource !in stacks) ||
                        (resource in packages && catkin(resource).Some? && DependencyVersionCheck(catkin(resource).value).Err?)
    ensures r.Ok? && resource in packages && catkin(resource).Some? ==>
              |r.value.0| == |catkin(resource).value| &&
              (forall i :: 0 <= i < |r.value.0| ==> r.value.0[i] == catkin(resource).value[i].name) &&
              (r.value.1.Some? <==> withVersion)
    ensures r.Err? && resource in packages ==> r.error == VersionCheck(DependencyVersionCheck(catkin(resource).value).error)
    ensures resource in packages && catkin(resource).Some? && RepeatedUnversioned(catkin(resource).value) ==>
              r == Err(VersionCheck(TypeError))
    ensures r.Ok? && resource in packages && catkin(resource).None? ==> r.value == (legacy(resource, implicit), None)
    ensures r.Ok? && resource !in packages ==> r.value == ([], None)
  {
    if resource in packages then
      if catkin(resource).None? then Ok((legacy(resource, implicit), None))
      else
        var checked := DependencyVersionCheck(catkin(resource).value);
        if checked.Err? then Err(VersionCheck(checked.error))
        else
          Ok((DepNames(checked.value), if withVersion then Some(checked.value) else None))
    else if resource in stacks then Ok(([], None))
    else Err(ResourceNotFound(resource))
  }
}
