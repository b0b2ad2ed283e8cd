/** Sequence helpers: duplicate removal that keeps first occurrences (the
    `if x not in out: out.append(x)` idiom) and Python's ordering of strings
    with the sorted, duplicate-free listing `sorted(set(xs))`. */
module Seqs {

  /** No element occurs twice. */
  predicate Distinct<T(==)>(xs: seq<T>) {
    forall i, j :: 0 <= i < j < |xs| ==> xs[i] != xs[j]
  }

  /** Two duplicate-free sequences with no common element concatenate to a duplicate-free one. */
  lemma DistinctConcat<T>(a: seq<T>, b: seq<T>)
    requires Distinct(a) && Distinct(b)
    requires forall x :: x in a ==> x !in b
    ensures Distinct(a + b)
  {
    var r := a + b;
    forall i, j | 0 <= i < j < |r| ensures r[i] != r[j] {
      if i < |a| && j >= |a| {
        assert r[i] in a && r[j] == b[j - |a|];
      }
    }
  }

  /** Python `xs.index(x)`: the first position of `x`. */
  function IndexOf<T(==)>(xs: seq<T>, x: T): (i: nat)
    requires x in xs
    ensures i < |xs| && xs[i] == x
    ensures forall k :: 0 <= k < i ==> xs[k] != x
  {
    if xs[0] == x then 0 else 1 + IndexOf(xs[1..], x)
  }

  /** Positions of first occurrences do not move when elements are appended. */
  lemma {:induction false} IndexOfPrefix<T>(xs: seq<T>, n: nat, x: T)
    requires n <= |xs|
    requires x in xs[..n]
    ensures x in xs && IndexOf(xs, x) == IndexOf(xs[..n], x)
  {
    var i := IndexOf(xs[..n], x);
    assert forall k :: 0 <= k < i ==> xs[k] == xs[..n][k];
    assert xs[i] == x;
  }

  /** The elements of `xs` in order of first occurrence, each once. */
  function Dedup<T(==,!new)>(xs: seq<T>): (r: seq<T>)
    ensures Distinct(r)
    ensures forall x :: x in r <==> x in xs
    decreases |xs|
  {
    if |xs| == 0 then []
    else
      var n := |xs| - 1;
      var d := Dedup(xs[..n]);
      assert xs == xs[..n] + [xs[n]];
      if xs[n] in d then d else d + [xs[n]]
  }

  /** `Dedup` lists elements in the order of their first occurrence in `xs`. */
  lemma {:induction false} DedupOrder<T(!new)>(xs: seq<T>)
    ensures forall i, j :: 0 <= i < j < |Dedup(xs)| ==> IndexOf(xs, Dedup(xs)[i]) < IndexOf(xs, Dedup(xs)[j])
    decreases |xs|
  {
    if |xs| > 0 {
      var n := |xs| - 1;
      var d := Dedup(xs[..n]);
      DedupOrder(xs[..n]);
      OrderInPrefix(xs, n, d);
      if xs[n] !in d {
        FirstAtEnd(xs, d);
        OrderAppend(xs, d, xs[n]);
      }
    }
  }

  /** What comes first in `xs` comes first in `Dedup(xs)`. */
  lemma DedupKeepsOrder<T(!new)>(xs: seq<T>, a: T, b: T)
    requires a in xs && b in xs && IndexOf(xs, a) < IndexOf(xs, b)
    ensures a in Dedup(xs) && b in Dedup(xs)
    ensures IndexOf(Dedup(xs), a) < IndexOf(Dedup(xs), b)
  {
    var d := Dedup(xs);
    DedupOrder(xs);
    var i, j := IndexOf(d, a), IndexOf(d, b);
    assert d[i] == a && d[j] == b;
  }

  /** The last element, when not among the elements of the rest, occurs first at the end. */
  lemma FirstAtEnd<T>(xs: seq<T>, d: seq<T>)
    requires |xs| > 0
    requires forall k :: 0 <= k < |xs| - 1 ==> xs[k] in d
    requires xs[|xs| - 1] !in d
    ensures IndexOf(xs, xs[|xs| - 1]) == |xs| - 1
  {
  }

  /** First positions in a prefix are first positions in the whole sequence. */
  lemma OrderInPrefix<T>(xs: seq<T>, n: nat, d: seq<T>)
    requires n <= |xs|
    requires forall i :: 0 <= i < |d| ==> d[i] in xs[..n]
    requires forall i, j :: 0 <= i < j < |d| ==> IndexOf(xs[..n], d[i]) < IndexOf(xs[..n], d[j])
    ensures forall i :: 0 <= i < |d| ==> d[i] in xs && IndexOf(xs, d[i]) < n
    ensures forall i, j :: 0 <= i < j < |d| ==> IndexOf(xs, d[i]) < IndexOf(xs, d[j])
  {
    forall i | 0 <= i < |d| ensures d[i] in xs && IndexOf(xs, d[i]) == IndexOf(xs[..n], d[i]) < n {
      IndexOfPrefix(xs, n, d[i]);
    }
  }

  /** Appending an element whose first position is after all others keeps the order. */
  lemma OrderAppend<T>(xs: seq<T>, d: seq<T>, x: T)
    requires x in xs && forall i :: 0 <= i < |d| ==> d[i] in xs && IndexOf(xs, d[i]) < IndexOf(xs, x)
    requires forall i, j :: 0 <= i < j < |d| ==> IndexOf(xs, d[i]) < IndexOf(xs, d[j])
    ensures forall i, j :: 0 <= i < j < |d + [x]| ==> IndexOf(xs, (d + [x])[i]) < IndexOf(xs, (d + [x])[j])
  {
    var r := d + [x];
    forall i, j | 0 <= i < j < |r| ensures IndexOf(xs, r[i]) < IndexOf(xs, r[j]) {
      assert r[i] == d[i];
      if j < |d| {
        assert r[j] == d[j];
      }
    }
  }

  /** A duplicate-free sequence is its own deduplication. */
  lemma {:induction false} DedupDistinct<T(!new)>(xs: seq<T>)
    requires Distinct(xs)
    ensures Dedup(xs) == xs
    decreases |xs|
  {
    if |xs| > 0 {
      var n := |xs| - 1;
      var init := xs[..n];
      assert Distinct(init) by {
        forall i, j | 0 <= i < j < n ensures init[i] != init[j] {
          assert init[i] == xs[i] && init[j] == xs[j];
        }
      }
      DedupDistinct(init);
      assert xs[n] !in init by {
        forall k | 0 <= k < n ensures init[k] != xs[n] {
          assert init[k] == xs[k];
        }
      }
      assert Dedup(xs) == init + [xs[n]];
      assert xs == init + [xs[n]];
    }
  }

  /** Python's `<` on strings: lexicographic by code point, a proper prefix first. */
  predicate Less(a: string, b: string)
    decreases |a|
  {
    if |a| == 0 then |b| > 0
    else if |b| == 0 then false
    else if a[0] != b[0] then a[0] < b[0]
    else Less(a[1..], b[1..])
  }

  lemma {:induction false} LessIrreflexive(a: string)
    ensures !Less(a, a)
    decreases |a|
  {
    if |a| > 0 {
      LessIrreflexive(a[1..]);
    }
  }

  lemma {:induction false} LessAsymmetric(a: string, b: string)
    requires Less(a, b)
    ensures !Less(b, a)
    decreases |a|
  {
    if |a| > 0 && |b| > 0 && a[0] == b[0] {
      LessAsymmetric(a[1..], b[1..]);
    }
  }

  lemma {:induction false} LessTransitive(a: string, b: string, c: string)
    requires Less(a, b) && Less(b, c)
    ensures Less(a, c)
    decreases |a|
  {
    if |a| > 0 && a[0] == b[0] && b[0] == c[0] {
      LessTransitive(a[1..], b[1..], c[1..]);
    }
  }

  lemma {:induction false} LessTotal(a: string, b: string)
    ensures a == b || Less(a, b) || Less(b, a)
    decreases |a|
  {
    if |a| > 0 && |b| > 0 && a[0] == b[0] {
      LessTotal(a[1..], b[1..]);
      if a[1..] == b[1..] {
        assert a == [a[0]] + a[1..] && b == [b[0]] + b[1..];
      }
    }
  }

  /** Strictly increasing under Python's string order (so also duplicate-free). */
  predicate StrictlySorted(xs: seq<string>) {
    forall i, j :: 0 <= i < j < |xs| ==> Less(xs[i], xs[j])
  }

  /** Inserts `x` into a strictly sorted sequence, keeping it strictly sorted. */
  function Insert(x: string, s: seq<string>): (r: seq<string>)
    requires StrictlySorted(s)
    ensures StrictlySorted(r)
    ensures forall y :: y in r <==> y == x || y in s
    decreases |s|
  {
    if |s| == 0 then [x]
    else if x == s[0] then s
    else if Less(x, s[0]) then
      assert forall j :: 0 < j < |s| ==> Less(x, s[j]) by {
        forall j | 0 < j < |s| ensures Less(x, s[j]) {
          LessTransitive(x, s[0], s[j]);
        }
      }
      [x] + s
    else
      LessTotal(x, s[0]);
      var rest := Insert(x, s[1..]);
      assert forall y :: y in rest ==> Less(s[0], y);
      [s[0]] + rest
  }

  /** Python `sorted(set(xs))`: the distinct elements of `xs` in increasing order. */
  function SortedSet(xs: seq<string>): (r: seq<string>)
    ensures StrictlySorted(r)
    ensures forall y :: y in r <==> y in xs
  {
    if |xs| == 0 then [] else Insert(xs[|xs| - 1], SortedSet(xs[..|xs| - 1]))
  }

  lemma HeadIn<T>(xs: seq<T>)
    requires |xs| > 0
    ensures xs[0] in xs
  {
  }

  /** A strictly sorted sequence is determined by its elements: so `SortedSet` is the
      one and only sorted, duplicate-free listing of a collection. */
  lemma {:induction false} StrictlySortedUnique(a: seq<string>, b: seq<string>)
    requires StrictlySorted(a) && StrictlySorted(b)
    requires forall y :: y in a <==> y in b
    ensures a == b
    decreases |a|
  {
    if |a| == 0 {
      if |b| > 0 {
        HeadIn(b);
      }
    } else {
      assert a[0] in b;
      assert |b| > 0;
      if a[0] != b[0] {
        var j := IndexOf(b, a[0]);
        var i := IndexOf(a, b[0]);
        assert Less(b[0], a[0]);
        assert Less(a[0], b[0]);
        LessAsymmetric(a[0], b[0]);
      }
      assert a == [a[0]] + a[1..] && b == [b[0]] + b[1..];
      forall y ensures y in a[1..] <==> y in b[1..] {
        LessIrreflexive(y);
        if y in a[1..] {
          var k := IndexOf(a[1..], y);
          assert a[k + 1] == y;
          assert Less(a[0], y);
          assert y in b && y != b[0];
        }
        if y in b[1..] {
          var k := IndexOf(b[1..], y);
          assert b[k + 1] == y;
          assert Less(b[0], y);
          assert y in a && y != a[0];
        }
      }
      StrictlySortedUnique(a[1..], b[1..]);
    }
  }
}
