/** Python `str` operations the model relies on, written out on `seq<char>`.
    Only the ASCII part of Python's whitespace and case tables is modelled. */
module Strings {

  /** Python's whitespace for `str.split()` and `str.strip()` (ASCII part). */
  predicate IsSpace(c: char) {
    c == ' ' || c == '\t' || c == '\n' || c == '\r' || c == '\U{B}' || c == '\U{C}'
  }

  const Whitespace: set<char> := {' ', '\t', '\n', '\r', '\U{B}', '\U{C}'}

  /** `s` contains no character of `seps`. */
  predicate FreeOf(s: string, seps: set<char>) {
    forall k :: 0 <= k < |s| ==> s[k] !in seps
  }

  /** Splits `s` at every character of `seps`, keeping empty fields:
      `s.split(c)` when `seps == {c}`, and the fields between single
      whitespace characters when `seps == Whitespace`. */
  function SplitOn(s: string, seps: set<char>): (r: seq<string>)
    ensures |r| >= 1
    ensures forall i :: 0 <= i < |r| ==> FreeOf(r[i], seps)
    decreases |s|
  {
    if |s| == 0 then [""]
    else
      var rest := SplitOn(s[1..], seps);
      if s[0] in seps then [""] + rest
      else [[s[0]] + rest[0]] + rest[1..]
  }

  /** Python `s.split(sep)` for a one-character separator. */
  function Split(s: string, sep: char): seq<string> {
    SplitOn(s, {sep})
  }

  /** Python `sep.join(parts)`. */
  function Join(parts: seq<string>, sep: char): string {
    if |parts| == 0 then ""
    else if |parts| == 1 then parts[0]
    else parts[0] + [sep] + Join(parts[1..], sep)
  }

  /** Python `" ".join(parts)` for a string separator. */
  function JoinWith(parts: seq<string>, sep: string): string {
    if |parts| == 0 then ""
    else if |parts| == 1 then parts[0]
    else parts[0] + sep + JoinWith(parts[1..], sep)
  }

  /** Joining the fields of a split with the separator rebuilds the string. */
  lemma {:induction false} JoinSplit(s: string, sep: char)
    ensures Join(Split(s, sep), sep) == s
    decreases |s|
  {
    if |s| > 0 {
      JoinSplit(s[1..], sep);
      var rest := Split(s[1..], sep);
      if s[0] == sep {
        assert Split(s, sep) == [""] + rest;
      } else {
        assert Split(s, sep) == [[s[0]] + rest[0]] + rest[1..];
        if |rest| > 1 {
          assert rest == [rest[0]] + rest[1..];
          assert Join(rest, sep) == rest[0] + [sep] + Join(rest[1..], sep);
        }
      }
    }
  }

  /** Splitting `a + t`, where `a` holds no separator, glues `a` onto the first field of `t`. */
  lemma {:induction false} SplitOnAppend(a: string, t: string, seps: set<char>)
    requires FreeOf(a, seps)
    ensures SplitOn(a + t, seps) == [a + SplitOn(t, seps)[0]] + SplitOn(t, seps)[1..]
    decreases |a|
  {
    if |a| > 0 {
      assert (a + t)[1..] == a[1..] + t;
      SplitOnAppend(a[1..], t, seps);
      assert [a[0]] + (a[1..] + SplitOn(t, seps)[0]) == a + SplitOn(t, seps)[0];
    } else {
      assert a + t == t;
      assert a + SplitOn(t, seps)[0] == SplitOn(t, seps)[0];
      assert SplitOn(t, seps) == [SplitOn(t, seps)[0]] + SplitOn(t, seps)[1..];
    }
  }

  /** Splitting a join of separator-free fields gives the fields back. */
  lemma {:induction false} SplitOnJoin(parts: seq<string>, sep: char, seps: set<char>)
    requires |parts| >= 1
    requires sep in seps
    requires forall i :: 0 <= i < |parts| ==> FreeOf(parts[i], seps)
    ensures SplitOn(Join(parts, sep), seps) == parts
    decreases |parts|
  {
    if |parts| == 1 {
      SplitOnAppend(parts[0], "", seps);
      assert parts[0] + "" == parts[0];
    } else {
      var t := [sep] + Join(parts[1..], sep);
      assert Join(parts, sep) == parts[0] + t;
      SplitOnJoin(parts[1..], sep, seps);
      assert t[1..] == Join(parts[1..], sep);
      assert SplitOn(t, seps) == [""] + parts[1..];
      SplitOnAppend(parts[0], t, seps);
      assert parts[0] + "" == parts[0];
    }
  }

  /** `Split` and `Join` are mutually inverse on separator-free fields. */
  lemma SplitJoin(parts: seq<string>, sep: char)
    requires |parts| >= 1
    requires forall i :: 0 <= i < |parts| ==> FreeOf(parts[i], {sep})
    ensures Split(Join(parts, sep), sep) == parts
  {
    SplitOnJoin(parts, sep, {sep});
  }

  /** The non-empty elements of `xs`, in order. */
  function NonEmpty(xs: seq<string>): (r: seq<string>)
    ensures forall i :: 0 <= i < |r| ==> |r[i]| > 0
    ensures forall i :: 0 <= i < |r| ==> r[i] in xs
    ensures forall i :: 0 <= i < |xs| && |xs[i]| > 0 ==> xs[i] in r
  {
    if |xs| == 0 then []
    else if |xs[0]| == 0 then NonEmpty(xs[1..])
    else [xs[0]] + NonEmpty(xs[1..])
  }

  /** Python `s.split()`: maximal runs of non-whitespace characters. */
  function Words(s: string): (r: seq<string>)
    ensures forall i :: 0 <= i < |r| ==> |r[i]| > 0 && FreeOf(r[i], Whitespace)
  {
    NonEmpty(SplitOn(s, Whitespace))
  }

  lemma {:induction false} NonEmptyId(xs: seq<string>)
    requires forall i :: 0 <= i < |xs| ==> |xs[i]| > 0
    ensures NonEmpty(xs) == xs
    decreases |xs|
  {
    if |xs| > 0 {
      NonEmptyId(xs[1..]);
    }
  }

  /** Whitespace-splitting a space-joined list of words gives the words back. */
  lemma WordsJoin(ws: seq<string>)
    requires forall i :: 0 <= i < |ws| ==> |ws[i]| > 0 && FreeOf(ws[i], Whitespace)
    ensures Words(Join(ws, ' ')) == ws
  {
    if |ws| == 0 {
      assert SplitOn("", Whitespace) == [""];
      assert NonEmpty([""]) == NonEmpty([""][1..]);
    } else {
      SplitOnJoin(ws, ' ', Whitespace);
      NonEmptyId(ws);
    }
  }

  /** Number of leading whitespace characters. */
  function LeadingSpaces(s: string): (n: nat)
    ensures n <= |s|
    ensures forall k :: 0 <= k < n ==> IsSpace(s[k])
    ensures n < |s| ==> !IsSpace(s[n])
  {
    if |s| == 0 || !IsSpace(s[0]) then 0 else 1 + LeadingSpaces(s[1..])
  }

  /** Number of trailing whitespace characters. */
  function TrailingSpaces(s: string): (n: nat)
    ensures n <= |s|
    ensures forall k :: |s| - n <= k < |s| ==> IsSpace(s[k])
    ensures n < |s| ==> !IsSpace(s[|s| - n - 1])
  {
    if |s| == 0 || !IsSpace(s[|s| - 1]) then 0 else 1 + TrailingSpaces(s[..|s| - 1])
  }

  /** Python `s.strip()`: the string without leading and trailing whitespace. */
  function Strip(s: string): (r: string)
    ensures |r| == 0 || (!IsSpace(r[0]) && !IsSpace(r[|r| - 1]))
    ensures exists a: nat, b: nat :: a <= b <= |s| && r == s[a..b]
                                     && (forall k :: 0 <= k < a ==> IsSpace(s[k]))
                                     && (forall k :: b <= k < |s| ==> IsSpace(s[k]))
  {
    var a := LeadingSpaces(s);
    if a == |s| then
      assert s[a..a] == "";
      ""
    else
      var t := TrailingSpaces(s);
      assert !IsSpace(s[a]);
      s[a..|s| - t]
  }

  /** A string with non-whitespace ends is its own strip. */
  lemma StripKeeps(s: string)
    requires |s| > 0 && !IsSpace(s[0]) && !IsSpace(s[|s| - 1])
    ensures Strip(s) == s
  {
    assert LeadingSpaces(s) == 0 && TrailingSpaces(s) == 0;
  }

  /** Stripping drops one trailing space after a non-whitespace end. */
  lemma StripTrailingSpace(s: string)
    requires |s| > 0 && !IsSpace(s[0]) && !IsSpace(s[|s| - 1])
    ensures Strip(s + " ") == s
  {
    var t := s + " ";
    assert t[..|t| - 1] == s;
    assert TrailingSpaces(t) == 1 + TrailingSpaces(s) == 1;
    assert LeadingSpaces(t) == 0;
  }

  /** Joining fields that avoid `cs` with a separator outside `cs` avoids `cs`. */
  lemma {:induction false} JoinFree(parts: seq<string>, sep: char, cs: set<char>)
    requires sep !in cs
    requires forall i :: 0 <= i < |parts| ==> FreeOf(parts[i], cs)
    ensures FreeOf(Join(parts, sep), cs)
    decreases |parts|
  {
    if |parts| > 1 {
      JoinFree(parts[1..], sep, cs);
      var a, b := parts[0], [sep] + Join(parts[1..], sep);
      assert Join(parts, sep) == a + b;
      assert forall k :: 0 <= k < |a + b| ==> (a + b)[k] == if k < |a| then a[k] else b[k - |a|];
    }
  }

  /** Joining one more field adds the separator and that field at the end. */
  lemma {:induction false} JoinAppend(parts: seq<string>, x: string, sep: char)
    requires |parts| > 0
    ensures Join(parts + [x], sep) == Join(parts, sep) + [sep] + x
    decreases |parts|
  {
    if |parts| > 1 {
      JoinAppend(parts[1..], x, sep);
      assert (parts + [x])[1..] == parts[1..] + [x];
    }
  }

  /** A join ends with the last character of its last field, when that field is non-empty. */
  lemma {:induction false} JoinLast(parts: seq<string>, sep: char)
    requires |parts| > 0 && |parts[|parts| - 1]| > 0
    ensures |Join(parts, sep)| > 0
    ensures Join(parts, sep)[|Join(parts, sep)| - 1] == parts[|parts| - 1][|parts[|parts| - 1]| - 1]
    decreases |parts|
  {
    if |parts| > 1 {
      JoinLast(parts[1..], sep);
      assert parts[1..][|parts[1..]| - 1] == parts[|parts| - 1];
    }
  }

  /** Prepending two fields that avoid `cs` to fields that avoid `cs`. */
  lemma FreeOfCons2(a: string, b: string, rest: seq<string>, cs: set<char>)
    requires FreeOf(a, cs) && FreeOf(b, cs)
    requires forall i :: 0 <= i < |rest| ==> FreeOf(rest[i], cs)
    ensures forall i :: 0 <= i < |[a, b] + rest| ==> FreeOf(([a, b] + rest)[i], cs)
  {
    var fields := [a, b] + rest;
    forall i | 0 <= i < |fields| ensures FreeOf(fields[i], cs) {
      if i >= 2 {
        assert fields[i] == rest[i - 2];
      }
    }
  }

  /** Avoiding a set of characters means avoiding each of its subsets. */
  lemma FreeOfSubset(parts: seq<string>, cs: set<char>, ds: set<char>)
    requires ds <= cs
    requires forall i :: 0 <= i < |parts| ==> FreeOf(parts[i], cs)
    ensures forall i :: 0 <= i < |parts| ==> FreeOf(parts[i], ds)
  {
  }

  /** A string without the separator splits into itself. */
  lemma SplitFree(s: string, sep: char)
    requires FreeOf(s, {sep})
    ensures Split(s, sep) == [s]
  {
    SplitJoin([s], sep);
  }

  /** Python `s.startswith(p)`. */
  predicate StartsWith(s: string, p: string) {
    |p| <= |s| && s[..|p|] == p
  }

  /** Python `s.endswith(p)`. */
  predicate EndsWith(s: string, p: string) {
    |p| <= |s| && s[|s| - |p|..] == p
  }

  /** `sub` occurs in `s` at index `k`. */
  predicate OccursAt(s: string, sub: string, k: int) {
    0 <= k && k + |sub| <= |s| && s[k..k + |sub|] == sub
  }

  /** Python `s.find(sub, i)`: the first index at or after `i` where `sub` occurs, or -1. */
  function FindFrom(s: string, sub: string, i: nat): (r: int)
    ensures r == -1 || (i <= r && OccursAt(s, sub, r))
    ensures forall k :: i <= k && (r == -1 || k < r) ==> !OccursAt(s, sub, k)
    decreases |s| - i
  {
    if i + |sub| > |s| then -1
    else if s[i..i + |sub|] == sub then i
    else FindFrom(s, sub, i + 1)
  }

  /** Python `s.find(sub)`. */
  function Find(s: string, sub: string): int {
    FindFrom(s, sub, 0)
  }

  /** Python `sub in s` for strings. */
  predicate Contains(s: string, sub: string) {
    Find(s, sub) >= 0
  }

  /** Python `s.rfind(c)` for one character: the last index of `c`, or -1. */
  function RFindChar(s: string, c: char): (r: int)
    ensures -1 <= r < |s|
    ensures r >= 0 ==> s[r] == c
    ensures forall k :: r < k < |s| ==> s[k] != c
  {
    if |s| == 0 then -1
    else if s[|s| - 1] == c then |s| - 1
    else RFindChar(s[..|s| - 1], c)
  }

  /** Python `s.replace(old, new)`: left-to-right, non-overlapping replacement. */
  function Replace(s: string, pat: string, repl: string): (r: string)
    requires |pat| > 0
    decreases |s|
  {
    if |s| == 0 then ""
    else if StartsWith(s, pat) then repl + Replace(s[|pat|..], pat, repl)
    else [s[0]] + Replace(s[1..], pat, repl)
  }

  /** An occurrence in `s[1..]` is an occurrence in `s`, one index later. */
  lemma OccursShift(s: string, sub: string, k: int)
    requires |s| > 0
    requires OccursAt(s[1..], sub, k)
    ensures OccursAt(s, sub, k + 1)
  {
    assert s[k + 1..k + 1 + |sub|] == s[1..][k..k + |sub|];
  }

  /** A string in which `old` does not occur is left unchanged by `Replace`. */
  lemma {:induction false} ReplaceAbsent(s: string, pat: string, repl: string)
    requires |pat| > 0
    requires forall k :: !OccursAt(s, pat, k)
    ensures Replace(s, pat, repl) == s
    decreases |s|
  {
    if |s| > 0 {
      assert !OccursAt(s, pat, 0);
      forall k | OccursAt(s[1..], pat, k) ensures OccursAt(s, pat, k + 1) {
        OccursShift(s, pat, k);
      }
      ReplaceAbsent(s[1..], pat, repl);
    }
  }

  /** Python `s.replace(a, b)` for single characters. */
  function ReplaceChar(s: string, a: char, b: char): (r: string)
    ensures |r| == |s|
    ensures forall k :: 0 <= k < |s| ==> r[k] == (if s[k] == a then b else s[k])
  {
    seq(|s|, k requires 0 <= k < |s| => if s[k] == a then b else s[k])
  }

  /** ASCII part of Python's `str.lower()` for one character. */
  function LowerChar(c: char): char {
    if 'A' <= c <= 'Z' then (c as int + 32) as char else c
  }

  /** Python `s.lower()` (ASCII letters only). */
  function Lower(s: string): (r: string)
    ensures |r| == |s|
    ensures forall k :: 0 <= k < |s| ==> r[k] == LowerChar(s[k])
  {
    seq(|s|, k requires 0 <= k < |s| => LowerChar(s[k]))
  }

  /** Python `s.isdigit()` (ASCII digits only): non-empty and every character a digit. */
  predicate IsDigits(s: string) {
    |s| > 0 && forall k :: 0 <= k < |s| ==> '0' <= s[k] <= '9'
  }

  /** The value of a decimal digit string, as Python's `int(s)`. */
  function DigitsValue(s: string): nat
    requires forall k :: 0 <= k < |s| ==> '0' <= s[k] <= '9'
  {
    if |s| == 0 then 0 else 10 * DigitsValue(s[..|s| - 1]) + (s[|s| - 1] as int - '0' as int)
  }

  /** Python `s.splitlines()` for text whose only line break is `'\n'`. */
  function Lines(s: string): (r: seq<string>)
    ensures forall i :: 0 <= i < |r| ==> FreeOf(r[i], {'\n'})
  {
    var parts := Split(s, '\n');
    if parts[|parts| - 1] == "" then parts[..|parts| - 1] else parts
  }

  /** Python `os.path.basename` on a '/'-separated path. */
  function Basename(p: string): (r: string)
    ensures FreeOf(r, {'/'})
    ensures |r| <= |p| && p[|p| - |r|..] == r
  {
    var i := RFindChar(p, '/') + 1;
    var r := p[i..];
    assert forall k :: 0 <= k < |r| ==> r[k] == p[i + k];
    r
  }

  /** Python `os.path.dirname` on a '/'-separated path: everything before the
      last '/', with trailing slashes removed unless it consists only of slashes. */
  function Dirname(p: string): (r: string)
    ensures StartsWith(p, r)
  {
    var head := p[..RFindChar(p, '/') + 1];
    if |head| > 0 && !(forall k :: 0 <= k < |head| ==> head[k] == '/') then
      StripTrailingSlashes(head)
    else head
  }

  function StripTrailingSlashes(s: string): (r: string)
    ensures |r| <= |s| && s[..|r|] == r
  {
    if |s| > 0 && s[|s| - 1] == '/' then StripTrailingSlashes(s[..|s| - 1]) else s
  }

  /** `os.path.join(dir, name)` for a relative name. */
  function PathJoin(dir: string, name: string): string {
    if dir == "" || dir[|dir| - 1] == '/' then dir + name else dir + "/" + name
  }

  /** Python `s.replace(c, '')` for one character: `s` with every `c` removed. */
  function RemoveChar(s: string, c: char): (r: string)
    ensures |r| <= |s|
    ensures forall x :: x in r <==> x in s && x != c
  {
    if |s| == 0 then ""
    else
      assert forall x :: x in s <==> x == s[0] || x in s[1..];
      (if s[0] == c then "" else [s[0]]) + RemoveChar(s[1..], c)
  }

  /** Python `s.split(sep)[0]`: everything before the first `sep`. */
  function FirstField(s: string, sep: char): string {
    Split(s, sep)[0]
  }

  /** The first field is the longest prefix free of the separator: it is followed by
      the separator or ends the string. */
  lemma {:induction false} FirstFieldPrefix(s: string, sep: char)
    ensures var r := FirstField(s, sep);
            |r| <= |s| && s[..|r|] == r && FreeOf(r, {sep}) && (|r| < |s| ==> s[|r|] == sep)
    decreases |s|
  {
    if |s| > 0 && s[0] != sep {
      FirstFieldPrefix(s[1..], sep);
      var rest := FirstField(s[1..], sep);
      assert FirstField(s, sep) == [s[0]] + rest;
    }
  }
  /** Python `s.split(sep)` for a separator of one or more characters. */
  function SplitStr(s: string, sep: string): (r: seq<string>)
    requires |sep| > 0
    ensures |r| >= 1
    decreases |s|
  {
    var k := Find(s, sep);
    if k < 0 then [s] else [s[..k]] + SplitStr(s[k + |sep|..], sep)
  }

  /** Joining the fields of a split with the separator rebuilds the string. */
  lemma {:induction false} JoinSplitStr(s: string, sep: string)
    requires |sep| > 0
    ensures JoinWith(SplitStr(s, sep), sep) == s
    decreases |s|
  {
    var k := Find(s, sep);
    if k >= 0 {
      var rest := s[k + |sep|..];
      JoinSplitStr(rest, sep);
      JoinWithCons(s[..k], SplitStr(rest, sep), sep);
      FindSplits(s, sep, k);
    }
  }

  lemma JoinWithCons(a: string, rest: seq<string>, sep: string)
    requires |rest| >= 1
    ensures JoinWith([a] + rest, sep) == a + sep + JoinWith(rest, sep)
  {
    assert ([a] + rest)[1..] == rest;
  }

  lemma FindSplits(s: string, sep: string, k: int)
    requires OccursAt(s, sep, k)
    ensures s == s[..k] + sep + s[k + |sep|..]
  {
    assert s == s[..k] + s[k..k + |sep|] + s[k + |sep|..];
  }

  /** `key + sep + value` splits into the key and the value when the key cannot hold
      the start of a separator and the value holds no separator. */
  lemma SplitStrKeyValue(key: string, sep: string, value: string)
    requires |sep| > 0 && sep[0] !in key && !Contains(value, sep)
    ensures SplitStr(key + sep + value, sep) == [key, value]
  {
    var s := key + sep + value;
    assert OccursAt(s, sep, |key|) by {
      assert s[|key|..|key| + |sep|] == sep;
    }
    var k := Find(s, sep);
    assert k == |key|;
    assert s[k + |sep|..] == value;
    assert s[..k] == key;
  }

  /** The first field of a split is a prefix of the string. */
  lemma SplitStrFirst(s: string, sep: string)
    requires |sep| > 0
    ensures var f := SplitStr(s, sep)[0]; |f| <= |s| && s[..|f|] == f
  {
  }
}
