/** The sources list of src/rosdep2/sources_list.py: `DataSource` records and their
    validation, the tag matcher, and the parser of the `sources.list` line format
    `<type> <url> [tags...]`. */
module SourcesList {
  import opened Base
  import opened Strings
  import opened Seqs

  /** The one valid data source type. */
  const TypeYaml := "yaml"

  /** Why a `DataSource` cannot be built (`ValueError`). */
  datatype ValueError =
    | TypeNotValid(kind: string)
    | UrlNotFull(url: string)
    | TagsNotList
    | InvalidIpv6(url: string)

  /** Why a sources list cannot be read (`InvalidSourcesFile`). */
  datatype InvalidSourcesFile =
    | TooFewFields(origin: string, line: string)
    | BadSource(origin: string, line: string, cause: ValueError)
    | Unreadable(path: string)

  /** A validated data source; `origin` names the file it was read from. */
  datatype DataSource = DataSource(kind: string, url: string, tags: seq<string>, origin: Option<string>)

  // ---------------------------------------------------------------------------
  // URL splitting: Python 2's `urlparse`, reduced to the parts `DataSource` checks.

  datatype UrlParts = UrlParts(scheme: string, netloc: string, path: string)

  predicate SchemeChar(c: char) {
    || 'a' <= c <= 'z' || 'A' <= c <= 'Z' || '0' <= c <= '9'
    || c == '+' || c == '-' || c == '.'
  }

  /** Schemes whose last path segment may carry `;params`. */
  const UsesParams: set<string> := {"ftp", "hdl", "prospero", "http", "imap", "https", "shttp",
                                    "rtsp", "rtspu", "sip", "sips", "mms", "", "sftp", "tel"}

  /** The first position at or after `from` holding a character of `cs`, or `|s|`. */
  function FirstOf(s: string, cs: set<char>, from: nat): (k: nat)
    requires from <= |s|
    ensures from <= k <= |s|
    ensures k < |s| ==> s[k] in cs
    ensures forall j :: from <= j < k ==> s[j] !in cs
    decreases |s| - from
  {
    if from == |s| || s[from] in cs then from else FirstOf(s, cs, from + 1)
  }

  /** The scheme and the rest: the text before the first ':' is the scheme when it is
      non-empty and made of scheme characters, and either it is `http` or the rest is
      not a port number. */
  function SplitScheme(url: string): (r: (string, string))
    ensures r.0 + (if r.0 == "" then "" else ":") + r.1 == url
  {
    var i := Find(url, ":");
    if i > 0 && (url[..i] == "http" || ((forall k :: 0 <= k < i ==> SchemeChar(url[k])) && !IsDigits(url[i + 1..]))) then
      assert url == url[..i] + ":" + url[i + 1..];
      (url[..i], url[i + 1..])
    else ("", url)
  }

  /** `_splitparams`: the path without the `;params` of its last segment. */
  function StripParams(path: string): (r: string)
    ensures |r| <= |path| && path[..|r|] == r
  {
    var slash := RFindChar(path, '/');
    var i := FirstOf(path, {';'}, if slash < 0 then 0 else slash);
    path[..i]
  }

  /** `urlparse(url)` restricted to scheme, network location and path. `InvalidIpv6`
      when the network location has one square bracket without the other. */
  function SplitUrl(url: string): (r: Result<UrlParts, ValueError>)
    ensures r.Err? ==> r.error == InvalidIpv6(url)
  {
    var (scheme0, rest) := SplitScheme(url);
    var scheme := Lower(scheme0);
    var (netloc, rest') := SplitNetloc(rest);
    if ('[' in netloc) != (']' in netloc) then Err(InvalidIpv6(url))
    else Ok(UrlParts(scheme, netloc, PathOf(scheme, rest')))
  }

  /** The network location after a leading `//`, up to the next `/`, `?` or `#`, and
      what follows it; none without the `//`. */
  function SplitNetloc(rest: string): (r: (string, string))
    ensures r.0 == "" || StartsWith(rest, "//")
    ensures !StartsWith(rest, "//") ==> r.1 == rest
  {
    if StartsWith(rest, "//") then
      var j := FirstOf(rest, {'/', '?', '#'}, 2);
      (rest[2..j], rest[j..])
    else ("", rest)
  }

  /** The path: the text before any query or fragment, without its `;params` for a
      scheme that uses them. */
  function PathOf(scheme: string, rest: string): (r: string)
    ensures |r| <= |rest| && rest[..|r|] == r
  {
    var path := rest[..FirstOf(rest, {'?', '#'}, 0)];
    if scheme in UsesParams && ';' in path then StripParams(path) else path
  }

  /** `scheme:rest` with a scheme of scheme characters and a rest that starts with `/`
      splits at that colon. */
  lemma SplitSchemeCompose(scheme: string, rest: string)
    requires |scheme| > 0 && forall k :: 0 <= k < |scheme| ==> SchemeChar(scheme[k])
    requires |rest| > 0 && rest[0] == '/'
    ensures SplitScheme(scheme + ":" + rest) == (scheme, rest)
  {
    var url := scheme + ":" + rest;
    var n := |scheme|;
    assert OccursAt(url, ":", n) by {
      assert url[n..n + 1] == ":";
    }
    forall k | 0 <= k < n ensures !OccursAt(url, ":", k) {
      assert url[k] == scheme[k];
    }
    var i := Find(url, ":");
    assert i == n;
    assert url[..i] == scheme && url[i + 1..] == rest;
    assert !IsDigits(rest);
  }

  /** `//host path` splits into `host` and `path` when the host holds no delimiter and the
      path is empty or starts with `/`. */
  lemma SplitNetlocCompose(host: string, path: string)
    requires FreeOf(host, {'/', '?', '#'})
    requires path == "" || path[0] == '/'
    ensures StartsWith("//" + host + path, "//")
    ensures var rest := "//" + host + path;
            var j := FirstOf(rest, {'/', '?', '#'}, 2);
            rest[2..j] == host && rest[j..] == path
  {
    var rest := "//" + host + path;
    assert rest[..2] == "//";
    var j := FirstOf(rest, {'/', '?', '#'}, 2);
    assert forall k :: 2 <= k < 2 + |host| ==> rest[k] == host[k - 2];
    if 2 + |host| < |rest| {
      assert rest[2 + |host|] == path[0];
    }
    assert j == 2 + |host|;
  }

  /** A character outside a string is not in it. */
  lemma NotIn(s: string, c: char)
    requires FreeOf(s, {c})
    ensures c !in s
  {
    if c in s {
      var k := IndexOf(s, c);
    }
  }

  /** `scheme://host/path`, with no delimiter inside the host and no query, fragment or
      parameters in the path, splits back into its parts. */
  lemma SplitUrlCompose(scheme: string, host: string, path: string)
    requires |scheme| > 0 && forall k :: 0 <= k < |scheme| ==> SchemeChar(scheme[k])
    requires FreeOf(host, {'/', '?', '#', '[', ']'})
    requires FreeOf(path, {'?', '#', ';'}) && (path == "" || path[0] == '/')
    ensures SplitUrl(scheme + "://" + host + path) == Ok(UrlParts(Lower(scheme), host, path))
  {
    var rest := "//" + host + path;
    assert scheme + "://" + host + path == scheme + ":" + rest;
    SplitSchemeCompose(scheme, rest);
    SplitNetlocCompose(host, path);
    NotIn(host, '[');
    NotIn(host, ']');
    NotIn(path, ';');
    assert FirstOf(path, {'?', '#'}, 0) == |path|;
    assert path[..|path|] == path;
  }

  /** A URL without a scheme, a `//` or a query, fragment or parameter delimiter is
      all path. */
  lemma SplitUrlPlain(url: string)
    requires SplitScheme(url) == ("", url) && !StartsWith(url, "//") && FreeOf(url, {'?', '#', ';'})
    ensures SplitUrl(url) == Ok(UrlParts("", "", url))
  {
    assert FirstOf(url, {'?', '#'}, 0) == |url|;
    assert url[..|url|] == url;
  }

  /** The URL has a scheme, a host and a path other than `''` and `'/'`. */
  predicate FullySpecified(p: UrlParts) {
    p.scheme != "" && p.netloc != "" && p.path != "" && p.path != "/"
  }

  // ---------------------------------------------------------------------------
  // DataSource

  /** `DataSource(type_, url, tags, origin)`: `tags` is `None` when the argument is not a
      list. Checks, in order: the type, the URL, the tags. */
  function NewDataSource(kind: string, url: string, tags: Option<seq<string>>, origin: Option<string>): (r: Result<DataSource, ValueError>)
    ensures r.Ok? <==> kind == TypeYaml && SplitUrl(url).Ok? && FullySpecified(SplitUrl(url).value) && tags.Some?
    ensures r.Ok? ==> r.value == DataSource(kind, url, tags.value, origin)
    ensures kind != TypeYaml ==> r == Err(TypeNotValid(kind))
    ensures kind == TypeYaml && SplitUrl(url).Ok? && FullySpecified(SplitUrl(url).value) && tags.None? ==> r == Err(TagsNotList)
  {
    if kind != TypeYaml then Err(TypeNotValid(kind))
    else
      var parts :- SplitUrl(url);
      if !FullySpecified(parts) then Err(UrlNotFull(url))
      else if tags.None? then Err(TagsNotList)
      else Ok(DataSource(kind, url, tags.value, origin))
  }

  /** `__eq__`: type, tags, url and origin all agree. */
  predicate SameSource(a: DataSource, b: DataSource) {
    a.kind == b.kind && a.tags == b.tags && a.url == b.url && a.origin == b.origin
  }

  /** `__eq__` is structural equality: no field of a source escapes the comparison. */
  lemma SameSourceIsEquality(a: DataSource, b: DataSource)
    ensures SameSource(a, b) <==> a == b
  {
  }

  /** `__str__`: `"<type> <url> <tags>"`, preceded by `"[<origin>]:\n"` when the origin
      is a non-empty string. */
  function ToString(d: DataSource): (s: string)
    ensures d.origin.None? || d.origin.value == "" ==> s == Line(d)
    ensures d.origin.Some? && d.origin.value != "" ==> s == "[" + d.origin.value + "]:\n" + Line(d)
  {
    var line := d.kind + " " + d.url + " " + Join(d.tags, ' ');
    if d.origin.Some? && d.origin.value != "" then "[" + d.origin.value + "]:\n" + line else line
  }

  /** The source-list line of a source, with a trailing space when it has no tags. */
  function Line(d: DataSource): string {
    d.kind + " " + d.url + " " + Join(d.tags, ' ')
  }

  // ---------------------------------------------------------------------------
  // Matching

  /** `DataSourceMatcher.matches`: no tag of the source is missing from the matcher's. */
  function Matches(matcherTags: seq<string>, d: DataSource): (b: bool)
    ensures b <==> forall i :: 0 <= i < |d.tags| ==> d.tags[i] in matcherTags
  {
    var missing := (set t | t in d.tags) - (set t | t in matcherTags);
    assert missing == {} <==> forall i :: 0 <= i < |d.tags| ==> d.tags[i] in matcherTags by {
      if missing != {} {
        var t :| t in missing;
        var i := IndexOf(d.tags, t);
      } else {
        forall i | 0 <= i < |d.tags| ensures d.tags[i] in matcherTags {
          assert d.tags[i] !in missing;
        }
      }
    }
    missing == {}
  }

  /** A source without tags matches every configuration, and a source matches any
      matcher whose tags include the source's. */
  lemma MatchesMonotone(m1: seq<string>, m2: seq<string>, d: DataSource)
    requires forall t :: t in m1 ==> t in m2
    ensures Matches([], d.(tags := [])) && (Matches(m1, d) ==> Matches(m2, d))
  {
  }

  // ---------------------------------------------------------------------------
  // Parsing

  /** A line that `parse_sources_data` ignores: blank, or a comment, once stripped. */
  predicate Skipped(line: string) {
    var s := Strip(line);
    |s| == 0 || s[0] == '#'
  }

  /** One stripped, significant line: `<type> <url> [tags...]` split on single spaces. */
  function ParseLine(line: string, origin: string): (r: Result<DataSource, InvalidSourcesFile>)
    ensures r.Ok? <==> |Split(line, ' ')| >= 2 && NewDataSource(Split(line, ' ')[0], Split(line, ' ')[1], Some(Split(line, ' ')[2..]), Some(origin)).Ok?
    ensures r.Ok? ==> r.value == DataSource(Split(line, ' ')[0], Split(line, ' ')[1], Split(line, ' ')[2..], Some(origin))
    ensures r.Err? ==> (r.error.TooFewFields? || r.error.BadSource?) && r.error.origin == origin && r.error.line == line
  {
    var splits := Split(line, ' ');
    if |splits| < 2 then Err(TooFewFields(origin, line))
    else
      match NewDataSource(splits[0], splits[1], Some(splits[2..]), Some(origin))
      case Ok(d) => Ok(d)
      case Err(e) => Err(BadSource(origin, line, e))
  }

  /** A line `parse_sources_data` accepts. */
  predicate Accepted(line: string, origin: string) {
    Skipped(line) || ParseLine(Strip(line), origin).Ok?
  }

  /** The loop of `parse_sources_data` over `lines`. */
  function ParseLines(lines: seq<string>, origin: string): (r: Result<seq<DataSource>, InvalidSourcesFile>)
    ensures r.Ok? <==> forall i :: 0 <= i < |lines| ==> Accepted(lines[i], origin)
  {
    if |lines| == 0 then Ok([])
    else
      assert forall i :: 1 <= i < |lines| ==> lines[i] == lines[1..][i - 1];
      if Skipped(lines[0]) then ParseLines(lines[1..], origin)
      else
        var d :- ParseLine(Strip(lines[0]), origin);
        var rest :- ParseLines(lines[1..], origin);
        Ok([d] + rest)
  }

  /** The error raised is the one of the first line not accepted. */
  lemma {:induction false} ParseLinesFailsAtFirst(lines: seq<string>, origin: string, i: nat)
    requires i < |lines| && FirstRejected(lines, origin, i)
    ensures ParseLines(lines, origin) == Err(ParseLine(Strip(lines[i]), origin).error)
    decreases i
  {
    if i > 0 {
      assert FirstRejected(lines[1..], origin, i - 1) by {
        assert forall k :: 0 <= k < i - 1 ==> lines[1..][k] == lines[k + 1];
      }
      ParseLinesFailsAtFirst(lines[1..], origin, i - 1);
    }
  }

  /** `lines[i]` is the first line the parser does not accept. */
  predicate FirstRejected(lines: seq<string>, origin: string, i: nat)
    requires i < |lines|
  {
    !Accepted(lines[i], origin) && forall k :: 0 <= k < i ==> Accepted(lines[k], origin)
  }

  /** `parse_sources_data(data, origin)`. */
  function ParseSourcesData(data: string, origin: string): (r: Result<seq<DataSource>, InvalidSourcesFile>)
    ensures r.Ok? <==> forall i :: 0 <= i < |Split(data, '\n')| ==> Accepted(Split(data, '\n')[i], origin)
  {
    ParseLines(Split(data, '\n'), origin)
  }

  /** The lines that are neither blank nor comments, stripped, in order. */
  function Significant(lines: seq<string>): (r: seq<string>)
    ensures forall i :: 0 <= i < |r| ==> |r[i]| > 0 && r[i][0] != '#'
  {
    if |lines| == 0 then []
    else if Skipped(lines[0]) then Significant(lines[1..])
    else [Strip(lines[0])] + Significant(lines[1..])
  }

  /** `srcs` holds, position by position, the sources parsed from the lines `sig`. */
  predicate ParsedFrom(srcs: seq<DataSource>, sig: seq<string>, origin: string) {
    |srcs| == |sig| && forall i :: 0 <= i < |sig| ==> ParseLine(sig[i], origin) == Ok(srcs[i])
  }

  lemma ParsedFromCons(d: DataSource, srcs: seq<DataSource>, line: string, sig: seq<string>, origin: string)
    requires ParseLine(line, origin) == Ok(d) && ParsedFrom(srcs, sig, origin)
    ensures ParsedFrom([d] + srcs, [line] + sig, origin)
  {
    var ls, ds := [line] + sig, [d] + srcs;
    forall i | 0 <= i < |ls|
      ensures ParseLine(ls[i], origin) == Ok(ds[i])
    {
      if i > 0 {
        assert ls[i] == sig[i - 1] && ds[i] == srcs[i - 1];
      }
    }
  }

  /** One significant line: its source comes first, then the rest's. */
  lemma ParseLinesStep(lines: seq<string>, origin: string)
    requires |lines| > 0 && !Skipped(lines[0]) && ParseLines(lines, origin).Ok?
    ensures ParseLines(lines[1..], origin).Ok?
    ensures ParseLines(lines, origin).value == [ParseLine(Strip(lines[0]), origin).value] + ParseLines(lines[1..], origin).value
    ensures Significant(lines) == [Strip(lines[0])] + Significant(lines[1..])
  {
  }

  /** A successful parse yields one source per significant line, in the order of the
      lines, each built from that line's fields and carrying `origin`. */
  lemma {:induction false} ParseLinesInOrder(lines: seq<string>, origin: string)
    requires ParseLines(lines, origin).Ok?
    ensures ParsedFrom(ParseLines(lines, origin).value, Significant(lines), origin)
    decreases |lines|
  {
    if |lines| > 0 {
      if Skipped(lines[0]) {
        ParseLinesInOrder(lines[1..], origin);
      } else {
        ParseLinesStep(lines, origin);
        ParseLinesInOrder(lines[1..], origin);
        ParsedFromCons(ParseLine(Strip(lines[0]), origin).value, ParseLines(lines[1..], origin).value,
                       Strip(lines[0]), Significant(lines[1..]), origin);
      }
    }
  }

  // ---------------------------------------------------------------------------
  // Directory of sources list files

  /** `parse_sources_file`: the file's contents parsed with the path as origin;
      an unreadable file (`IOError`) is an `InvalidSourcesFile`. */
  function ParseSourcesFile(path: string, contents: Option<string>): (r: Result<seq<DataSource>, InvalidSourcesFile>)
    ensures contents.None? ==> r == Err(Unreadable(path))
    ensures contents.Some? ==> r == ParseSourcesData(contents.value, path)
  {
    match contents
    case None => Err(Unreadable(path))
    case Some(text) => ParseSourcesData(text, path)
  }

  /** The files `names`, in the given order, their sources concatenated. */
  function ParseFiles(dir: string, names: seq<string>, read: string -> Option<string>): (r: Result<seq<DataSource>, InvalidSourcesFile>)
    ensures r.Ok? <==> forall i :: 0 <= i < |names| ==> ParseSourcesFile(PathJoin(dir, names[i]), read(PathJoin(dir, names[i]))).Ok?
  {
    if |names| == 0 then Ok([])
    else
      assert forall i :: 1 <= i < |names| ==> names[i] == names[1..][i - 1];
      var first :- ParseSourcesFile(PathJoin(dir, names[0]), read(PathJoin(dir, names[0])));
      var rest :- ParseFiles(dir, names[1..], read);
      Ok(first + rest)
  }

  /** `parse_sources_list(dir)`: no sources when the directory does not exist; otherwise
      the files listed in the directory, taken in sorted order. `read` gives a path's
      contents, `None` when it cannot be read. */
  function ParseSourcesList(dir: string, exists_: bool, listing: seq<string>, read: string -> Option<string>): (r: Result<seq<DataSource>, InvalidSourcesFile>)
    ensures !exists_ ==> r == Ok([])
    ensures exists_ ==> (r.Ok? <==> forall f :: f in listing ==> ParseSourcesFile(PathJoin(dir, f), read(PathJoin(dir, f))).Ok?)
  {
    if !exists_ then Ok([])
    else
      var names := SortedSet(listing);
      assert forall f :: f in listing <==> exists i :: 0 <= i < |names| && names[i] == f;
      ParseFiles(dir, names, read)
  }

  /** The order in which the directory lists its files does not matter. */
  lemma ListingOrderIrrelevant(dir: string, exists_: bool, a: seq<string>, b: seq<string>, read: string -> Option<string>)
    requires forall f :: f in a <==> f in b
    ensures ParseSourcesList(dir, exists_, a, read) == ParseSourcesList(dir, exists_, b, read)
  {
    StrictlySortedUnique(SortedSet(a), SortedSet(b));
  }

  lemma TypeYamlWordFree()
    ensures |TypeYaml| > 0 && FreeOf(TypeYaml, Whitespace)
  {
    assert TypeYaml == ['y', 'a', 'm', 'l'];
  }

  /** The fields of a source's line, joined by single spaces: the line without the trailing
      space it has when there are no tags. */
  lemma LineFields(d: DataSource)
    requires d.kind == TypeYaml && |d.url| > 0 && FreeOf(d.url, Whitespace)
    requires forall i :: 0 <= i < |d.tags| ==> |d.tags[i]| > 0 && FreeOf(d.tags[i], Whitespace)
    ensures var stripped := Join([TypeYaml, d.url] + d.tags, ' ');
            && Line(d) == (if d.tags == [] then stripped + " " else stripped)
            && |stripped| > 0 && !IsSpace(stripped[0]) && !IsSpace(stripped[|stripped| - 1])
            && stripped[0] == 'y'
  {
    var fields := [TypeYaml, d.url] + d.tags;
    var stripped := Join(fields, ' ');
    assert Join([d.url] + d.tags, ' ') == d.url + (if d.tags == [] then "" else " " + Join(d.tags, ' ')) by {
      if d.tags != [] {
        assert ([d.url] + d.tags)[1..] == d.tags;
      }
    }
    assert fields[1..] == [d.url] + d.tags;
    JoinLast(fields, ' ');
  }

  /** A valid source without origin, whose URL and tags hold no whitespace, prints as a
      line that parses back into the same source, now carrying the parser's origin. */
  lemma ParseLineOfSource(d: DataSource, o: string)
    requires NewDataSource(d.kind, d.url, Some(d.tags), d.origin).Ok?
    requires FreeOf(d.url, Whitespace)
    requires forall i :: 0 <= i < |d.tags| ==> |d.tags[i]| > 0 && FreeOf(d.tags[i], Whitespace)
    ensures ParseSourcesData(Line(d), o) == Ok([d.(origin := Some(o))])
  {
    assert |d.url| > 0 by {
      var (scheme, rest) := SplitScheme(d.url);
      assert |Lower(scheme)| == |scheme|;
    }
    StripLine(d);
    ParseFields(d, o);
    ParseSingleLine(Line(d), o);
  }

  /** A source's line is one significant line whose stripped form is its fields joined
      by single spaces. */
  lemma StripLine(d: DataSource)
    requires d.kind == TypeYaml && |d.url| > 0 && FreeOf(d.url, Whitespace)
    requires forall i :: 0 <= i < |d.tags| ==> |d.tags[i]| > 0 && FreeOf(d.tags[i], Whitespace)
    ensures Strip(Line(d)) == Join([TypeYaml, d.url] + d.tags, ' ')
    ensures FreeOf(Line(d), {'\n'}) && !Skipped(Line(d))
  {
    var fields := [TypeYaml, d.url] + d.tags;
    var stripped := Join(fields, ' ');
    LineFields(d);
    if d.tags == [] {
      StripTrailingSpace(stripped);
    } else {
      StripKeeps(stripped);
    }
    TypeYamlWordFree();
    FreeOfCons2(TypeYaml, d.url, d.tags, Whitespace);
    FreeOfSubset(fields, Whitespace, {'\n'});
    JoinFree(fields, ' ', {'\n'});
  }

  /** The fields of a valid source, joined by spaces, parse into that source. */
  lemma ParseFields(d: DataSource, o: string)
    requires NewDataSource(d.kind, d.url, Some(d.tags), d.origin).Ok?
    requires FreeOf(d.url, Whitespace)
    requires forall i :: 0 <= i < |d.tags| ==> FreeOf(d.tags[i], Whitespace)
    ensures ParseLine(Join([TypeYaml, d.url] + d.tags, ' '), o) == Ok(d.(origin := Some(o)))
  {
    var fields := [TypeYaml, d.url] + d.tags;
    TypeYamlWordFree();
    FreeOfCons2(TypeYaml, d.url, d.tags, Whitespace);
    FreeOfSubset(fields, Whitespace, {' '});
    SplitJoin(fields, ' ');
    assert fields[2..] == d.tags;
  }

  /** Data of one significant line parses into that line's source alone. */
  lemma ParseSingleLine(line: string, o: string)
    requires FreeOf(line, {'\n'}) && !Skipped(line) && ParseLine(Strip(line), o).Ok?
    ensures ParseSourcesData(line, o) == Ok([ParseLine(Strip(line), o).value])
  {
    SplitFree(line, '\n');
    var d := ParseLine(Strip(line), o).value;
    assert [line][0] == line && [line][1..] == [];
    assert ParseLines([], o) == Ok([]);
    assert ParseLines([line], o) == Ok([d] + []);
    assert [d] + [] == [d];
    assert ParseSourcesData(line, o) == ParseLines([line], o);
  }
}
