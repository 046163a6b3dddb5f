/*
 * The rudimentary HTTP request reader `Header`: the request line and the
 * `name: value` lines are matched by one regular expression; names are
 * lower-cased, values trimmed, `cookie` lines split into cookies and every
 * other line added to a case-insensitive name/value collection; the
 * protocol is chosen from the last segment of the request path.
 *
 * The regular expression is replaced by a hand-written matcher that makes
 * the same (deterministic) choices as the backtracking engine: every
 * character class in the pattern is followed by a character outside it,
 * so each greedy run must be maximal.
 */
module Headers {
  import opened Prelude
  import opened Text

  /** `Protocol`: None (-1), WebSocket (0), FlashSocket (1). */
  datatype Protocol = NoProtocol | WebSocket | FlashSocket

  // ---------------------------------------------------------------------
  // The request pattern

  /** `[^\s]` */
  predicate NotSpace(c: char)
  {
    !IsWhiteSpace(c)
  }

  /** `[^:\r\n]` */
  predicate NameChar(c: char)
  {
    c != ':' && c != '\r' && c != '\n'
  }

  /** `[^\r\n]` */
  predicate ValueChar(c: char)
  {
    c != '\r' && c != '\n'
  }

  predicate All(s: string, inClass: char -> bool)
  {
    forall i :: 0 <= i < |s| ==> inClass(s[i])
  }

  /** Length of the longest prefix of `s` inside the class: what a greedy `[...]+` takes. */
  function Span(s: string, inClass: char -> bool): (n: nat)
    ensures n <= |s|
    ensures n < |s| ==> !inClass(s[n])
  {
    if s == [] || !inClass(s[0]) then 0 else 1 + Span(s[1..], inClass)
  }

  /** Everything the run takes is inside the class. */
  lemma {:induction false} SpanInClass(s: string, inClass: char -> bool)
    ensures All(s[..Span(s, inClass)], inClass)
  {
    if s != [] && inClass(s[0]) {
      SpanInClass(s[1..], inClass);
      var n := Span(s, inClass);
      assert forall i :: 1 <= i < n ==> s[..n][i] == s[1..][..n - 1][i - 1];
    }
  }

  /** A class run followed by a character outside the class is taken whole. */
  lemma {:induction false} SpanPrefix(t: string, rest: string, inClass: char -> bool)
    requires All(t, inClass) && (rest == [] || !inClass(rest[0]))
    ensures Span(t + rest, inClass) == |t|
  {
    if t != [] {
      assert (t + rest)[1..] == t[1..] + rest;
      SpanPrefix(t[1..], rest, inClass);
    }
  }

  const HttpVersion: string := "HTTP/1.1\r\n"

  /** One captured `field_name:field_value CRLF` line. */
  datatype FieldLine = FieldLine(name: string, value: string)

  function LineText(l: FieldLine): string
  {
    l.name + ":" + l.value + "\r\n"
  }

  predicate ValidLine(l: FieldLine)
  {
    |l.name| > 0 && All(l.name, NameChar) && |l.value| > 0 && All(l.value, ValueChar)
  }

  /** The text of the field lines `ls` followed by `rest`. */
  function LinesText(ls: seq<FieldLine>, rest: string): string
  {
    if ls == [] then rest else LineText(ls[0]) + LinesText(ls[1..], rest)
  }

  /** One more repetition of the field-line group at the start of `s`, if it matches. */
  function MatchLine(s: string): (r: Option<FieldLine>)
    ensures r.Some? ==> |LineText(r.value)| <= |s|
  {
    var n := Span(s, NameChar);
    if n == 0 || n == |s| || s[n] != ':' then None
    else
      var rest := s[n + 1..];
      var v := Span(rest, ValueChar);
      if v == 0 || v + 2 > |rest| || rest[v] != '\r' || rest[v + 1] != '\n' then None
      else Some(FieldLine(s[..n], rest[..v]))
  }

  /** A matched line is well formed and is the text at the start of the input. */
  lemma MatchLineSound(s: string)
    requires MatchLine(s).Some?
    ensures var l := MatchLine(s).value; ValidLine(l) && s == LineText(l) + s[|LineText(l)|..]
  {
    var n := Span(s, NameChar);
    var rest := s[n + 1..];
    var v := Span(rest, ValueChar);
    SpanInClass(s, NameChar);
    SpanInClass(rest, ValueChar);
    var l := FieldLine(s[..n], rest[..v]);
    assert s == s[..n] + [':'] + rest[..v] + "\r\n" + s[|LineText(l)|..];
  }

  /** The greedy `( ... )+` over field lines: every line that matches, in order. */
  function MatchLines(s: string): seq<FieldLine>
    decreases |s|
  {
    match MatchLine(s)
    case None => []
    case Some(l) => [l] + MatchLines(s[|LineText(l)|..])
  }

  /** The matched lines are well formed and are the text at the start of the input. */
  lemma {:induction false} MatchLinesSound(s: string)
    ensures var ls := MatchLines(s);
      (forall i :: 0 <= i < |ls| ==> ValidLine(ls[i])) &&
      exists rest :: s == LinesText(ls, rest) && MatchLine(rest).None?
    decreases |s|
  {
    match MatchLine(s)
    case None =>
      assert s == LinesText([], s);
    case Some(l) =>
      MatchLineSound(s);
      var k := |LineText(l)|;
      var tail := MatchLines(s[k..]);
      MatchLinesSound(s[k..]);
      var rest :| s[k..] == LinesText(tail, rest) && MatchLine(rest).None?;
      var ls := [l] + tail;
      assert ls[0] == l && ls[1..] == tail;
      assert s == LinesText(ls, rest);
  }

  lemma MatchLineText(l: FieldLine, rest: string)
    requires ValidLine(l)
    ensures MatchLine(LineText(l) + rest) == Some(l)
  {
    var s := LineText(l) + rest;
    assert s == l.name + ([':'] + l.value + "\r\n" + rest);
    SpanPrefix(l.name, [':'] + l.value + "\r\n" + rest, NameChar);
    var n := |l.name|;
    assert s[n] == ':';
    assert s[n + 1..] == l.value + ("\r\n" + rest);
    SpanPrefix(l.value, "\r\n" + rest, ValueChar);
  }

  lemma MatchLinesCons(l: FieldLine, t: string)
    requires ValidLine(l)
    ensures MatchLines(LineText(l) + t) == [l] + MatchLines(t)
  {
    MatchLineText(l, t);
    assert (LineText(l) + t)[|LineText(l)|..] == t;
  }

  lemma MatchLinesStep(l: FieldLine, tail: seq<FieldLine>, rest: string)
    requires ValidLine(l)
    requires MatchLines(LinesText(tail, rest)) == tail + MatchLines(rest)
    ensures MatchLines(LineText(l) + LinesText(tail, rest)) == [l] + tail + MatchLines(rest)
  {
    MatchLinesCons(l, LinesText(tail, rest));
  }

  /** Field lines followed by anything: the lines are matched, then matching goes on in what follows. */
  lemma {:induction false} MatchLinesText(ls: seq<FieldLine>, rest: string)
    requires forall i :: 0 <= i < |ls| ==> ValidLine(ls[i])
    ensures MatchLines(LinesText(ls, rest)) == ls + MatchLines(rest)
  {
    if ls != [] {
      MatchLinesText(ls[1..], rest);
      MatchLinesStep(ls[0], ls[1..], rest);
      assert [ls[0]] + ls[1..] == ls;
    }
  }

  /** What a successful match captured: the `connect` and `path` groups, the separators and the lines. */
  datatype RequestMatch = RequestMatch(connect: string, sep1: char, path: string, sep2: char,
                                       version: string, lines: seq<FieldLine>)

  predicate ValidMatch(m: RequestMatch)
  {
    |m.connect| > 0 && All(m.connect, NotSpace) && IsWhiteSpace(m.sep1) &&
    |m.path| > 0 && All(m.path, NotSpace) && IsWhiteSpace(m.sep2) &&
    EqualsIgnoreCase(m.version, HttpVersion) &&
    |m.lines| > 0 && forall i :: 0 <= i < |m.lines| ==> ValidLine(m.lines[i])
  }

  /** The text of a request line and its field lines, followed by `rest`. */
  function RequestText(m: RequestMatch, rest: string): string
  {
    m.connect + ([m.sep1] + (m.path + ([m.sep2] + (m.version + LinesText(m.lines, rest)))))
  }

  /** `HTTP/1.1 CRLF` (any case) and at least one field line. */
  function MatchVersion(s: string): Option<(string, seq<FieldLine>)>
  {
    if |s| < |HttpVersion| || !EqualsIgnoreCase(s[..|HttpVersion|], HttpVersion) then None
    else
      var lines := MatchLines(s[|HttpVersion|..]);
      if lines == [] then None else Some((s[..|HttpVersion|], lines))
  }

  /** The `path` group, one white-space character, then the version and the lines. */
  function MatchPath(s: string): Option<(string, char, string, seq<FieldLine>)>
  {
    var p := Span(s, NotSpace);
    if p == 0 || p == |s| then None
    else
      match MatchVersion(s[p + 1..])
      case None => None
      case Some((version, lines)) => Some((s[..p], s[p], version, lines))
  }

  /** `Regex.Match(data)` for the request pattern with IgnoreCase; None when there is no match. */
  function MatchRequest(data: string): Option<RequestMatch>
  {
    var c := Span(data, NotSpace);
    if c == 0 || c == |data| then None
    else
      match MatchPath(data[c + 1..])
      case None => None
      case Some((path, sep2, version, lines)) => Some(RequestMatch(data[..c], data[c], path, sep2, version, lines))
  }

  /** A string is what precedes position `i`, the character there, and what follows. */
  lemma Around(s: string, i: nat)
    requires i < |s|
    ensures s == s[..i] + ([s[i]] + s[i + 1..])
  {
  }

  lemma MatchVersionSound(s: string)
    requires MatchVersion(s).Some?
    ensures var (version, ls) := MatchVersion(s).value;
      EqualsIgnoreCase(version, HttpVersion) && |ls| > 0 && (forall i :: 0 <= i < |ls| ==> ValidLine(ls[i])) &&
      exists rest :: s == version + LinesText(ls, rest) && MatchLine(rest).None?
  {
    var k := |HttpVersion|;
    var ls := MatchLines(s[k..]);
    MatchLinesSound(s[k..]);
    var rest :| s[k..] == LinesText(ls, rest) && MatchLine(rest).None?;
    assert s == s[..k] + LinesText(ls, rest);
  }

  lemma MatchPathSound(s: string)
    requires MatchPath(s).Some?
    ensures var (path, sep2, version, ls) := MatchPath(s).value;
      |path| > 0 && All(path, NotSpace) && IsWhiteSpace(sep2) &&
      EqualsIgnoreCase(version, HttpVersion) && |ls| > 0 && (forall i :: 0 <= i < |ls| ==> ValidLine(ls[i])) &&
      exists rest :: s == path + ([sep2] + (version + LinesText(ls, rest))) && MatchLine(rest).None?
  {
    var p := Span(s, NotSpace);
    SpanInClass(s, NotSpace);
    MatchVersionSound(s[p + 1..]);
    var (version, ls) := MatchVersion(s[p + 1..]).value;
    var rest :| s[p + 1..] == version + LinesText(ls, rest) && MatchLine(rest).None?;
    Around(s, p);
  }

  /** Every match is a well-formed request line with field lines at the start of the input. */
  lemma MatchRequestSound(data: string)
    requires MatchRequest(data).Some?
    ensures var m := MatchRequest(data).value;
      ValidMatch(m) && exists rest :: data == RequestText(m, rest) && MatchLine(rest).None?
  {
    var m := MatchRequest(data).value;
    var c := Span(data, NotSpace);
    SpanInClass(data, NotSpace);
    MatchPathSound(data[c + 1..]);
    var rest :| data[c + 1..] == m.path + ([m.sep2] + (m.version + LinesText(m.lines, rest))) && MatchLine(rest).None?;
    Around(data, c);
  }

  lemma MatchVersionText(version: string, ls: seq<FieldLine>, rest: string)
    requires EqualsIgnoreCase(version, HttpVersion) && |ls| > 0 && forall i :: 0 <= i < |ls| ==> ValidLine(ls[i])
    ensures MatchVersion(version + LinesText(ls, rest)) == Some((version, ls + MatchLines(rest)))
  {
    var s := version + LinesText(ls, rest);
    assert s[..|HttpVersion|] == version && s[|HttpVersion|..] == LinesText(ls, rest);
    MatchLinesText(ls, rest);
  }

  lemma MatchPathText(path: string, sep2: char, version: string, ls: seq<FieldLine>, rest: string)
    requires |path| > 0 && All(path, NotSpace) && IsWhiteSpace(sep2)
    requires EqualsIgnoreCase(version, HttpVersion) && |ls| > 0 && forall i :: 0 <= i < |ls| ==> ValidLine(ls[i])
    ensures MatchPath(path + ([sep2] + (version + LinesText(ls, rest)))) == Some((path, sep2, version, ls + MatchLines(rest)))
  {
    var t := version + LinesText(ls, rest);
    var s := path + ([sep2] + t);
    SpanPrefix(path, [sep2] + t, NotSpace);
    assert s[..|path|] == path && s[|path|] == sep2 && s[|path| + 1..] == t;
    MatchVersionText(version, ls, rest);
  }

  /**
   * Every well-formed request line with field lines matches, whatever
   * follows; the captured lines are the given ones followed by whatever
   * further lines the rest supplies.
   */
  lemma MatchRequestText(m: RequestMatch, rest: string)
    requires ValidMatch(m)
    ensures MatchRequest(RequestText(m, rest)) == Some(m.(lines := m.lines + MatchLines(rest)))
  {
    var t := m.path + ([m.sep2] + (m.version + LinesText(m.lines, rest)));
    var data := RequestText(m, rest);
    SpanPrefix(m.connect, [m.sep1] + t, NotSpace);
    assert data[..|m.connect|] == m.connect && data[|m.connect|] == m.sep1 && data[|m.connect| + 1..] == t;
    MatchPathText(m.path, m.sep2, m.version, m.lines, rest);
  }

  /** A match succeeds exactly when the input starts with a well-formed request line and field lines. */
  lemma MatchRequestIff(data: string)
    ensures MatchRequest(data).Some? <==> exists m, rest :: ValidMatch(m) && data == RequestText(m, rest)
  {
    if MatchRequest(data).Some? {
      MatchRequestSound(data);
    }
    if m, rest :| ValidMatch(m) && data == RequestText(m, rest) {
      MatchRequestText(m, rest);
    }
  }

  // ---------------------------------------------------------------------
  // NameValueCollection (case-insensitive keys; Add accumulates, Set replaces)

  /** One key of the collection with its values in order (a null set through the indexer is None). */
  datatype Entry = Entry(key: string, values: seq<Option<string>>)

  /** Position of the first entry whose key equals `lowKey` ignoring case, or -1. */
  function FindLower(entries: seq<Entry>, lowKey: string): (i: int)
    ensures -1 <= i < |entries|
    ensures i >= 0 ==> ToLower(entries[i].key) == lowKey
    ensures i >= 0 ==> forall j :: 0 <= j < i ==> ToLower(entries[j].key) != lowKey
    ensures i < 0 ==> forall j :: 0 <= j < |entries| ==> ToLower(entries[j].key) != lowKey
  {
    if entries == [] then -1
    else if ToLower(entries[0].key) == lowKey then 0
    else
      var i := FindLower(entries[1..], lowKey);
      if i < 0 then -1 else i + 1
  }

  /** The values stored under `key` (compared ignoring case), oldest first. */
  function ValuesOf(entries: seq<Entry>, key: string): seq<Option<string>>
  {
    var i := FindLower(entries, ToLower(key));
    if i < 0 then [] else entries[i].values
  }

  /** `NameValueCollection.Add(key, value)`. */
  function AddValue(entries: seq<Entry>, key: string, value: Option<string>): seq<Entry>
  {
    var i := FindLower(entries, ToLower(key));
    if i < 0 then entries + [Entry(key, [value])]
    else entries[i := entries[i].(values := entries[i].values + [value])]
  }

  /** `NameValueCollection.Set(key, value)`, the indexer's setter. */
  function SetValue(entries: seq<Entry>, key: string, value: Option<string>): seq<Entry>
  {
    var i := FindLower(entries, ToLower(key));
    if i < 0 then entries + [Entry(key, [value])]
    else entries[i := entries[i].(values := [value])]
  }

  /** The values as one string: null for none, the value itself for one, else comma-joined with null as empty. */
  function JoinValues(vs: seq<Option<string>>): Option<string>
  {
    if vs == [] then None
    else if |vs| == 1 then vs[0]
    else Some(Join(seq(|vs|, i requires 0 <= i < |vs| => vs[i].GetOr("")), ","))
  }

  /** `NameValueCollection.Get(key)`, the indexer's getter. */
  function GetValue(entries: seq<Entry>, key: string): Option<string>
  {
    JoinValues(ValuesOf(entries, key))
  }

  lemma ToLowerTwice(s: string)
    ensures ToLower(ToLower(s)) == ToLower(s)
  {
  }

  /** Appending an entry changes a lookup only when no earlier key matched. */
  lemma {:induction false} FindLowerAppend(entries: seq<Entry>, e: Entry, lowKey: string)
    ensures FindLower(entries + [e], lowKey) ==
      if FindLower(entries, lowKey) >= 0 then FindLower(entries, lowKey)
      else if ToLower(e.key) == lowKey then |entries| else -1
  {
    var s := entries + [e];
    if entries == [] {
      assert s == [e] && s[1..] == [];
    } else {
      assert s[0] == entries[0] && s[1..] == entries[1..] + [e];
      FindLowerAppend(entries[1..], e, lowKey);
    }
  }

  /** Lookups only see the keys: changing values leaves every lookup where it was. */
  lemma {:induction false} FindLowerSameKeys(a: seq<Entry>, b: seq<Entry>, lowKey: string)
    requires |a| == |b| && forall m :: 0 <= m < |a| ==> a[m].key == b[m].key
    ensures FindLower(a, lowKey) == FindLower(b, lowKey)
  {
    if a != [] {
      FindLowerSameKeys(a[1..], b[1..], lowKey);
    }
  }

  /** Add appends `value` to the values of its own key and changes no other key's values. */
  lemma ValuesAfterAdd(entries: seq<Entry>, key: string, value: Option<string>, query: string)
    ensures ValuesOf(AddValue(entries, key, value), query) ==
      ValuesOf(entries, query) + (if ToLower(key) == ToLower(query) then [value] else [])
  {
    var k, q := ToLower(key), ToLower(query);
    var i := FindLower(entries, k);
    var after := AddValue(entries, key, value);
    if i < 0 {
      FindLowerAppend(entries, Entry(key, [value]), q);
    } else {
      FindLowerSameKeys(entries, after, q);
    }
  }

  /** Set makes `value` the only value of its key and changes no other key's values. */
  lemma ValuesAfterSet(entries: seq<Entry>, key: string, value: Option<string>, query: string)
    ensures ValuesOf(SetValue(entries, key, value), query) ==
      if ToLower(key) == ToLower(query) then [value] else ValuesOf(entries, query)
  {
    var k, q := ToLower(key), ToLower(query);
    var i := FindLower(entries, k);
    var after := SetValue(entries, key, value);
    if i < 0 {
      FindLowerAppend(entries, Entry(key, [value]), q);
    } else {
      FindLowerSameKeys(entries, after, q);
    }
  }

  /** A key never added reads as null; after Set it reads back exactly what was set. */
  lemma GetAfterSet(entries: seq<Entry>, key: string, value: Option<string>)
    ensures GetValue(SetValue(entries, key, value), key) == value
  {
    ValuesAfterSet(entries, key, value, key);
  }

  lemma JoinSnoc(parts: seq<string>, x: string, sep: string)
    requires parts != []
    ensures Join(parts + [x], sep) == Join(parts, sep) + sep + x
  {
    if |parts| == 1 {
      assert (parts + [x])[1..] == [x];
    } else {
      assert (parts + [x])[1..] == parts[1..] + [x];
      JoinSnoc(parts[1..], x, sep);
    }
  }

  /** Two adds under one key read back comma-joined, the earlier value first. */
  lemma GetAfterTwoAdds(entries: seq<Entry>, key: string, a: string, b: string)
    requires ValuesOf(entries, key) == []
    ensures GetValue(AddValue(AddValue(entries, key, Some(a)), key, Some(b)), key) == Some(a + "," + b)
  {
    ValuesAfterAdd(entries, key, Some(a), key);
    ValuesAfterAdd(AddValue(entries, key, Some(a)), key, Some(b), key);
    var vs := [Some(a), Some(b)];
    assert ValuesOf(AddValue(AddValue(entries, key, Some(a)), key, Some(b)), key) == vs;
    assert seq(|vs|, i requires 0 <= i < |vs| => vs[i].GetOr("")) == [a, b];
    assert [a, b][1..] == [b];
    assert Join([a, b], ",") == a + "," + b;
  }

  // ---------------------------------------------------------------------
  // Cookies

  /** An `HttpCookie` with its name and value. */
  datatype Cookie = Cookie(name: string, value: string)

  /** One `;`-separated segment: split at the first `=`, name TrimStart-ed; None where Remove(-1) throws. */
  function CookieOf(segment: string): Option<Cookie>
  {
    var i := IndexOf(segment, '=');
    if i < 0 then None else Some(Cookie(TrimStart(segment[..i]), segment[i + 1..]))
  }

  /** The cookie a segment adds: none or one. */
  function CookieList(segment: string): (r: seq<Cookie>)
    ensures |r| <= 1
  {
    match CookieOf(segment)
    case Some(c) => [c]
    case None => []
  }

  function CookiesOfSegments(segments: seq<string>): seq<Cookie>
  {
    if segments == [] then [] else CookieList(segments[0]) + CookiesOfSegments(segments[1..])
  }

  /** The cookies a `cookie` field value yields, in order. */
  function ParseCookies(value: string): seq<Cookie>
  {
    CookiesOfSegments(Split(value, ';'))
  }

  lemma {:induction false} CookiesOfSegmentsSnoc(segments: seq<string>, s: string)
    ensures CookiesOfSegments(segments + [s]) == CookiesOfSegments(segments) + CookieList(s)
  {
    var all := segments + [s];
    if segments != [] {
      assert all[0] == segments[0] && all[1..] == segments[1..] + [s];
      CookiesOfSegmentsSnoc(segments[1..], s);
      assert CookiesOfSegments(all) == CookieList(segments[0]) + CookiesOfSegments(segments[1..] + [s]);
    } else {
      assert all == [s] && all[1..] == [];
    }
  }

  /** The text of a cookie list: `name=value` pairs joined with `;`. */
  function CookieText(cs: seq<Cookie>): string
  {
    Join(seq(|cs|, i requires 0 <= i < |cs| => cs[i].name + "=" + cs[i].value), ";")
  }

  predicate PlainCookie(c: Cookie)
  {
    '=' !in c.name && ';' !in c.name && (c.name == [] || !IsWhiteSpace(c.name[0])) && ';' !in c.value
  }

  lemma {:induction false} SplitJoin(parts: seq<string>, sep: char)
    requires parts != [] && forall k :: 0 <= k < |parts| ==> sep !in parts[k]
    ensures Split(Join(parts, [sep]), sep) == parts
  {
    if |parts| > 1 {
      var s := Join(parts, [sep]);
      var rest := Join(parts[1..], [sep]);
      assert s == parts[0] + [sep] + rest;
      IndexOfAfter(parts[0], sep, rest);
      assert s[..|parts[0]|] == parts[0] && s[|parts[0]| + 1..] == rest;
      SplitJoin(parts[1..], sep);
      assert parts == [parts[0]] + parts[1..];
    } else {
      IndexOfAbsent(parts[0], sep);
    }
  }

  lemma CookieOfText(c: Cookie)
    requires PlainCookie(c)
    ensures CookieOf(c.name + "=" + c.value) == Some(c)
  {
    var s := c.name + "=" + c.value;
    IndexOfAfter(c.name, '=', c.value);
    assert s[..|c.name|] == c.name;
    assert s[|c.name| + 1..] == c.value;
    TrimStartNoEdge(c.name);
  }

  /** Splitting the text of plain cookies gives the same cookies back. */
  lemma {:induction false} ParseCookieText(cs: seq<Cookie>)
    requires |cs| > 0 && forall i :: 0 <= i < |cs| ==> PlainCookie(cs[i])
    ensures ParseCookies(CookieText(cs)) == cs
  {
    var texts := seq(|cs|, i requires 0 <= i < |cs| => cs[i].name + "=" + cs[i].value);
    assert forall k :: 0 <= k < |texts| ==> ';' !in texts[k] by {
      forall k | 0 <= k < |texts|
        ensures ';' !in texts[k]
      {
        assert texts[k] == cs[k].name + "=" + cs[k].value;
      }
    }
    SplitJoin(texts, ';');
    CookiesOfTexts(cs, texts);
  }

  lemma {:induction false} CookiesOfTexts(cs: seq<Cookie>, texts: seq<string>)
    requires |texts| == |cs| && forall i :: 0 <= i < |cs| ==> PlainCookie(cs[i]) && texts[i] == cs[i].name + "=" + cs[i].value
    ensures CookiesOfSegments(texts) == cs
  {
    if cs != [] {
      CookieOfText(cs[0]);
      CookiesOfTexts(cs[1..], texts[1..]);
    }
  }

  /** A segment without `=` contributes no cookie; the segments after it still do. */
  lemma DropBadSegment(segment: string, rest: string)
    requires '=' !in segment && ';' !in segment
    ensures ParseCookies(segment + ";" + rest) == ParseCookies(rest)
  {
    var s := segment + ";" + rest;
    IndexOfAfter(segment, ';', rest);
    assert s[..|segment|] == segment && s[|segment| + 1..] == rest;
    assert Split(s, ';') == [segment] + Split(rest, ';');
    IndexOfAbsent(segment, '=');
  }

  // ---------------------------------------------------------------------
  // Protocol detection

  /** The protocol named by the last `/`-segment of the path, lower-cased and trimmed. */
  function DetectProtocol(path: string): Protocol
  {
    var protocolString := Trim(ToLower(LastPiece(path, '/')));
    if protocolString == "websocket" then WebSocket
    else if protocolString == "flashsocket" then FlashSocket
    else NoProtocol
  }

  lemma {:induction false} SplitAppend(a: string, b: string, sep: char)
    ensures Split(a + [sep] + b, sep) == Split(a, sep) + Split(b, sep)
    decreases |a|
  {
    var s := a + [sep] + b;
    var i := IndexOf(a, sep);
    IndexOfFacts(a, sep);
    if i < 0 {
      IndexOfAfter(a, sep, b);
      assert s[..|a|] == a && s[|a| + 1..] == b;
    } else {
      assert s == a[..i] + [sep] + (a[i + 1..] + [sep] + b);
      IndexOfAfter(a[..i], sep, a[i + 1..] + [sep] + b);
      assert s[..i] == a[..i] && s[i + 1..] == a[i + 1..] + [sep] + b;
      SplitAppend(a[i + 1..], b, sep);
    }
  }

  /** Only the last segment decides: whatever precedes the last `/` is ignored. */
  lemma ProtocolOfLastSegment(prefix: string, segment: string)
    requires '/' !in segment
    ensures DetectProtocol(prefix + "/" + segment) == DetectProtocol(segment)
  {
    SplitAppend(prefix, segment, '/');
    IndexOfAbsent(segment, '/');
  }

  // ---------------------------------------------------------------------
  // The parsed header

  /** The fields of `Header`: Method, Protocol, RequestPath, Cookies and the field collection. */
  datatype HeaderView = HeaderView(requestMethod: string, protocol: Protocol, requestPath: string,
                                   cookies: seq<Cookie>, fields: seq<Entry>)

  const EmptyHeader := HeaderView("", NoProtocol, "", [], [])

  /** The field collection after adding every non-cookie line, name lower-cased and value trimmed. */
  function FieldsOf(lines: seq<FieldLine>): seq<Entry>
  {
    if lines == [] then []
    else
      var prev := FieldsOf(lines[..|lines| - 1]);
      var l := lines[|lines| - 1];
      if ToLower(l.name) == "cookie" then prev else AddValue(prev, ToLower(l.name), Some(Trim(l.value)))
  }

  /** The cookies of every `cookie` line, in order. */
  function CookiesOf(lines: seq<FieldLine>): seq<Cookie>
  {
    if lines == [] then []
    else
      var prev := CookiesOf(lines[..|lines| - 1]);
      var l := lines[|lines| - 1];
      if ToLower(l.name) == "cookie" then prev + ParseCookies(Trim(l.value)) else prev
  }

  /** `new Header(data)`; on no match the exception leaves every default in place. */
  function Parse(data: string): HeaderView
  {
    match MatchRequest(data)
    case None => EmptyHeader
    case Some(m) =>
      var path := Trim(m.path);
      HeaderView(Trim(m.connect), DetectProtocol(path), path, CookiesOf(m.lines), FieldsOf(m.lines))
  }

  /** Values of the non-cookie lines whose name equals `key` ignoring case, trimmed, in order. */
  function LineValues(lines: seq<FieldLine>, key: string): seq<Option<string>>
  {
    if lines == [] then []
    else
      var l := lines[|lines| - 1];
      LineValues(lines[..|lines| - 1], key) +
        (if ToLower(l.name) != "cookie" && ToLower(l.name) == ToLower(key) then [Some(Trim(l.value))] else [])
  }

  /**
   * Every non-cookie line is kept: the values stored under a name are the
   * trimmed values of all lines with that name, so repeated names
   * accumulate; a name without lines has no values and reads as null.
   */
  lemma {:induction false} FieldsOfValues(lines: seq<FieldLine>, key: string)
    ensures ValuesOf(FieldsOf(lines), key) == LineValues(lines, key)
  {
    if lines != [] {
      var init := lines[..|lines| - 1];
      var l := lines[|lines| - 1];
      FieldsOfValues(init, key);
      if ToLower(l.name) != "cookie" {
        ValuesAfterAdd(FieldsOf(init), ToLower(l.name), Some(Trim(l.value)), key);
        ToLowerTwice(l.name);
      }
    }
  }

  /** Stored names are lower case and never `cookie`. */
  lemma {:induction false} FieldsOfKeys(lines: seq<FieldLine>)
    ensures forall i :: 0 <= i < |FieldsOf(lines)| ==>
      IsLower(FieldsOf(lines)[i].key) && FieldsOf(lines)[i].key != "cookie"
  {
    if lines != [] {
      var init := lines[..|lines| - 1];
      var l := lines[|lines| - 1];
      FieldsOfKeys(init);
      var prev := FieldsOf(init);
      if ToLower(l.name) != "cookie" {
        var k := ToLower(l.name);
        ToLowerIsLower(l.name);
        var i := FindLower(prev, ToLower(k));
        if i >= 0 {
          assert forall j :: 0 <= j < |prev| ==> AddValue(prev, k, Some(Trim(l.value)))[j].key == prev[j].key;
        }
      }
    }
  }

  /** A `cookie` line never reaches the field collection. */
  lemma CookieNeverAField(lines: seq<FieldLine>, key: string)
    requires ToLower(key) == "cookie"
    ensures GetValue(FieldsOf(lines), key) == None
  {
    FieldsOfValues(lines, key);
    NoCookieValues(lines, key);
  }

  lemma {:induction false} NoCookieValues(lines: seq<FieldLine>, key: string)
    requires ToLower(key) == "cookie"
    ensures LineValues(lines, key) == []
  {
    if lines != [] {
      NoCookieValues(lines[..|lines| - 1], key);
    }
  }

  lemma TrimPlain(s: string)
    requires |s| > 0 && All(s, NotSpace)
    ensures Trim(s) == s
  {
    TrimNoEdges(s);
  }

  /**
   * Method and RequestPath are the captured tokens, so both are non-empty
   * exactly when the request matched; otherwise every default stays.
   */
  lemma ParseOutcome(data: string)
    ensures var h := Parse(data);
      match MatchRequest(data)
      case None => h == EmptyHeader
      case Some(m) =>
        h.requestMethod == m.connect && h.requestPath == m.path && h.requestMethod != [] &&
        h.protocol == DetectProtocol(m.path)
  {
    match MatchRequest(data)
    case None =>
    case Some(m) =>
      MatchRequestSound(data);
      TrimPlain(m.connect);
      TrimPlain(m.path);
  }

  // ---------------------------------------------------------------------
  // The class

  class Header {
    var requestMethod: string
    var protocol: Protocol
    var requestPath: string
    var cookies: seq<Cookie>
    var fields: seq<Entry>

    function View(): HeaderView
      reads this
    {
      HeaderView(requestMethod, protocol, requestPath, cookies, fields)
    }

    /** `new Header(data)`: the captured lines are stored one by one, then the request line. */
    constructor (data: string)
      ensures View() == Parse(data)
    {
      requestMethod, protocol, requestPath, cookies, fields := "", NoProtocol, "", [], [];
      new;
      var m := MatchRequest(data);
      var lines := if m.Some? then m.value.lines else [];
      for i := 0 to |lines|
        invariant cookies == CookiesOf(lines[..i]) && fields == FieldsOf(lines[..i])
        invariant requestMethod == "" && protocol == NoProtocol && requestPath == ""
      {
        assert lines[..i + 1][..i] == lines[..i];
        var name := ToLower(lines[i].name);
        var value := Trim(lines[i].value);
        if name == "cookie" {
          AddCookies(value);
        } else {
          fields := AddValue(fields, name, Some(value));
        }
      }
      assert lines[..|lines|] == lines;
      if m.None? {
        // Captures[0] of the empty `path` group throws; the handler swallows it
        return;
      }
      requestPath := Trim(m.value.path);
      requestMethod := Trim(m.value.connect);
      protocol := DetectProtocol(requestPath);
    }

    /** Splits a `cookie` value on `;` and adds every segment that has an `=`. */
    method AddCookies(value: string)
      modifies this
      ensures View() == old(View()).(cookies := old(cookies) + ParseCookies(value))
    {
      var cookieArray := Split(value, ';');
      for k := 0 to |cookieArray|
        invariant View() == old(View()).(cookies := old(cookies) + CookiesOfSegments(cookieArray[..k]))
      {
        assert cookieArray[..k + 1] == cookieArray[..k] + [cookieArray[k]];
        CookiesOfSegmentsSnoc(cookieArray[..k], cookieArray[k]);
        var aCookie := cookieArray[k];
        var i := IndexOf(aCookie, '=');
        if i >= 0 {
          cookies := cookies + [Cookie(TrimStart(aCookie[..i]), aCookie[i + 1..])];
        }
      }
      assert cookieArray[..|cookieArray|] == cookieArray;
    }

    /** The indexer's getter: the values under `key` joined with commas, or None. */
    function Get(key: string): Option<string>
      reads this
    {
      GetValue(fields, key)
    }

    /** The indexer's setter. */
    method Set(key: string, value: Option<string>)
      modifies this
      ensures View() == old(View()).(fields := SetValue(old(fields), key, value))
      ensures Get(key) == value
    {
      fields := SetValue(fields, key, value);
      GetAfterSet(old(fields), key, value);
    }
  }
}
