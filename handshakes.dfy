/*
 * The opening handshake: the client's request as `ClientHandshake` reads it
 * out of a parsed `Header`, the text both handshake classes print, the
 * accept key of section 4.2.2 of RFC 6455, and the ordered rejection rules
 * of `WebSocketAuthentication.CheckHandshake`.
 *
 * Both templates are a status or request line followed by `name: value`
 * lines and an empty line; they are written here as field lines, so that
 * the matcher of module Headers can read them back.
 */
module Handshakes {
  import opened Prelude
  import opened Text
  import opened Headers
  import Base64
  import Utf8

  /** `String.Format` writes a null argument as the empty string. */
  function Or(o: Option<string>): string
  {
    o.GetOr("")
  }

  /** A template line `name: value CRLF`, as a field line whose value starts with the space. */
  function Field(name: string, value: string): FieldLine
  {
    FieldLine(name, " " + value)
  }

  // ---------------------------------------------------------------------
  // ClientHandshake

  /** `ClientHandshake`; every reference field may be null. AdditionalFields is in iteration order. */
  datatype ClientHandshake = ClientHandshake(
    origin: Option<string>, host: Option<string>, resourcePath: Option<string>, key: Option<string>,
    cookies: Option<seq<Cookie>>, subProtocol: Option<string>,
    additionalFields: Option<seq<(string, string)>>)

  /** `new ClientHandshake(header)`: the request path, four fields and the cookies; AdditionalFields stays null. */
  function FromHeader(h: HeaderView): ClientHandshake
  {
    ClientHandshake(GetValue(h.fields, "sec-websocket-origin"), GetValue(h.fields, "host"), Some(h.requestPath),
                    GetValue(h.fields, "sec-websocket-key"), Some(h.cookies),
                    GetValue(h.fields, "sec-websocket-protocol"), None)
  }

  /** `IsValid()`: Host, Key, Origin and ResourcePath are all non-null (empty strings pass). */
  predicate IsValid(c: ClientHandshake)
  {
    c.host.Some? && c.key.Some? && c.origin.Some? && c.resourcePath.Some?
  }

  /** What the header's indexer reads for `key`, given the matched field lines. */
  function LineField(lines: seq<FieldLine>, key: string): Option<string>
  {
    JoinValues(LineValues(lines, key))
  }

  lemma {:induction false} LineValuesPresent(lines: seq<FieldLine>, key: string)
    ensures forall i :: 0 <= i < |LineValues(lines, key)| ==> LineValues(lines, key)[i].Some?
  {
    if lines != [] {
      LineValuesPresent(lines[..|lines| - 1], key);
    }
  }

  /** A field reads as non-null exactly when at least one line carries it. */
  lemma LineFieldPresent(lines: seq<FieldLine>, key: string)
    ensures LineField(lines, key).Some? <==> LineValues(lines, key) != []
  {
    LineValuesPresent(lines, key);
  }

  /**
   * The client handshake of a request: the matched path and the values of
   * the `sec-websocket-origin`, `host`, `sec-websocket-key` and
   * `sec-websocket-protocol` lines. A request that does not match gives the
   * header's defaults: an empty path, no cookies and every field null.
   */
  lemma ClientFromRequest(data: string)
    ensures var c := FromHeader(Parse(data));
      match MatchRequest(data)
      case None =>
        c == ClientHandshake(None, None, Some(""), None, Some([]), None, None)
      case Some(m) =>
        c == ClientHandshake(LineField(m.lines, "sec-websocket-origin"), LineField(m.lines, "host"), Some(m.path),
                             LineField(m.lines, "sec-websocket-key"), Some(CookiesOf(m.lines)),
                             LineField(m.lines, "sec-websocket-protocol"), None)
  {
    ParseOutcome(data);
    match MatchRequest(data)
    case None =>
    case Some(m) =>
      FieldsOfValues(m.lines, "sec-websocket-origin");
      FieldsOfValues(m.lines, "host");
      FieldsOfValues(m.lines, "sec-websocket-key");
      FieldsOfValues(m.lines, "sec-websocket-protocol");
  }

  /** A request gives a valid handshake exactly when it matched and has host, key and origin lines. */
  lemma ValidFromRequest(data: string)
    ensures IsValid(FromHeader(Parse(data))) <==>
      MatchRequest(data).Some? &&
      LineValues(MatchRequest(data).value.lines, "host") != [] &&
      LineValues(MatchRequest(data).value.lines, "sec-websocket-key") != [] &&
      LineValues(MatchRequest(data).value.lines, "sec-websocket-origin") != []
  {
    ClientFromRequest(data);
    if MatchRequest(data).Some? {
      var ls := MatchRequest(data).value.lines;
      LineFieldPresent(ls, "host");
      LineFieldPresent(ls, "sec-websocket-key");
      LineFieldPresent(ls, "sec-websocket-origin");
    }
  }

  // ---------------------------------------------------------------------
  // The printed handshakes

  /** Field lines, then more field lines, then the rest. */
  lemma {:induction false} LinesTextAppend(a: seq<FieldLine>, b: seq<FieldLine>, rest: string)
    ensures LinesText(a + b, rest) == LinesText(a, LinesText(b, rest))
  {
    if a != [] {
      assert (a + b)[0] == a[0] && (a + b)[1..] == a[1..] + b;
      LinesTextAppend(a[1..], b, rest);
    } else {
      assert a + b == b;
    }
  }

  /** The text of field lines, then the rest: the rest is a suffix. */
  lemma {:induction false} LinesTextSuffix(ls: seq<FieldLine>, rest: string)
    ensures LinesText(ls, rest) == LinesText(ls, "") + rest
  {
    if ls != [] {
      LinesTextSuffix(ls[1..], rest);
    }
  }

  /** The empty line that ends a handshake is no field line. */
  lemma BlankLineEnds()
    ensures MatchLines("\r\n") == []
  {
    assert Span("\r\n", NameChar) == 0;
  }

  /** `Cookie: {0}` formats the collection object itself, which prints its type name. */
  const CookieCollectionText := "System.Web.HttpCookieCollection"

  /** The loop over AdditionalFields: each pair is appended as one line. */
  method AppendFields(acc: string, fields: seq<(string, string)>) returns (r: string)
    ensures r == acc + FieldsText(fields)
  {
    r := acc;
    for i := 0 to |fields|
      invariant r + FieldsText(fields[i..]) == acc + FieldsText(fields)
    {
      var line := fields[i].0 + ": " + fields[i].1 + "\r\n";
      assert fields[i..][1..] == fields[i + 1..];
      assert FieldsText(fields[i..]) == line + FieldsText(fields[i + 1..]);
      Assoc(r, line, FieldsText(fields[i + 1..]));
      r := r + line;
    }
    assert fields[|fields|..] == [];
  }

  /** The additional fields, one `key: value CRLF` line each, in iteration order. */
  function FieldsText(fields: seq<(string, string)>): string
  {
    if fields == [] then "" else fields[0].0 + ": " + fields[0].1 + "\r\n" + FieldsText(fields[1..])
  }

  /** The Cookie line iff Cookies is non-null, then the subprotocol line iff SubProtocol is non-null. */
  function OptionalLinesText(c: ClientHandshake): string
  {
    (if c.cookies.Some? then "Cookie: " + CookieCollectionText + "\r\n" else "") +
    (if c.subProtocol.Some? then "Sec-Websocket-Protocol: " + c.subProtocol.value + "\r\n" else "")
  }

  /** The `{4}` argument: the optional lines, the additional fields and the empty line. */
  function ClientExtraText(c: ClientHandshake): string
  {
    OptionalLinesText(c) + FieldsText(c.additionalFields.GetOr([])) + "\r\n"
  }

  /** The request `ClientHandshake.ToString()` prints: the template with ResourcePath, Origin, Host, Key filled in. */
  function ClientText(c: ClientHandshake): string
  {
    "GET " + Or(c.resourcePath) + " HTTP/1.1\r\n" +
    "Upgrade: WebSocket\r\n" +
    "Connection: Upgrade\r\n" +
    "Origin: " + Or(c.origin) + "\r\n" +
    "Host: " + Or(c.host) + "\r\n" +
    "Sec-Websocket-Key: " + Or(c.key) + "\r\n" +
    ClientExtraText(c)
  }

  /** `ClientHandshake.ToString()`: the optional lines are accumulated, then the template is filled. */
  method ClientToString(c: ClientHandshake) returns (s: string)
    ensures s == ClientText(c)
  {
    var additionalFields := "";
    if c.cookies.Some? {
      additionalFields := additionalFields + "Cookie: " + CookieCollectionText + "\r\n";
    }
    if c.subProtocol.Some? {
      additionalFields := additionalFields + "Sec-Websocket-Protocol: " + c.subProtocol.value + "\r\n";
    }
    assert additionalFields == OptionalLinesText(c);
    if c.additionalFields.Some? {
      additionalFields := AppendFields(additionalFields, c.additionalFields.value);
    }
    assert additionalFields == OptionalLinesText(c) + FieldsText(c.additionalFields.GetOr([]));
    additionalFields := additionalFields + "\r\n";
    s := "GET " + Or(c.resourcePath) + " HTTP/1.1\r\n" +
         "Upgrade: WebSocket\r\n" +
         "Connection: Upgrade\r\n" +
         "Origin: " + Or(c.origin) + "\r\n" +
         "Host: " + Or(c.host) + "\r\n" +
         "Sec-Websocket-Key: " + Or(c.key) + "\r\n" +
         additionalFields;
  }

  // The same text as field lines

  function AdditionalLines(fields: seq<(string, string)>): (ls: seq<FieldLine>)
    ensures |ls| == |fields|
  {
    seq(|fields|, i requires 0 <= i < |fields| => Field(fields[i].0, fields[i].1))
  }

  /** The Cookie line iff Cookies is non-null, then the subprotocol line iff SubProtocol is non-null. */
  function OptionalLines(c: ClientHandshake): seq<FieldLine>
  {
    (if c.cookies.Some? then [Field("Cookie", CookieCollectionText)] else []) +
    (if c.subProtocol.Some? then [Field("Sec-Websocket-Protocol", c.subProtocol.value)] else [])
  }

  function ClientExtraLines(c: ClientHandshake): seq<FieldLine>
  {
    OptionalLines(c) + AdditionalLines(c.additionalFields.GetOr([]))
  }

  /** The header lines of the printed request, in order. */
  function ClientLines(c: ClientHandshake): seq<FieldLine>
  {
    [Field("Upgrade", "WebSocket"), Field("Connection", "Upgrade"), Field("Origin", Or(c.origin)),
     Field("Host", Or(c.host)), Field("Sec-Websocket-Key", Or(c.key))] + ClientExtraLines(c)
  }

  lemma FieldText(n: string, v: string)
    ensures LineText(Field(n, v)) == n + ": " + v + "\r\n"
  {
  }

  lemma Assoc(a: string, b: string, c: string)
    ensures (a + b) + c == a + (b + c)
  {
  }

  lemma {:induction false} FieldsTextLines(fields: seq<(string, string)>, rest: string)
    ensures FieldsText(fields) + rest == LinesText(AdditionalLines(fields), rest)
  {
    if fields != [] {
      var ls := AdditionalLines(fields);
      assert ls[1..] == AdditionalLines(fields[1..]);
      FieldsTextLines(fields[1..], rest);
      FieldText(fields[0].0, fields[0].1);
      var line := fields[0].0 + ": " + fields[0].1 + "\r\n";
      Assoc(line, FieldsText(fields[1..]), rest);
    }
  }

  lemma OptionalLinesAsText(c: ClientHandshake, rest: string)
    ensures LinesText(OptionalLines(c), rest) == OptionalLinesText(c) + rest
  {
    var a := if c.cookies.Some? then [Field("Cookie", CookieCollectionText)] else [];
    var b := if c.subProtocol.Some? then [Field("Sec-Websocket-Protocol", c.subProtocol.value)] else [];
    var ta := if c.cookies.Some? then "Cookie: " + CookieCollectionText + "\r\n" else "";
    var tb := if c.subProtocol.Some? then "Sec-Websocket-Protocol: " + c.subProtocol.value + "\r\n" else "";
    LinesTextAppend(a, b, rest);
    assert LinesText(b, rest) == tb + rest by {
      if c.subProtocol.Some? {
        FieldText("Sec-Websocket-Protocol", c.subProtocol.value);
        assert b[1..] == [];
      }
    }
    assert LinesText(a, tb + rest) == ta + (tb + rest) by {
      if c.cookies.Some? {
        FieldText("Cookie", CookieCollectionText);
        assert a[1..] == [];
      }
    }
    Assoc(ta, tb, rest);
  }

  lemma ExtraTextLines(c: ClientHandshake)
    ensures ClientExtraText(c) == LinesText(ClientExtraLines(c), "\r\n")
  {
    var fields := c.additionalFields.GetOr([]);
    var rest := LinesText(AdditionalLines(fields), "\r\n");
    FieldsTextLines(fields, "\r\n");
    LinesTextAppend(OptionalLines(c), AdditionalLines(fields), "\r\n");
    OptionalLinesAsText(c, rest);
    Assoc(OptionalLinesText(c), FieldsText(fields), "\r\n");
  }

  /**
   * Five template lines, the first two `Upgrade: WebSocket` and
   * `Connection: Upgrade` as in both templates, after any prefix and
   * before any rest.
   */
  lemma FixedLinesText(r: string, a3: string, a4: string, a5: string, n3: string, n4: string, n5: string,
                       v3: string, v4: string, v5: string, x: string)
    requires a3 == n3 + ": " && a4 == n4 + ": " && a5 == n5 + ": "
    ensures r + "Upgrade: WebSocket\r\n" + "Connection: Upgrade\r\n" + a3 + v3 + "\r\n" +
      a4 + v4 + "\r\n" + a5 + v5 + "\r\n" + x ==
      r + LinesText([Field("Upgrade", "WebSocket"), Field("Connection", "Upgrade"), Field(n3, v3),
                     Field(n4, v4), Field(n5, v5)], x)
  {
    var l1, l2, l3, l4, l5 := Field("Upgrade", "WebSocket"), Field("Connection", "Upgrade"), Field(n3, v3),
                              Field(n4, v4), Field(n5, v5);
    var fixed := [l1, l2, l3, l4, l5];
    assert fixed[1..] == [l2, l3, l4, l5];
    assert fixed[1..][1..] == [l3, l4, l5];
    assert fixed[1..][1..][1..] == [l4, l5];
    assert fixed[1..][1..][1..][1..] == [l5];
    var t5 := LineText(l5) + x;
    assert LinesText([l5], x) == t5;
    var t4 := LineText(l4) + t5;
    assert LinesText([l4, l5], x) == t4;
    var t3 := LineText(l3) + t4;
    assert LinesText([l3, l4, l5], x) == t3;
    var t2 := LineText(l2) + t3;
    assert LinesText([l2, l3, l4, l5], x) == t2;
    assert LinesText(fixed, x) == LineText(l1) + t2;
    assert LineText(l1) == "Upgrade: WebSocket\r\n";
    assert LineText(l2) == "Connection: Upgrade\r\n";
    FieldText(n3, v3);
    FieldText(n4, v4);
    FieldText(n5, v5);
    var p1 := r + "Upgrade: WebSocket\r\n" + "Connection: Upgrade\r\n";
    assert p1 + a3 + v3 + "\r\n" == p1 + LineText(l3);
    var p2 := p1 + LineText(l3);
    assert p2 + a4 + v4 + "\r\n" == p2 + LineText(l4);
    var p3 := p2 + LineText(l4);
    assert p3 + a5 + v5 + "\r\n" == p3 + LineText(l5);
    Assoc(p3, LineText(l5), x);
    Assoc(p2, LineText(l4), t5);
    Assoc(p1, LineText(l3), t4);
    Assoc(r + LineText(l1), LineText(l2), t3);
    Assoc(r, LineText(l1), t2);
  }

  /** The printed request is the request line followed by the client's lines and the empty line. */
  lemma ClientTextLines(c: ClientHandshake)
    ensures ClientText(c) == "GET " + Or(c.resourcePath) + " HTTP/1.1\r\n" + LinesText(ClientLines(c), "\r\n")
  {
    var fixed := [Field("Upgrade", "WebSocket"), Field("Connection", "Upgrade"), Field("Origin", Or(c.origin)),
                  Field("Host", Or(c.host)), Field("Sec-Websocket-Key", Or(c.key))];
    ExtraTextLines(c);
    LinesTextAppend(fixed, ClientExtraLines(c), "\r\n");
    FixedLinesText("GET " + Or(c.resourcePath) + " HTTP/1.1\r\n", "Origin: ", "Host: ", "Sec-Websocket-Key: ",
                   "Origin", "Host", "Sec-Websocket-Key", Or(c.origin), Or(c.host), Or(c.key), ClientExtraText(c));
  }

  // Reading the printed request back

  predicate CleanName(n: string)
  {
    |n| > 0 && All(n, NameChar)
  }

  /** Values the templates can carry without breaking a line. */
  predicate CleanValue(v: string)
  {
    All(v, ValueChar)
  }

  /** A handshake whose printed request is well formed: a path without white space, values without line breaks. */
  predicate Printable(c: ClientHandshake)
  {
    |Or(c.resourcePath)| > 0 && All(Or(c.resourcePath), NotSpace) &&
    CleanValue(Or(c.origin)) && CleanValue(Or(c.host)) && CleanValue(Or(c.key)) && CleanValue(Or(c.subProtocol)) &&
    forall i :: 0 <= i < |c.additionalFields.GetOr([])| ==>
      CleanName(c.additionalFields.GetOr([])[i].0) && CleanValue(c.additionalFields.GetOr([])[i].1)
  }

  lemma FieldValid(n: string, v: string)
    requires CleanName(n) && CleanValue(v)
    ensures ValidLine(Field(n, v))
  {
    assert forall i :: 1 <= i < |v| + 1 ==> (" " + v)[i] == v[i - 1];
  }

  lemma ClientLinesValid(c: ClientHandshake)
    requires Printable(c)
    ensures forall i :: 0 <= i < |ClientLines(c)| ==> ValidLine(ClientLines(c)[i])
  {
    FieldValid("Upgrade", "WebSocket");
    FieldValid("Connection", "Upgrade");
    FieldValid("Origin", Or(c.origin));
    FieldValid("Host", Or(c.host));
    FieldValid("Sec-Websocket-Key", Or(c.key));
    FieldValid("Cookie", CookieCollectionText);
    FieldValid("Sec-Websocket-Protocol", Or(c.subProtocol));
    var fields := c.additionalFields.GetOr([]);
    forall i | 0 <= i < |fields|
      ensures ValidLine(AdditionalLines(fields)[i])
    {
      FieldValid(fields[i].0, fields[i].1);
    }
  }

  lemma RequestLineText(path: string, ls: seq<FieldLine>, rest: string)
    ensures "GET " + path + " HTTP/1.1\r\n" + LinesText(ls, rest) ==
      RequestText(RequestMatch("GET", ' ', path, ' ', HttpVersion, ls), rest)
  {
  }

  /**
   * The printed request of a printable handshake matches the request
   * pattern, and the matched lines are exactly the printed ones: the
   * Cookie and subprotocol lines appear iff those fields are non-null,
   * then one line per additional field; the empty line ends the match.
   */
  lemma ClientTextMatches(c: ClientHandshake)
    requires Printable(c)
    ensures MatchRequest(ClientText(c)) ==
      Some(RequestMatch("GET", ' ', Or(c.resourcePath), ' ', HttpVersion, ClientLines(c)))
  {
    var m := RequestMatch("GET", ' ', Or(c.resourcePath), ' ', HttpVersion, ClientLines(c));
    ClientTextLines(c);
    ClientLinesValid(c);
    RequestLineText(Or(c.resourcePath), ClientLines(c), "\r\n");
    assert ValidMatch(m);
    MatchRequestText(m, "\r\n");
    BlankLineEnds();
    assert ClientLines(c) + [] == ClientLines(c);
  }

  /** A value that `Trim` leaves alone. */
  predicate Trimmed(v: string)
  {
    v == [] || (!IsWhiteSpace(v[0]) && !IsWhiteSpace(v[|v| - 1]))
  }

  lemma TrimField(v: string)
    requires Trimmed(v)
    ensures Trim(" " + v) == v
  {
    assert (" " + v)[1..] == v;
    TrimStartNoEdge(v);
    TrimNoEdges(v);
  }

  lemma {:induction false} LineValuesAppend(a: seq<FieldLine>, b: seq<FieldLine>, key: string)
    ensures LineValues(a + b, key) == LineValues(a, key) + LineValues(b, key)
    decreases |b|
  {
    if b == [] {
      assert a + b == a;
    } else {
      var b' := b[..|b| - 1];
      assert (a + b)[..|a + b| - 1] == a + b';
      LineValuesAppend(a, b', key);
    }
  }

  lemma LineValuesOne(l: FieldLine, key: string)
    ensures LineValues([l], key) ==
      if ToLower(l.name) != "cookie" && ToLower(l.name) == ToLower(key) then [Some(Trim(l.value))] else []
  {
    assert [l][..0] == [];
  }

  lemma ParseCookiesNone(s: string)
    requires ';' !in s && '=' !in s
    ensures ParseCookies(s) == []
  {
    IndexOfAbsent(s, ';');
    assert Split(s, ';') == [s];
    IndexOfAbsent(s, '=');
    assert CookieList(s) == [];
    assert [s][1..] == [];
    assert CookiesOfSegments([s]) == CookieList(s) + CookiesOfSegments([]);
  }

  lemma CookieLineDropped()
    ensures ParseCookies(Trim(" " + CookieCollectionText)) == []
  {
    TrimField(CookieCollectionText);
    NoSeparators(CookieCollectionText);
    ParseCookiesNone(CookieCollectionText);
  }

  /** Letters and dots only. */
  lemma NoSeparators(s: string)
    requires forall i :: 0 <= i < |s| ==> 'A' <= s[i] <= 'z' || s[i] == '.'
    ensures ';' !in s && '=' !in s
  {
  }

  /** The value one line contributes under `key`. */
  function LineValue(l: FieldLine, key: string): seq<Option<string>>
  {
    if ToLower(l.name) != "cookie" && ToLower(l.name) == ToLower(key) then [Some(Trim(l.value))] else []
  }

  lemma LineValuesCons(l: FieldLine, ls: seq<FieldLine>, key: string)
    ensures LineValues([l] + ls, key) == LineValue(l, key) + LineValues(ls, key)
  {
    LineValuesAppend([l], ls, key);
    assert [l][..0] == [];
  }

  /** The cookies one line contributes. */
  function LineCookies(l: FieldLine): seq<Cookie>
  {
    if ToLower(l.name) == "cookie" then ParseCookies(Trim(l.value)) else []
  }

  lemma {:induction false} CookiesOfAppend(a: seq<FieldLine>, b: seq<FieldLine>)
    ensures CookiesOf(a + b) == CookiesOf(a) + CookiesOf(b)
    decreases |b|
  {
    if b == [] {
      assert a + b == a;
    } else {
      var b' := b[..|b| - 1];
      assert (a + b)[..|a + b| - 1] == a + b';
      CookiesOfAppend(a, b');
    }
  }

  lemma CookiesOfCons(l: FieldLine, ls: seq<FieldLine>)
    ensures CookiesOf([l] + ls) == LineCookies(l) + CookiesOf(ls)
  {
    CookiesOfAppend([l], ls);
    assert [l][..0] == [];
  }

  /** The values the printed lines carry under `key`. */
  lemma ClientLineValues(c: ClientHandshake, key: string)
    requires c.additionalFields.None?
    ensures LineValues(ClientLines(c), key) ==
      LineValue(Field("Upgrade", "WebSocket"), key) + (LineValue(Field("Connection", "Upgrade"), key) +
      (LineValue(Field("Origin", Or(c.origin)), key) + (LineValue(Field("Host", Or(c.host)), key) +
      (LineValue(Field("Sec-Websocket-Key", Or(c.key)), key) + LineValues(OptionalLines(c), key)))))
  {
    var l1, l2, l3, l4, l5 := Field("Upgrade", "WebSocket"), Field("Connection", "Upgrade"), Field("Origin", Or(c.origin)),
                              Field("Host", Or(c.host)), Field("Sec-Websocket-Key", Or(c.key));
    var x := OptionalLines(c);
    NoAdditionalLines(c);
    Nest5(l1, l2, l3, l4, l5, x);
    LineValuesCons(l5, x, key);
    LineValuesCons(l4, [l5] + x, key);
    LineValuesCons(l3, [l4] + ([l5] + x), key);
    LineValuesCons(l2, [l3] + ([l4] + ([l5] + x)), key);
    LineValuesCons(l1, [l2] + ([l3] + ([l4] + ([l5] + x))), key);
  }

  lemma Nest5(l1: FieldLine, l2: FieldLine, l3: FieldLine, l4: FieldLine, l5: FieldLine, x: seq<FieldLine>)
    ensures [l1, l2, l3, l4, l5] + x == [l1] + ([l2] + ([l3] + ([l4] + ([l5] + x))))
  {
  }

  lemma NoAdditionalLines(c: ClientHandshake)
    requires c.additionalFields.None?
    ensures ClientExtraLines(c) == OptionalLines(c)
  {
    assert AdditionalLines([]) == [];
    assert OptionalLines(c) + [] == OptionalLines(c);
  }

  lemma OptionalCookies(c: ClientHandshake)
    ensures CookiesOf(OptionalLines(c)) == []
  {
    var a := if c.cookies.Some? then [Field("Cookie", CookieCollectionText)] else [];
    var b := if c.subProtocol.Some? then [Field("Sec-Websocket-Protocol", c.subProtocol.value)] else [];
    CookiesOfAppend(a, b);
    assert CookiesOf(a) == [] by {
      if c.cookies.Some? {
        CookieLineDropped();
        assert a == [] + a;
      }
    }
    assert CookiesOf(b) == [] by {
      if c.subProtocol.Some? {
        assert b == [] + b;
      }
    }
  }

  /** The printed lines carry no cookie: the Cookie line holds the collection's type name, which has no `=`. */
  lemma ClientLineCookies(c: ClientHandshake)
    requires c.additionalFields.None?
    ensures CookiesOf(ClientLines(c)) == []
  {
    var l1, l2, l3, l4, l5 := Field("Upgrade", "WebSocket"), Field("Connection", "Upgrade"), Field("Origin", Or(c.origin)),
                              Field("Host", Or(c.host)), Field("Sec-Websocket-Key", Or(c.key));
    var x := OptionalLines(c);
    NoAdditionalLines(c);
    Nest5(l1, l2, l3, l4, l5, x);
    OptionalCookies(c);
    CookiesOfCons(l5, x);
    CookiesOfCons(l4, [l5] + x);
    CookiesOfCons(l3, [l4] + ([l5] + x));
    CookiesOfCons(l2, [l3] + ([l4] + ([l5] + x)));
    CookiesOfCons(l1, [l2] + ([l3] + ([l4] + ([l5] + x))));
    assert LineCookies(l3) == [] by {
      assert ToLower("Origin")[0] == 'o';
    }
    assert LineCookies(l1) == [] && LineCookies(l2) == [] && LineCookies(l4) == [] && LineCookies(l5) == [];
  }

  lemma OptionalValues(c: ClientHandshake, key: string)
    requires |ToLower(key)| != |"cookie"|
    ensures LineValues(OptionalLines(c), key) ==
      if c.subProtocol.Some? then LineValue(Field("Sec-Websocket-Protocol", c.subProtocol.value), key) else []
  {
    var a := if c.cookies.Some? then [Field("Cookie", CookieCollectionText)] else [];
    var b := if c.subProtocol.Some? then [Field("Sec-Websocket-Protocol", c.subProtocol.value)] else [];
    LineValuesAppend(a, b, key);
    if c.cookies.Some? {
      LineValuesOne(a[0], key);
    }
    if c.subProtocol.Some? {
      LineValuesOne(b[0], key);
    }
  }

  lemma LowerHost()
    ensures ToLower("Host") == "host" && ToLower("host") == "host"
  {
  }

  lemma LowerKey()
    ensures ToLower("Sec-Websocket-Key") == "sec-websocket-key" && ToLower("sec-websocket-key") == "sec-websocket-key"
  {
  }

  lemma LowerProtocol()
    ensures ToLower("Sec-Websocket-Protocol") == "sec-websocket-protocol"
    ensures ToLower("sec-websocket-protocol") == "sec-websocket-protocol"
  {
  }

  lemma HostValues(c: ClientHandshake)
    requires c.additionalFields.None? && Trimmed(Or(c.host))
    ensures LineValues(ClientLines(c), "host") == [Some(Or(c.host))]
  {
    ClientLineValues(c, "host");
    OptionalValues(c, "host");
    LowerHost();
    TrimField(Or(c.host));
  }

  lemma KeyValues(c: ClientHandshake)
    requires c.additionalFields.None? && Trimmed(Or(c.key))
    ensures LineValues(ClientLines(c), "sec-websocket-key") == [Some(Or(c.key))]
  {
    ClientLineValues(c, "sec-websocket-key");
    OptionalValues(c, "sec-websocket-key");
    LowerKey();
    TrimField(Or(c.key));
  }

  /** No printed line is named `sec-websocket-origin`: the template writes `Origin`. */
  lemma OriginValues(c: ClientHandshake)
    requires c.additionalFields.None?
    ensures LineValues(ClientLines(c), "sec-websocket-origin") == []
  {
    ClientLineValues(c, "sec-websocket-origin");
    OptionalValues(c, "sec-websocket-origin");
  }

  lemma ProtocolValues(c: ClientHandshake)
    requires c.additionalFields.None? && Trimmed(Or(c.subProtocol))
    ensures LineValues(ClientLines(c), "sec-websocket-protocol") ==
      if c.subProtocol.Some? then [c.subProtocol] else []
  {
    ClientLineValues(c, "sec-websocket-protocol");
    OptionalValues(c, "sec-websocket-protocol");
    LowerProtocol();
    TrimField(Or(c.subProtocol));
  }

  lemma HandshakeOfLines(data: string, lines: seq<FieldLine>)
    requires MatchRequest(data).Some? && MatchRequest(data).value.lines == lines
    ensures FromHeader(Parse(data)) ==
      ClientHandshake(LineField(lines, "sec-websocket-origin"), LineField(lines, "host"),
                      Some(MatchRequest(data).value.path), LineField(lines, "sec-websocket-key"),
                      Some(CookiesOf(lines)), LineField(lines, "sec-websocket-protocol"), None)
  {
    ClientFromRequest(data);
  }

  /**
   * Printing a handshake shaped as the constructor builds it and parsing
   * the text again gives back its path, host, key and subprotocol; the
   * cookies are lost (the Cookie line carries the collection's type name)
   * and so is the origin, because the template writes `Origin` while the
   * constructor reads `sec-websocket-origin`: the re-read handshake is
   * never valid.
   */
  lemma ClientRoundTrip(c: ClientHandshake)
    requires Printable(c) && c.additionalFields.None?
    requires Trimmed(Or(c.host)) && Trimmed(Or(c.key)) && Trimmed(Or(c.subProtocol))
    ensures FromHeader(Parse(ClientText(c))) ==
      c.(origin := None, host := Some(Or(c.host)), key := Some(Or(c.key)), cookies := Some([]))
    ensures !IsValid(FromHeader(Parse(ClientText(c))))
  {
    ClientTextMatches(c);
    ClientLineCookies(c);
    HostValues(c);
    KeyValues(c);
    OriginValues(c);
    ProtocolValues(c);
    ReadBack(ClientText(c), c);
  }

  lemma ReadBack(data: string, c: ClientHandshake)
    requires c.resourcePath.Some?
    requires MatchRequest(data) == Some(RequestMatch("GET", ' ', Or(c.resourcePath), ' ', HttpVersion, ClientLines(c)))
    requires CookiesOf(ClientLines(c)) == []
    requires LineValues(ClientLines(c), "host") == [Some(Or(c.host))]
    requires LineValues(ClientLines(c), "sec-websocket-key") == [Some(Or(c.key))]
    requires LineValues(ClientLines(c), "sec-websocket-origin") == []
    requires LineValues(ClientLines(c), "sec-websocket-protocol") == if c.subProtocol.Some? then [c.subProtocol] else []
    requires c.additionalFields.None?
    ensures FromHeader(Parse(data)) ==
      c.(origin := None, host := Some(Or(c.host)), key := Some(Or(c.key)), cookies := Some([]))
  {
    HandshakeOfLines(data, ClientLines(c));
  }

  // ---------------------------------------------------------------------
  // ServerHandshake

  /** `ServerHandshake`; AdditionalFields is never printed and is left out. */
  datatype ServerHandshake = ServerHandshake(origin: Option<string>, location: Option<string>,
                                             answerKey: Option<string>, subProtocol: Option<string>)

  const StatusLine := "HTTP/1.1 101 Web Socket Protocol Handshake\r\n"

  /** The `{3}` argument: the subprotocol line iff SubProtocol is non-null, then the empty line. */
  function ServerExtraText(s: ServerHandshake): string
  {
    (if s.subProtocol.Some? then "Sec-WebSocket-Protocol: " + s.subProtocol.value + "\r\n" else "") + "\r\n"
  }

  /** `ServerHandshake.ToString()`: the template with Origin, Location and AnswerKey filled in, in that order. */
  function ServerText(s: ServerHandshake): string
  {
    StatusLine +
    "Upgrade: WebSocket\r\n" +
    "Connection: Upgrade\r\n" +
    "Sec-WebSocket-Origin: " + Or(s.origin) + "\r\n" +
    "Sec-WebSocket-Location: " + Or(s.location) + "\r\n" +
    "Sec-WebSocket-Accept: " + Or(s.answerKey) + "\r\n" +
    ServerExtraText(s)
  }

  /** The header lines of the response, in order. */
  function ServerLines(s: ServerHandshake): seq<FieldLine>
  {
    [Field("Upgrade", "WebSocket"), Field("Connection", "Upgrade"), Field("Sec-WebSocket-Origin", Or(s.origin)),
     Field("Sec-WebSocket-Location", Or(s.location)), Field("Sec-WebSocket-Accept", Or(s.answerKey))] +
    (if s.subProtocol.Some? then [Field("Sec-WebSocket-Protocol", s.subProtocol.value)] else [])
  }

  lemma ServerExtraLines(s: ServerHandshake)
    ensures ServerExtraText(s) ==
      LinesText(if s.subProtocol.Some? then [Field("Sec-WebSocket-Protocol", s.subProtocol.value)] else [], "\r\n")
  {
    if s.subProtocol.Some? {
      var l := Field("Sec-WebSocket-Protocol", s.subProtocol.value);
      FieldText("Sec-WebSocket-Protocol", s.subProtocol.value);
      assert [l][1..] == [];
    }
  }

  lemma ServerTextLines(s: ServerHandshake)
    ensures ServerText(s) == StatusLine + LinesText(ServerLines(s), "\r\n")
  {
    var fixed := [Field("Upgrade", "WebSocket"), Field("Connection", "Upgrade"), Field("Sec-WebSocket-Origin", Or(s.origin)),
                  Field("Sec-WebSocket-Location", Or(s.location)), Field("Sec-WebSocket-Accept", Or(s.answerKey))];
    var extra := if s.subProtocol.Some? then [Field("Sec-WebSocket-Protocol", s.subProtocol.value)] else [];
    ServerExtraLines(s);
    LinesTextAppend(fixed, extra, "\r\n");
    FixedLinesText(StatusLine, "Sec-WebSocket-Origin: ", "Sec-WebSocket-Location: ", "Sec-WebSocket-Accept: ",
                   "Sec-WebSocket-Origin", "Sec-WebSocket-Location", "Sec-WebSocket-Accept",
                   Or(s.origin), Or(s.location), Or(s.answerKey), ServerExtraText(s));
  }

  /**
   * The response is the status line, its header lines and an empty line;
   * with values free of line breaks, a reader of `name:value` lines after
   * the status line finds exactly the five fixed lines, then the
   * `Sec-WebSocket-Protocol` line iff SubProtocol is non-null.
   */
  lemma ServerTextFields(s: ServerHandshake)
    requires CleanValue(Or(s.origin)) && CleanValue(Or(s.location)) && CleanValue(Or(s.answerKey))
    requires CleanValue(Or(s.subProtocol))
    ensures ServerText(s) == StatusLine + LinesText(ServerLines(s), "") + "\r\n"
    ensures MatchLines(ServerText(s)[|StatusLine|..]) == ServerLines(s)
  {
    ServerTextLines(s);
    LinesTextSuffix(ServerLines(s), "\r\n");
    FieldValid("Upgrade", "WebSocket");
    FieldValid("Connection", "Upgrade");
    FieldValid("Sec-WebSocket-Origin", Or(s.origin));
    FieldValid("Sec-WebSocket-Location", Or(s.location));
    FieldValid("Sec-WebSocket-Accept", Or(s.answerKey));
    FieldValid("Sec-WebSocket-Protocol", Or(s.subProtocol));
    MatchLinesText(ServerLines(s), "\r\n");
    BlankLineEnds();
    assert ServerLines(s) + [] == ServerLines(s);
    assert (StatusLine + LinesText(ServerLines(s), "\r\n"))[|StatusLine|..] == LinesText(ServerLines(s), "\r\n");
  }

  // ---------------------------------------------------------------------
  // WebSocketAuthentication

  /** The GUID of section 1.3 of RFC 6455. */
  const Guid := "258EAFA5-E914-47DA-95CA-C5AB0DC85B11"

  /** `GenerateAnswerKey(key)`: Base64 of the SHA-1 digest of the UTF-8 bytes of key and GUID. */
  function AnswerKey(key: string, sha1: seq<byte> -> seq<byte>): string
  {
    Base64.Encode(sha1(Utf8.Encode(key + Guid)))
  }

  /** The accept key carries the whole digest: decoding it gives the digest back. */
  lemma AnswerKeyDecodes(key: string, sha1: seq<byte> -> seq<byte>)
    ensures Base64.Decode(AnswerKey(key, sha1)) == Some(sha1(Utf8.Encode(key + Guid)))
  {
    Base64.DecodeEncode(sha1(Utf8.Encode(key + Guid)));
  }

  /** A 20-byte digest gives a 28-character key. */
  lemma AnswerKeyLength(key: string, sha1: seq<byte> -> seq<byte>)
    requires |sha1(Utf8.Encode(key + Guid))| == 20
    ensures |AnswerKey(key, sha1)| == 28
  {
    Base64.EncodeLength(sha1(Utf8.Encode(key + Guid)));
  }

  /** `GenerateResponseHandshake`: Location `ws://` + Host + ResourcePath; Origin and SubProtocol echoed. */
  function Response(c: ClientHandshake, sha1: seq<byte> -> seq<byte>): ServerHandshake
  {
    ServerHandshake(c.origin, Some("ws://" + Or(c.host) + Or(c.resourcePath)), Some(AnswerKey(Or(c.key), sha1)),
                    c.subProtocol)
  }

  /** The static `WebSocketAuthentication.Origin` and `.Location`; empty turns a check off. */
  datatype AuthConfig = AuthConfig(origin: string, location: string)

  const DefaultAuth := AuthConfig("", "")

  /**
   * The verdict of `CheckHandshake`, rule by rule: more than 8 bytes, a
   * valid handshake, the origin allow-list, then the host:port allow-list.
   */
  function Admits(receivedByteCount: int, c: ClientHandshake, auth: AuthConfig, port: int): bool
  {
    if receivedByteCount > 8 then
      if IsValid(c) then
        if auth.origin != "" && c.origin != Some("http://" + auth.origin) then false
        else if auth.location != "" && c.host != Some(auth.location + ":" + IntToString(port)) then false
        else true
      else false
    else false
  }

  /**
   * With neither allow-list configured, a request is admitted exactly when
   * more than 8 bytes arrived, it matched, and it has host, key and origin
   * lines, whatever their values.
   */
  lemma AdmitsRequest(data: string, receivedByteCount: int, port: int)
    ensures Admits(receivedByteCount, FromHeader(Parse(data)), DefaultAuth, port) <==>
      receivedByteCount > 8 && MatchRequest(data).Some? &&
      LineValues(MatchRequest(data).value.lines, "host") != [] &&
      LineValues(MatchRequest(data).value.lines, "sec-websocket-key") != [] &&
      LineValues(MatchRequest(data).value.lines, "sec-websocket-origin") != []
  {
    ValidFromRequest(data);
  }

  /** The request `ClientHandshake.ToString()` prints is never admitted by this server. */
  lemma PrintedClientRejected(c: ClientHandshake, receivedByteCount: int, auth: AuthConfig, port: int)
    requires Printable(c) && c.additionalFields.None?
    requires Trimmed(Or(c.host)) && Trimmed(Or(c.key)) && Trimmed(Or(c.subProtocol))
    ensures !Admits(receivedByteCount, FromHeader(Parse(ClientText(c))), auth, port)
  {
    ClientRoundTrip(c);
  }

  /**
   * The allow-lists only narrow: what a configured server admits, an
   * unconfigured one admits too, and it admits it exactly when the origin
   * is `http://` + Origin (if set) and the host is Location:port (if set).
   */
  lemma AllowListsNarrow(receivedByteCount: int, c: ClientHandshake, auth: AuthConfig, port: int)
    ensures Admits(receivedByteCount, c, auth, port) <==>
      Admits(receivedByteCount, c, DefaultAuth, port) &&
      (auth.origin == "" || c.origin == Some("http://" + auth.origin)) &&
      (auth.location == "" || c.host == Some(auth.location + ":" + IntToString(port)))
  {
  }

  lemma AnswerKeyClean(key: string, sha1: seq<byte> -> seq<byte>)
    ensures CleanValue(AnswerKey(key, sha1))
  {
    Base64.EncodeAlphabet(sha1(Utf8.Encode(key + Guid)));
  }

  /**
   * The response a client reads: Origin and SubProtocol echoed, Location
   * `ws://` + Host + ResourcePath, and the accept key of the client's key.
   */
  lemma ResponseFields(c: ClientHandshake, sha1: seq<byte> -> seq<byte>)
    requires CleanValue(Or(c.origin)) && CleanValue(Or(c.host)) && CleanValue(Or(c.resourcePath))
    requires CleanValue(Or(c.subProtocol))
    ensures MatchLines(ServerText(Response(c, sha1))[|StatusLine|..]) ==
      [Field("Upgrade", "WebSocket"), Field("Connection", "Upgrade"), Field("Sec-WebSocket-Origin", Or(c.origin)),
       Field("Sec-WebSocket-Location", "ws://" + Or(c.host) + Or(c.resourcePath)),
       Field("Sec-WebSocket-Accept", AnswerKey(Or(c.key), sha1))] +
      (if c.subProtocol.Some? then [Field("Sec-WebSocket-Protocol", c.subProtocol.value)] else [])
  {
    var loc := "ws://" + Or(c.host) + Or(c.resourcePath);
    assert CleanValue(loc) by {
      assert forall i :: 5 <= i < 5 + |Or(c.host)| ==> loc[i] == Or(c.host)[i - 5];
      assert forall i :: 5 + |Or(c.host)| <= i < |loc| ==> loc[i] == Or(c.resourcePath)[i - 5 - |Or(c.host)|];
    }
    AnswerKeyClean(Or(c.key), sha1);
    ServerTextFields(Response(c, sha1));
  }

  /** The SHA-1 digest of the sample key of section 1.3 of RFC 6455 followed by the GUID. */
  const SampleDigest: seq<byte> := [0xb3, 0x7a, 0x4f, 0x2c, 0xc0, 0x62, 0x4f, 0x16, 0x90, 0xf6,
                                    0x46, 0x06, 0xcf, 0x38, 0x59, 0x45, 0xb2, 0xbe, 0xc4, 0xea]

  /** The worked example of section 1.3 of RFC 6455, given a SHA-1 that yields its digest. */
  lemma SampleAnswerKey(sha1: seq<byte> -> seq<byte>)
    requires sha1(Utf8.Encode("dGhlIHNhbXBsZSBub25jZQ==" + Guid)) == SampleDigest
    ensures AnswerKey("dGhlIHNhbXBsZSBub25jZQ==", sha1) == "s3pPLMBiTxaQ9kYGzzhZRbK+xOo="
  {
    SampleEncoding();
  }

  lemma SampleEncoding()
    ensures Base64.Encode(SampleDigest) == "s3pPLMBiTxaQ9kYGzzhZRbK+xOo="
  {
    SampleGroups();
    var d := SampleDigest;
    assert d[18..] == [0xc4, 0xea];
    EncodeDigest(d);
    SampleKeyText();
  }

  /** The groups of the sample digest, each worked out on its own. */
  lemma SampleGroups()
    ensures Base64.Quad(0xb3, 0x7a, 0x4f) == "s3pP" && Base64.Quad(0x2c, 0xc0, 0x62) == "LMBi"
    ensures Base64.Quad(0x4f, 0x16, 0x90) == "TxaQ" && Base64.Quad(0xf6, 0x46, 0x06) == "9kYG"
    ensures Base64.Quad(0xcf, 0x38, 0x59) == "zzhZ" && Base64.Quad(0x45, 0xb2, 0xbe) == "RbK+"
    ensures Base64.Encode([0xc4, 0xea]) == "xOo="
  {
    assert Base64.Quad(0xc4, 0xea, 0) == "xOoA";
  }

  /** The encoding of a 20-byte digest, assembled from its six groups and its last two bytes. */
  lemma EncodeDigest(d: seq<byte>)
    requires |d| == 20
    requires Base64.Quad(d[0], d[1], d[2]) == "s3pP" && Base64.Quad(d[3], d[4], d[5]) == "LMBi"
    requires Base64.Quad(d[6], d[7], d[8]) == "TxaQ" && Base64.Quad(d[9], d[10], d[11]) == "9kYG"
    requires Base64.Quad(d[12], d[13], d[14]) == "zzhZ" && Base64.Quad(d[15], d[16], d[17]) == "RbK+"
    requires Base64.Encode(d[18..]) == "xOo="
    ensures Base64.Encode(d) == "s3pP" + ("LMBi" + ("TxaQ" + ("9kYG" + ("zzhZ" + ("RbK+" + "xOo=")))))
  {
    EncodeGroup(d[15..]);
    EncodeGroup(d[12..]);
    EncodeGroup(d[9..]);
    EncodeGroup(d[6..]);
    EncodeGroup(d[3..]);
    EncodeGroup(d);
  }

  lemma SampleKeyText()
    ensures "s3pP" + ("LMBi" + ("TxaQ" + ("9kYG" + ("zzhZ" + ("RbK+" + "xOo=")))))
      == "s3pPLMBiTxaQ9kYGzzhZRbK+xOo="
  {
  }

  /** One step of the encoding: the first three bytes become one group of four characters. */
  lemma EncodeGroup(s: seq<byte>)
    requires |s| >= 3
    ensures Base64.Encode(s) == Base64.Quad(s[0], s[1], s[2]) + Base64.Encode(s[3..])
  {
  }
}
