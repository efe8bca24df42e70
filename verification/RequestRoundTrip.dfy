/** The client's request writer, and the round trip through the servers' reader. */
module RequestRoundTrip {
  import opened ByteSource
  import opened Bytes
  import opened HttpRequest
  import opened HttpRequestLayout
  import opened Wrappers

  const VERSION: bytes := Ascii("HTTP/1.1")
  const HOST: bytes := Ascii("Host")
  const CONTENT_LENGTH_NAME: bytes := Ascii("Content-Length")
  const CONNECTION: bytes := Ascii("Connection")
  const CLOSE: bytes := Ascii("close")

  function FieldLine(field: Header): bytes {
    field.0 + [COLON, SP] + field.1 + CRLF
  }

  function FieldLines(fields: seq<Header>): seq<bytes> {
    if fields == [] then [] else [FieldLine(fields[0])] + FieldLines(fields[1..])
  }

  function RequestLine(verb: bytes, path: bytes): bytes {
    verb + [SP] + (path + [SP] + (VERSION + CRLF))
  }

  /** The fields a request is sent with: the caller's between the writer's own. */
  function Fields(host: bytes, headers: seq<Header>, body: Option<bytes>): seq<Header> {
    [(HOST, host)] + headers
    + (if body.Some? then [(CONTENT_LENGTH_NAME, Format(|body.value|, 10))] else [])
    + [(CONNECTION, CLOSE)]
  }

  function Rendered(verb: bytes, path: bytes, host: bytes, headers: seq<Header>, body: Option<bytes>): bytes {
    RequestLine(verb, path) + Flatten(FieldLines(Fields(host, headers, body))) + CRLF
    + (if body.Some? then body.value else [])
  }

  lemma FieldLinesCons(field: Header, fields: seq<Header>)
    ensures Flatten(FieldLines([field] + fields)) == FieldLine(field) + Flatten(FieldLines(fields))
  {
    hide FieldLine;
    assert ([field] + fields)[1..] == fields;
    assert FieldLines([field] + fields)[1..] == FieldLines(fields);
  }

  lemma {:induction false} FieldLinesAppend(a: seq<Header>, b: seq<Header>)
    ensures Flatten(FieldLines(a + b)) == Flatten(FieldLines(a)) + Flatten(FieldLines(b))
  {
    hide FieldLines, FieldLine, Flatten;
    if a == [] {
      assert a + b == b;
      NoFieldLines();
    } else {
      FieldLinesAppend(a[1..], b);
      FieldLinesCons(a[0], a[1..]);
      FieldLinesCons(a[0], a[1..] + b);
      assert a == [a[0]] + a[1..] && a + b == [a[0]] + (a[1..] + b);
    }
  }

  lemma NoFieldLines()
    ensures Flatten(FieldLines([])) == []
  {
  }

  lemma OneField(field: Header)
    ensures Flatten(FieldLines([field])) == FieldLine(field)
  {
    FieldLinesCons(field, []);
    assert [field] + [] == [field];
    NoFieldLines();
  }

  lemma OneMoreField(request: bytes, fields: seq<Header>, field: Header)
    ensures request + Flatten(FieldLines(fields + [field]))
         == (request + Flatten(FieldLines(fields))) + FieldLine(field)
  {
    hide FieldLines, FieldLine, Flatten;
    FieldLinesAppend(fields, [field]);
    OneField(field);
  }

  /** Build the request text by appending to it. */
  method WriteRequest(verb: bytes, path: bytes, host: bytes, headers: seq<Header>, body: Option<bytes>)
    returns (request: bytes)
    ensures request == RequestText(verb, path, host, headers, body)
  {
    RenderedText(verb, path, host, headers, body);
    hide FieldLines, FieldLine, Flatten, Format, RequestLine;
    var line := RequestLine(verb, path);
    request := line + FieldLine((HOST, host));
    ghost var sent: seq<Header> := [(HOST, host)];
    OneField((HOST, host));
    for i := 0 to |headers|
      invariant sent == [(HOST, host)] + headers[..i]
      invariant request == line + Flatten(FieldLines(sent))
    {
      OneMoreField(line, sent, headers[i]);
      request := request + FieldLine(headers[i]);
      sent := sent + [headers[i]];
    }
    assert sent == [(HOST, host)] + headers;
    if body.Some? {
      var field := (CONTENT_LENGTH_NAME, Format(|body.value|, 10));
      OneMoreField(line, sent, field);
      request := request + FieldLine(field);
      sent := sent + [field];
    }
    OneMoreField(line, sent, (CONNECTION, CLOSE));
    request := request + FieldLine((CONNECTION, CLOSE)) + CRLF;
    assert sent + [(CONNECTION, CLOSE)] == Fields(host, headers, body);
    if body.Some? {
      request := request + body.value;
    }
  }

  // ---------------------------------------------------------------- reading a field back

  /** A field one line can carry: no colon in the name, no line feed anywhere. */
  predicate Clean(field: Header) {
    COLON !in field.0 && LF !in field.0 && LF !in field.1
  }

  /** A field as the reader stores it. */
  function Stored(field: Header): Header {
    (ToLower(Trim(field.0)), Trim(field.1))
  }

  lemma {:induction false} TrimEolInside(front: bytes, s: bytes)
    requires front != [] && !IsEol(front[|front| - 1])
    ensures TrimEol(front + s) == front + TrimEol(s)
  {
    if s == [] {
      assert front + s == front;
    } else {
      var init, last := s[..|s| - 1], s[|s| - 1];
      assert front + s == (front + init) + [last];
      assert (front + s)[..|front + s| - 1] == front + init;
      if IsEol(last) {
        TrimEolInside(front, init);
      }
    }
  }

  lemma {:induction false} TrimIgnoresEol(s: bytes)
    ensures Trim(TrimEol(s)) == Trim(s)
  {
    if s != [] && IsEol(s[|s| - 1]) {
      TrimIgnoresEol(s[..|s| - 1]);
      assert s == s[..|s| - 1] + [s[|s| - 1]];
      TrimTrailing(s[..|s| - 1], s[|s| - 1]);
    }
  }

  lemma FieldLineRead(limits: HttpLimits, h: HeaderState, field: Header)
    requires Clean(field)
    ensures IsLine(FieldLine(field)) && TrimEol(FieldLine(field)) != []
    ensures HeaderLine(limits, h, FieldLine(field))
         == var total := h.total + |FieldLine(field)|;
            if total > limits.maxHeaderBytes then Bad(HeadersTooLarge)
            else AddHeader(h.(total := total), Stored(field).0, Stored(field).1)
  {
    hide AddHeader, TrimEol, Trim, SplitOnce;
    var line := FieldLine(field);
    assert line[..|line| - 1] == field.0 + [COLON, SP] + field.1 + [CR];
    var front := field.0 + [COLON, SP];
    var tail := field.1 + CRLF;
    assert line == front + tail;
    TrimEolInside(front, tail);
    TrimIgnoresEol(tail);
    assert tail == field.1 + [CR] + [LF];
    TrimTrailing(field.1 + [CR], LF);
    TrimTrailing(field.1, CR);
    var value := TrimEol(tail);
    assert front + value == field.0 + [COLON] + ([SP] + value);
    SplitOnceAt(field.0, COLON, [SP] + value);
    TrimLeading(SP, value);
  }

  // ---------------------------------------------------------------- reading all fields back

  /** The header state after storing one field, ignoring the configured limits. */
  function AcceptField(h: HeaderState, field: Header): (next: Option<HeaderState>)
    ensures next.Some? ==>
      next.value.total == h.total + |FieldLine(field)| && next.value.headers == h.headers + [Stored(field)]
  {
    match AddHeader(h.(total := h.total + |FieldLine(field)|), Stored(field).0, Stored(field).1)
    case More(next) => Some(next)
    case _ => None
  }

  function Accept(h: HeaderState, fields: seq<Header>): Option<HeaderState>
    decreases |fields|
  {
    if fields == [] then Some(h)
    else
      var next := AcceptField(h, fields[0]);
      if next.None? then None else Accept(next.value, fields[1..])
  }

  /** Whether a header section with these fields stays within the limits. */
  predicate SectionFits(limits: HttpLimits, after: HeaderState, fields: seq<Header>) {
    && |after.headers| < limits.maxHeaderCount
    && after.total + |CRLF| <= limits.maxHeaderBytes
    && |CRLF| <= limits.maxHeaderLineBytes
    && forall i :: 0 <= i < |fields| ==> |FieldLine(fields[i])| <= limits.maxHeaderLineBytes
  }

  lemma {:induction false} AcceptGrows(h: HeaderState, fields: seq<Header>)
    ensures
      var after := Accept(h, fields);
      after.Some? ==> after.value.total >= h.total && |after.value.headers| == |h.headers| + |fields|
    decreases |fields|
  {
    hide AcceptField, FieldLine, Stored;
    if fields != [] {
      var next := AcceptField(h, fields[0]);
      if next.Some? {
        AcceptGrows(next.value, fields[1..]);
      }
    }
  }

  lemma TerminatorLine()
    ensures IsLine(CRLF) && TrimEol(CRLF) == []
  {
    TrimEolCrlf([]);
    assert [] + CRLF == CRLF;
  }

  /** A rendered header section reads back as its stored fields exactly when it fits. */
  lemma {:induction false} SectionReads(limits: HttpLimits, h: HeaderState, fields: seq<Header>, rest: bytes, end: End)
    requires forall i :: 0 <= i < |fields| ==> Clean(fields[i])
    requires Accept(h, fields).Some?
    ensures
      var after := Accept(h, fields).value;
      var r := ReadHeaders(limits, h, Flatten(FieldLines(fields)) + CRLF + rest, end);
      if SectionFits(limits, after, fields) then r == Ok((after, rest)) else r.Err?
    decreases |fields|
  {
    hide AddHeader, FieldLine, FieldLines, Flatten, HeaderLine, ReadLine, TrimEol, AcceptField;
    AcceptGrows(h, fields);
    if fields == [] {
      NoFieldLines();
      SectionEnds(limits, h, rest, end);
      assert Flatten(FieldLines(fields)) + CRLF + rest == CRLF + rest;
    } else {
      var field := fields[0];
      var line := FieldLine(field);
      var more := Flatten(FieldLines(fields[1..])) + CRLF + rest;
      assert fields == [field] + fields[1..];
      FieldLinesCons(field, fields[1..]);
      assert Flatten(FieldLines(fields)) + CRLF + rest == line + more;
      FieldLineRead(limits, h, field);
      LineOrTooLong(line, more, end, limits.maxHeaderLineBytes, HeaderLineTooLong);
      AcceptsField(h, field);
      var next := AcceptField(h, field).value;
      AcceptGrows(next, fields[1..]);
      SectionReads(limits, next, fields[1..], rest, end);
      FitsTail(limits, Accept(h, fields).value, fields);
    }
  }

  lemma AcceptsField(h: HeaderState, field: Header)
    requires AcceptField(h, field).Some?
    ensures
      var next := AcceptField(h, field).value;
      && next.total == h.total + |FieldLine(field)|
      && AddHeader(h.(total := h.total + |FieldLine(field)|), Stored(field).0, Stored(field).1) == More(next)
  {
    hide AddHeader, FieldLine, Stored;
  }

  lemma SectionEnds(limits: HttpLimits, h: HeaderState, rest: bytes, end: End)
    ensures
      var r := ReadHeaders(limits, h, CRLF + rest, end);
      if SectionFits(limits, h, []) then r == Ok((h, rest)) else r.Err?
  {
    hide HeaderLine, ReadLine, TrimEol;
    TerminatorLine();
    LineOrTooLong(CRLF, rest, end, limits.maxHeaderLineBytes, HeaderLineTooLong);
    BlankOrTooLarge(limits, h, CRLF);
  }

  lemma FitsTail(limits: HttpLimits, after: HeaderState, fields: seq<Header>)
    requires fields != []
    ensures SectionFits(limits, after, fields) <==>
      SectionFits(limits, after, fields[1..]) && |FieldLine(fields[0])| <= limits.maxHeaderLineBytes
  {
    hide FieldLine;
    assert forall i :: 0 < i < |fields| ==> fields[i] == fields[1..][i - 1];
  }

  lemma LineOrTooLong(line: bytes, rest: bytes, end: End, max: nat, tooLong: HttpError)
    requires IsLine(line)
    ensures ReadLine(line + rest, end, max, tooLong) == if |line| <= max then Ok((line, rest)) else Err(tooLong)
  {
    var data := line + rest;
    assert data[..|line| - 1] == line[..|line| - 1];
    IndexOfIs(data, LF, |line| - 1);
    assert data[..|line|] == line && data[|line|..] == rest;
  }

  lemma BlankOrTooLarge(limits: HttpLimits, h: HeaderState, line: bytes)
    requires TrimEol(line) == []
    ensures HeaderLine(limits, h, line)
         == if h.total + |line| > limits.maxHeaderBytes then Bad(HeadersTooLarge) else Blank
  {
  }

  // ---------------------------------------------------------------- the fields of a request

  /** A caller's field that neither declares a length nor a transfer encoding. */
  predicate Plain(field: Header) {
    && Clean(field)
    && Stored(field).0 != CONTENT_LENGTH
    && (Stored(field).0 == TRANSFER_ENCODING ==> Stored(field).1 == [])
  }

  function StoredAll(fields: seq<Header>): (r: seq<Header>)
    ensures |r| == |fields| && forall i :: 0 <= i < |fields| ==> r[i] == Stored(fields[i])
  {
    seq(|fields|, i requires 0 <= i < |fields| => Stored(fields[i]))
  }

  lemma PlainAdded(h: HeaderState, field: Header)
    requires Plain(field)
    ensures AcceptField(h, field)
         == Some(h.(total := h.total + |FieldLine(field)|, headers := h.headers + [Stored(field)]))
  {
    hide Stored, Clean, CONTENT_LENGTH, TRANSFER_ENCODING, FieldLine;
  }

  lemma StoredCons(fields: seq<Header>)
    requires fields != []
    ensures StoredAll(fields) == [Stored(fields[0])] + StoredAll(fields[1..])
    ensures Flatten(FieldLines(fields)) == FieldLine(fields[0]) + Flatten(FieldLines(fields[1..]))
  {
    hide Stored, FieldLine, FieldLines, Flatten;
    FieldLinesCons(fields[0], fields[1..]);
    assert fields == [fields[0]] + fields[1..];
    assert forall i :: 0 < i < |fields| ==> fields[i] == fields[1..][i - 1];
  }

  lemma NoLines()
    ensures Flatten(FieldLines([])) == [] && StoredAll([]) == []
  {
  }

  lemma {:induction false} AcceptPlain(h: HeaderState, fields: seq<Header>)
    requires forall i :: 0 <= i < |fields| ==> Plain(fields[i])
    ensures Accept(h, fields)
         == Some(HeaderState(h.headers + StoredAll(fields), h.contentLength, h.total + |Flatten(FieldLines(fields))|))
    decreases |fields|
  {
    hide FieldLine, Stored, Plain, AcceptField, FieldLines, Flatten, StoredAll;
    if fields == [] {
      NoLines();
      assert h.headers + [] == h.headers;
    } else {
      var line, own, more := FieldLine(fields[0]), [Stored(fields[0])], StoredAll(fields[1..]);
      PlainAdded(h, fields[0]);
      AcceptPlain(h.(total := h.total + |line|, headers := h.headers + own), fields[1..]);
      StoredCons(fields);
      assert h.headers + (own + more) == (h.headers + own) + more;
    }
  }

  lemma {:induction false} AcceptAppend(h: HeaderState, a: seq<Header>, b: seq<Header>)
    requires Accept(h, a).Some?
    ensures Accept(h, a + b) == Accept(Accept(h, a).value, b)
    decreases |a|
  {
    hide AcceptField, FieldLine, Stored;
    if a == [] {
      assert a + b == b;
    } else {
      assert (a + b)[1..] == a[1..] + b;
      AcceptAppend(AcceptField(h, a[0]).value, a[1..], b);
    }
  }

  lemma OwnNames()
    ensures Trim(HOST) == HOST && Trim(CONNECTION) == CONNECTION && Trim(CONTENT_LENGTH_NAME) == CONTENT_LENGTH_NAME
    ensures ToLower(CONTENT_LENGTH_NAME) == CONTENT_LENGTH
    ensures ToLower(HOST) != CONTENT_LENGTH && ToLower(CONNECTION) != CONTENT_LENGTH
    ensures ToLower(HOST) != TRANSFER_ENCODING && ToLower(CONNECTION) != TRANSFER_ENCODING
  {
    TrimFixed(HOST);
    TrimFixed(CONNECTION);
    TrimFixed(CONTENT_LENGTH_NAME);
    assert |HOST| == 4 && |CONNECTION| == 10 && |CONTENT_LENGTH| == 14 && |TRANSFER_ENCODING| == 17;
  }

  lemma OwnText(n: nat)
    ensures COLON !in HOST && COLON !in CONNECTION && COLON !in CONTENT_LENGTH_NAME
    ensures LF !in HOST && LF !in CONNECTION && LF !in CONTENT_LENGTH_NAME && LF !in CLOSE && LF !in Format(n, 10)
  {
    hide Format;
    FormatDigits(n, 10);
  }

  lemma OwnFields(host: bytes, n: nat)
    requires LF !in host
    ensures Plain((HOST, host)) && Plain((CONNECTION, CLOSE))
    ensures Clean((CONTENT_LENGTH_NAME, Format(n, 10)))
    ensures Stored((CONTENT_LENGTH_NAME, Format(n, 10))) == (CONTENT_LENGTH, Format(n, 10))
  {
    hide Format, Trim, ToLower, HOST, CONNECTION, CONTENT_LENGTH_NAME, CONTENT_LENGTH, TRANSFER_ENCODING, CLOSE;
    FormatDigits(n, 10);
    TrimFixed(Format(n, 10));
    OwnNames();
    OwnText(n);
  }

  lemma LengthAdded(h: HeaderState, n: nat)
    requires h.contentLength.None? && n <= USIZE_MAX
    ensures
      var field := (CONTENT_LENGTH_NAME, Format(n, 10));
      AcceptField(h, field)
      == Some(HeaderState(h.headers + [Stored(field)], Some(n), h.total + |FieldLine(field)|))
  {
    hide Format, ParseUnsigned, CONTENT_LENGTH, CONTENT_LENGTH_NAME, Stored, FieldLine, Clean, Plain;
    ParseFormat(n, 10, USIZE_MAX);
    OwnFields([], n);
  }

  lemma AcceptLength(h: HeaderState, n: nat)
    requires h.contentLength.None? && n <= USIZE_MAX
    ensures
      var field := (CONTENT_LENGTH_NAME, Format(n, 10));
      Accept(h, [field])
      == Some(HeaderState(h.headers + StoredAll([field]), Some(n), h.total + |Flatten(FieldLines([field]))|))
  {
    hide Format, Stored, FieldLine, AcceptField, CONTENT_LENGTH, CONTENT_LENGTH_NAME, Flatten, FieldLines;
    var field := (CONTENT_LENGTH_NAME, Format(n, 10));
    LengthAdded(h, n);
    OneField(field);
    var fields := [field];
    assert fields[0] == field && fields[1..] == [];
    assert StoredAll(fields) == [Stored(field)];
  }

  function BodyLength(body: Option<bytes>): nat {
    if body.Some? then |body.value| else 0
  }

  /** The writer's fields are all accepted; a body declares its length once. */
  lemma AcceptFields(host: bytes, headers: seq<Header>, body: Option<bytes>)
    requires LF !in host && forall i :: 0 <= i < |headers| ==> Plain(headers[i])
    requires BodyLength(body) <= USIZE_MAX
    ensures
      var fields := Fields(host, headers, body);
      Accept(NO_HEADERS, fields)
      == Some(HeaderState(
           StoredAll(fields),
           if body.Some? then Some(|body.value|) else None,
           |Flatten(FieldLines(fields))|))
  {
    hide Plain, Format, Stored, FieldLine, FieldLines, Flatten, Accept;
    OwnFields(host, 0);
    var front := [(HOST, host)] + headers;
    AcceptPlain(NO_HEADERS, front);
    var h := Accept(NO_HEADERS, front).value;
    assert h.headers == StoredAll(front);
    var sent := front;
    if body.Some? {
      var field := (CONTENT_LENGTH_NAME, Format(|body.value|, 10));
      AcceptAppend(NO_HEADERS, front, [field]);
      AcceptLength(h, |body.value|);
      FieldLinesAppend(front, [field]);
      assert StoredAll(front) + StoredAll([field]) == StoredAll(front + [field]);
      sent := front + [field];
    }
    var last := [(CONNECTION, CLOSE)];
    AcceptAppend(NO_HEADERS, sent, last);
    AcceptPlain(Accept(NO_HEADERS, sent).value, last);
    FieldLinesAppend(sent, last);
    assert StoredAll(sent) + StoredAll(last) == StoredAll(sent + last);
    assert Fields(host, headers, body) == sent + last;
  }

  // ---------------------------------------------------------------- the round trip

  lemma LineOf(front: bytes)
    requires LF !in front
    ensures IsLine(front + [LF])
  {
    assert (front + [LF])[..|front|] == front;
  }

  lemma RequestLineIsLine(verb: bytes, path: bytes)
    requires LF !in verb && LF !in path
    ensures IsLine(RequestLine(verb, path))
  {
    assert LF !in VERSION;
    hide IsLine, VERSION;
    var front := verb + [SP] + path + [SP] + VERSION + [CR];
    LineOf(front);
    assert RequestLine(verb, path) == front + [LF];
  }

  lemma RequestLineRead(verb: bytes, path: bytes)
    requires verb != [] && NoSpace(verb) && path != [] && NoSpace(path)
    ensures IsLine(RequestLine(verb, path))
    ensures
      var words := Words(RequestLine(verb, path));
      |words| >= 2 && words[0] == verb && words[1] == path
  {
    RequestLineIsLine(verb, path);
    hide Words, IsLine, VERSION, NoSpace;
    FirstWord(verb, SP, path + [SP] + (VERSION + CRLF));
    FirstWord(path, SP, VERSION + CRLF);
  }

  /** Whether a request fits the reader's limits. */
  predicate Fits(limits: HttpLimits, verb: bytes, path: bytes, fields: seq<Header>, body: Option<bytes>) {
    && |RequestLine(verb, path)| <= limits.maxRequestLineBytes
    && |fields| < limits.maxHeaderCount
    && |Flatten(FieldLines(fields))| + |CRLF| <= limits.maxHeaderBytes
    && |CRLF| <= limits.maxHeaderLineBytes
    && (forall i :: 0 <= i < |fields| ==> |FieldLine(fields[i])| <= limits.maxHeaderLineBytes)
    && BodyLength(body) <= limits.maxBodyBytes
  }

  /** Reading a rendered request, whatever follows it, gives back verb, path, header list
      (names lowercased, names and values trimmed) and body, an empty body becoming none;
      and does so exactly when the request fits the limits. */
  lemma FieldsRoundTrip(
    limits: HttpLimits, verb: bytes, path: bytes, host: bytes, headers: seq<Header>, body: Option<bytes>,
    rest: bytes, end: End)
    requires verb != [] && NoSpace(verb) && path != [] && NoSpace(path)
    requires LF !in host && forall i :: 0 <= i < |headers| ==> Plain(headers[i])
    requires BodyLength(body) <= USIZE_MAX
    ensures
      var fields := Fields(host, headers, body);
      var r := ParseRequest(limits, Rendered(verb, path, host, headers, body) + rest, end);
      if Fits(limits, verb, path, fields, body) then
        r == Ok((
          Request(verb, path, StoredAll(fields), BodyLength(body), if BodyLength(body) == 0 then None else body),
          rest))
      else r.Err?
  {
    hide FieldLine, FieldLines, Flatten, Words, ReadHeaders, Accept, Plain, Stored, ReadLine, RequestLine;
    var fields := Fields(host, headers, body);
    var content := if body.Some? then body.value else [];
    var line := RequestLine(verb, path);
    var section := Flatten(FieldLines(fields)) + CRLF + (content + rest);
    assert Rendered(verb, path, host, headers, body) + rest == line + section;
    RequestLineRead(verb, path);
    LineOrTooLong(line, section, end, limits.maxRequestLineBytes, RequestLineTooLong);
    AcceptFields(host, headers, body);
    FieldsClean(host, headers, body);
    SectionReads(limits, NO_HEADERS, fields, content + rest, end);
    assert (content + rest)[..|content|] == content && (content + rest)[|content|..] == rest;
  }

  lemma FieldsClean(host: bytes, headers: seq<Header>, body: Option<bytes>)
    requires LF !in host && forall i :: 0 <= i < |headers| ==> Plain(headers[i])
    ensures
      var fields := Fields(host, headers, body);
      forall i :: 0 <= i < |fields| ==> Clean(fields[i])
  {
    hide Clean, Format, Stored;
    OwnFields(host, BodyLength(body));
  }

  // ---------------------------------------------------------------- the same, spelled out

  /** The text of a list of fields. */
  function HeaderText(headers: seq<Header>): bytes {
    if headers == [] then []
    else headers[0].0 + Ascii(": ") + headers[0].1 + Ascii("\r\n") + HeaderText(headers[1..])
  }

  /** The text of a request. */
  function RequestText(verb: bytes, path: bytes, host: bytes, headers: seq<Header>, body: Option<bytes>): bytes {
    verb + Ascii(" ") + path + Ascii(" HTTP/1.1\r\nHost: ") + host + Ascii("\r\n")
    + HeaderText(headers)
    + (if body.Some? then Ascii("Content-Length: ") + Format(|body.value|, 10) + Ascii("\r\n") else [])
    + Ascii("Connection: close\r\n\r\n")
    + (if body.Some? then body.value else [])
  }

  lemma TextsSpelled()
    ensures Ascii(" ") == [SP] && Ascii(": ") == [COLON, SP] && Ascii("\r\n") == CRLF
    ensures Ascii("Content-Length: ") == CONTENT_LENGTH_NAME + [COLON, SP]
  {
  }

  lemma HostSpelled()
    ensures Ascii(" HTTP/1.1\r\nHost: ") == [SP] + (VERSION + CRLF) + (HOST + [COLON, SP])
  {
  }

  lemma EndSpelled()
    ensures Ascii("Connection: close\r\n\r\n") == CONNECTION + [COLON, SP] + CLOSE + CRLF + CRLF
  {
  }

  lemma {:induction false} HeaderTextIs(headers: seq<Header>)
    ensures HeaderText(headers) == Flatten(FieldLines(headers))
  {
    if headers == [] {
      NoFieldLines();
    } else {
      TextsSpelled();
      HeaderTextIs(headers[1..]);
      FieldLinesCons(headers[0], headers[1..]);
      assert headers == [headers[0]] + headers[1..];
      hide Flatten, FieldLines, Ascii, CRLF;
      assert FieldLine(headers[0]) == headers[0].0 + Ascii(": ") + headers[0].1 + Ascii("\r\n");
    }
  }

  lemma FieldsText(host: bytes, headers: seq<Header>, body: Option<bytes>)
    ensures Flatten(FieldLines(Fields(host, headers, body)))
         == FieldLine((HOST, host)) + HeaderText(headers)
            + (if body.Some? then FieldLine((CONTENT_LENGTH_NAME, Format(|body.value|, 10))) else [])
            + FieldLine((CONNECTION, CLOSE))
  {
    hide Flatten, FieldLines, FieldLine, HeaderText, Format;
    HeaderTextIs(headers);
    var sent := [(HOST, host)] + headers;
    FieldLinesAppend([(HOST, host)], headers);
    OneField((HOST, host));
    if body.Some? {
      var field := (CONTENT_LENGTH_NAME, Format(|body.value|, 10));
      FieldLinesAppend(sent, [field]);
      OneField(field);
      sent := sent + [field];
    }
    FieldLinesAppend(sent, [(CONNECTION, CLOSE)]);
    OneField((CONNECTION, CLOSE));
    assert sent + [(CONNECTION, CLOSE)] == Fields(host, headers, body);
  }

  lemma StartText(verb: bytes, path: bytes, host: bytes)
    ensures RequestLine(verb, path) + FieldLine((HOST, host))
         == verb + Ascii(" ") + path + Ascii(" HTTP/1.1\r\nHost: ") + host + Ascii("\r\n")
  {
    TextsSpelled();
    HostSpelled();
    hide Ascii, VERSION, HOST, CRLF;
  }

  lemma OwnTexts(length: nat)
    ensures FieldLine((CONTENT_LENGTH_NAME, Format(length, 10)))
         == Ascii("Content-Length: ") + Format(length, 10) + Ascii("\r\n")
    ensures FieldLine((CONNECTION, CLOSE)) + CRLF == Ascii("Connection: close\r\n\r\n")
  {
    TextsSpelled();
    EndSpelled();
    hide Ascii, Format, CONTENT_LENGTH_NAME, CONNECTION, CLOSE;
  }

  /** What the writer sends, letter by letter. */
  lemma RenderedText(verb: bytes, path: bytes, host: bytes, headers: seq<Header>, body: Option<bytes>)
    ensures Rendered(verb, path, host, headers, body) == RequestText(verb, path, host, headers, body)
  {
    FieldsText(host, headers, body);
    StartText(verb, path, host);
    OwnTexts(if body.Some? then |body.value| else 0);
    hide Flatten, FieldLines, FieldLine, RequestLine, HeaderText, Format, Fields, Ascii;
    var start := RequestLine(verb, path) + FieldLine((HOST, host));
    var length := if body.Some? then FieldLine((CONTENT_LENGTH_NAME, Format(|body.value|, 10))) else [];
    var close := FieldLine((CONNECTION, CLOSE));
    var content := if body.Some? then body.value else [];
    Regrouped(RequestLine(verb, path), FieldLine((HOST, host)), HeaderText(headers), length, close, content);
  }

  lemma Regrouped(line: bytes, host: bytes, text: bytes, length: bytes, close: bytes, content: bytes)
    ensures line + (host + text + length + close) + CRLF + content
         == (line + host) + text + length + (close + CRLF) + content
  {
    hide CRLF;
  }

  // ---------------------------------------------------------------- the round trip, spelled out

  function TextSize(headers: seq<Header>): nat {
    if headers == [] then 0 else |headers[0].0| + |headers[0].1| + 4 + TextSize(headers[1..])
  }

  /** Whether a request fits the reader's limits, in numbers. */
  predicate FitsLimits(
    limits: HttpLimits, verb: bytes, path: bytes, host: bytes, headers: seq<Header>, body: Option<bytes>)
  {
    var digits := if body.Some? then |Format(|body.value|, 10)| else 0;
    && |verb| + |path| + 12 <= limits.maxRequestLineBytes
    && |headers| + (if body.Some? then 3 else 2) < limits.maxHeaderCount
    && 8 + |host| + TextSize(headers) + (if body.Some? then 18 + digits else 0) + 19 + 2 <= limits.maxHeaderBytes
    && 19 <= limits.maxHeaderLineBytes && 8 + |host| <= limits.maxHeaderLineBytes
    && (body.Some? ==> 18 + digits <= limits.maxHeaderLineBytes)
    && (forall i :: 0 <= i < |headers| ==> |headers[i].0| + |headers[i].1| + 4 <= limits.maxHeaderLineBytes)
    && (body.Some? ==> |body.value| <= limits.maxBodyBytes)
  }

  lemma {:induction false} TextSizeIs(headers: seq<Header>)
    ensures |Flatten(FieldLines(headers))| == TextSize(headers)
  {
    if headers == [] {
      NoFieldLines();
    } else {
      TextSizeIs(headers[1..]);
      FieldLinesCons(headers[0], headers[1..]);
      assert headers == [headers[0]] + headers[1..];
    }
  }

  lemma OwnSizes(host: bytes, n: nat)
    ensures |FieldLine((HOST, host))| == 8 + |host| && |FieldLine((CONNECTION, CLOSE))| == 19
    ensures |FieldLine((CONTENT_LENGTH_NAME, Format(n, 10)))| == 18 + |Format(n, 10)|
    ensures forall verb, path :: |RequestLine(verb, path)| == |verb| + |path| + 12
    ensures |CRLF| == 2
  {
    hide Format;
    assert |VERSION| == 8 && |HOST| == 4 && |CONNECTION| == 10 && |CLOSE| == 5 && |CONTENT_LENGTH_NAME| == 14;
    hide VERSION, HOST, CONNECTION, CLOSE, CONTENT_LENGTH_NAME;
  }

  lemma SectionSize(host: bytes, headers: seq<Header>, body: Option<bytes>)
    ensures |Flatten(FieldLines(Fields(host, headers, body)))|
         == 8 + |host| + TextSize(headers) + (if body.Some? then 18 + |Format(|body.value|, 10)| else 0) + 19
  {
    FieldsText(host, headers, body);
    HeaderTextIs(headers);
    TextSizeIs(headers);
    OwnSizes(host, if body.Some? then |body.value| else 0);
    hide Flatten, FieldLines, FieldLine, HeaderText, Format, Fields, HOST, CONNECTION, CLOSE, CONTENT_LENGTH_NAME;
  }

  lemma FitsIff(limits: HttpLimits, verb: bytes, path: bytes, host: bytes, headers: seq<Header>, body: Option<bytes>)
    ensures Fits(limits, verb, path, Fields(host, headers, body), body)
       <==> FitsLimits(limits, verb, path, host, headers, body)
  {
    SectionSize(host, headers, body);
    OwnSizes(host, if body.Some? then |body.value| else 0);
    hide RequestLine, Format, HOST, CONNECTION, CLOSE, CONTENT_LENGTH_NAME, Flatten, FieldLines;
    var fields := Fields(host, headers, body);
    var own := if body.Some? then 3 else 2;
    assert |fields| == |headers| + own;
    assert fields[0] == (HOST, host) && fields[|fields| - 1] == (CONNECTION, CLOSE);
    assert body.Some? ==> fields[|headers| + 1] == (CONTENT_LENGTH_NAME, Format(|body.value|, 10));
    assert forall i :: 0 <= i < |headers| ==> fields[i + 1] == headers[i];
    assert forall i :: 0 <= i < |headers| ==> |FieldLine(headers[i])| == |headers[i].0| + |headers[i].1| + 4;
    hide FieldLine;
    LinesFit(limits.maxHeaderLineBytes, fields, headers, body);
  }

  lemma LinesFit(max: nat, fields: seq<Header>, headers: seq<Header>, body: Option<bytes>)
    requires |fields| == |headers| + if body.Some? then 3 else 2
    requires forall i :: 0 <= i < |headers| ==> fields[i + 1] == headers[i]
    ensures
      (forall i :: 0 <= i < |fields| ==> |FieldLine(fields[i])| <= max)
      <==>
      && |FieldLine(fields[0])| <= max && |FieldLine(fields[|fields| - 1])| <= max
      && (body.Some? ==> |FieldLine(fields[|headers| + 1])| <= max)
      && (forall i :: 0 <= i < |headers| ==> |FieldLine(headers[i])| <= max)
  {
    hide FieldLine;
    forall i | 0 < i <= |headers|
      ensures fields[i] == headers[i - 1]
    {
      assert fields[(i - 1) + 1] == headers[i - 1];
    }
  }

  /** A caller's field: on one line, its name without a colon, and neither a length nor a
      transfer coding. */
  predicate CallersField(field: Header) {
    && ':' as int !in field.0 && '\n' as int !in field.0 && '\n' as int !in field.1
    && ToLower(Trim(field.0)) != Ascii("content-length")
    && (ToLower(Trim(field.0)) == Ascii("transfer-encoding") ==> Trim(field.1) == [])
  }

  lemma CallersFieldIsPlain(field: Header)
    ensures CallersField(field) <==> Plain(field)
  {
    Names();
    hide Trim, ToLower, Ascii, CONTENT_LENGTH, TRANSFER_ENCODING;
  }

  lemma StoredHost(host: bytes)
    ensures Stored((HOST, host)) == (Ascii("host"), Trim(host))
  {
    TrimFixed(HOST);
    assert ToLower(HOST) == Ascii("host");
  }

  lemma StoredLength(n: nat)
    ensures Stored((CONTENT_LENGTH_NAME, Format(n, 10))) == (Ascii("content-length"), Format(n, 10))
  {
    hide Format;
    OwnFields([], n);
  }

  lemma StoredConnection()
    ensures Stored((CONNECTION, CLOSE)) == (Ascii("connection"), Ascii("close"))
  {
    TrimFixed(CONNECTION);
    TrimFixed(CLOSE);
    assert ToLower(CONNECTION) == Ascii("connection");
  }

  /** The header list the server ends up with. */
  function ServerHeaders(host: bytes, headers: seq<Header>, body: Option<bytes>): (r: seq<Header>)
    ensures |r| == |headers| + if body.Some? then 3 else 2
  {
    [(Ascii("host"), Trim(host))]
    + seq(|headers|, i requires 0 <= i < |headers| => (ToLower(Trim(headers[i].0)), Trim(headers[i].1)))
    + (if body.Some? then [(Ascii("content-length"), Format(|body.value|, 10))] else [])
    + [(Ascii("connection"), Ascii("close"))]
  }

  lemma StoredAppend(a: seq<Header>, b: seq<Header>)
    ensures StoredAll(a + b) == StoredAll(a) + StoredAll(b)
  {
    hide Stored;
  }

  lemma StoredOne(field: Header)
    ensures StoredAll([field]) == [Stored(field)]
  {
    hide Stored;
  }

  lemma ServerHeadersAre(host: bytes, headers: seq<Header>, body: Option<bytes>)
    ensures StoredAll(Fields(host, headers, body)) == ServerHeaders(host, headers, body)
  {
    StoredHost(host);
    StoredConnection();
    hide StoredAll, Format, Trim, ToLower, Ascii, HOST, CONNECTION, CLOSE, CONTENT_LENGTH_NAME;
    var length := if body.Some? then [(CONTENT_LENGTH_NAME, Format(|body.value|, 10))] else [];
    StoredAppend([(HOST, host)] + headers + length, [(CONNECTION, CLOSE)]);
    StoredAppend([(HOST, host)] + headers, length);
    StoredAppend([(HOST, host)], headers);
    StoredOne((HOST, host));
    StoredOne((CONNECTION, CLOSE));
    StoredHeaders(headers);
    if body.Some? {
      StoredLength(|body.value|);
      StoredOne(length[0]);
    } else {
      StoredNone();
    }
  }

  lemma StoredNone()
    ensures StoredAll([]) == []
  {
  }

  lemma StoredHeaders(headers: seq<Header>)
    ensures StoredAll(headers)
         == seq(|headers|, i requires 0 <= i < |headers| => (ToLower(Trim(headers[i].0)), Trim(headers[i].1)))
  {
  }

  /** Sending a request and reading it back, whatever follows it: the text is read exactly
      when it fits the limits, and then the server holds the verb, the path, the host, every
      header of the caller in order with its name in lower case and both parts trimmed, the
      body's length and the body, an empty body becoming none. */
  lemma RoundTrip(
    limits: HttpLimits, verb: bytes, path: bytes, host: bytes, headers: seq<Header>, body: Option<bytes>,
    rest: bytes, end: End)
    requires verb != [] && NoSpace(verb) && path != [] && NoSpace(path)
    requires '\n' as int !in host && forall i :: 0 <= i < |headers| ==> CallersField(headers[i])
    requires body.Some? ==> |body.value| <= 0xffff_ffff_ffff_ffff
    ensures
      var r := ParseRequest(limits, RequestText(verb, path, host, headers, body) + rest, end);
      if FitsLimits(limits, verb, path, host, headers, body) then
        var content := if body.None? || body.value == [] then None else body;
        var length := if body.Some? then |body.value| else 0;
        r == Ok((Request(verb, path, ServerHeaders(host, headers, body), length, content), rest))
      else r.Err?
  {
    hide ParseRequest, RequestText, Rendered, ServerHeaders, Fields, Fits, FitsLimits;
    hide StoredAll, Plain, CallersField, NoSpace;
    forall i | 0 <= i < |headers|
      ensures Plain(headers[i])
    {
      CallersFieldIsPlain(headers[i]);
    }
    FieldsRoundTrip(limits, verb, path, host, headers, body, rest, end);
    RenderedText(verb, path, host, headers, body);
    FitsIff(limits, verb, path, host, headers, body);
    ServerHeadersAre(host, headers, body);
  }

  /** The same end to end: the reader gets the request's text in any pieces. */
  method ReadRendered(
    src: Source, limits: HttpLimits, verb: bytes, path: bytes, host: bytes, headers: seq<Header>, body: Option<bytes>)
    returns (r: Result<Request, HttpError>)
    requires src.Valid() && src.Data() == RequestText(verb, path, host, headers, body)
    requires verb != [] && NoSpace(verb) && path != [] && NoSpace(path)
    requires '\n' as int !in host && forall i :: 0 <= i < |headers| ==> CallersField(headers[i])
    requires body.Some? ==> |body.value| <= 0xffff_ffff_ffff_ffff
    modifies src
    ensures
      if FitsLimits(limits, verb, path, host, headers, body) then
        var content := if body.None? || body.value == [] then None else body;
        var length := if body.Some? then |body.value| else 0;
        && r == Ok(Request(verb, path, ServerHeaders(host, headers, body), length, content))
        && src.Data() == []
      else r.Err?
  {
    hide ParseRequest, RequestText, ServerHeaders, FitsLimits, CallersField, NoSpace;
    RoundTrip(limits, verb, path, host, headers, body, [], src.end);
    var text := RequestText(verb, path, host, headers, body);
    assert text + [] == text;
    ghost var peak;
    r, peak := ReadRequest(src, limits);
  }
}
