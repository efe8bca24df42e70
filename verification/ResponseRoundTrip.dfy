/** The server's response rendering, and the round trip through the client's reader. */
module ResponseRoundTrip {
  import opened ByteSource
  import opened Bytes
  import opened GrowingBuffer
  import HttpRequest
  import opened ProbeDeliveries
  import opened ProbeResponse
  import opened RequestRoundTrip
  import opened Wrappers

  const ALLOW_ORIGIN: bytes := Ascii("Access-Control-Allow-Origin")
  const ALLOW_METHODS: bytes := Ascii("Access-Control-Allow-Methods")
  const ALLOW_HEADERS: bytes := Ascii("Access-Control-Allow-Headers")
  const METHODS: bytes := Ascii("GET, POST, OPTIONS")
  const ALLOWED_HEADERS: bytes := 
    Ascii("Content-Type, Authorization, ") + Ascii("X-Genie-Origin, X-Genie-Token")
  const VARY: bytes := Ascii("Vary")
  const ORIGIN: bytes := Ascii("Origin")
  const CONTENT_TYPE: bytes := Ascii("Content-Type")

  // ---------------------------------------------------------------- rendering

  const OK: bytes := Ascii("OK")
  const BAD_REQUEST: bytes := Ascii("Bad Request")
  const FORBIDDEN: bytes := Ascii("Forbidden")
  const NOT_FOUND: bytes := Ascii("Not Found")
  const REQUEST_TIMEOUT: bytes := Ascii("Request Timeout")
  const PAYLOAD_TOO_LARGE: bytes := Ascii("Payload Too Large")
  const REQUEST_HEADER_FIELDS_TOO_LARGE: bytes := Ascii("Request Header Fields Too Large")
  const BAD_GATEWAY: bytes := Ascii("Bad Gateway")
  const SERVICE_UNAVAILABLE: bytes := Ascii("Service Unavailable")
  const INTERNAL_SERVER_ERROR: bytes := Ascii("Internal Server Error")
  const UNKNOWN: bytes := Ascii("Unknown")

  function StatusText(status: nat): bytes {
    match status
    case 200 => OK
    case 400 => BAD_REQUEST
    case 403 => FORBIDDEN
    case 404 => NOT_FOUND
    case 408 => REQUEST_TIMEOUT
    case 413 => PAYLOAD_TOO_LARGE
    case 431 => REQUEST_HEADER_FIELDS_TOO_LARGE
    case 502 => BAD_GATEWAY
    case 503 => SERVICE_UNAVAILABLE
    case 500 => INTERNAL_SERVER_ERROR
    case _ => UNKNOWN
  }

  function StatusLine(status: nat): bytes {
    VERSION + [SP] + (Format(status, 10) + [SP] + StatusText(status))
  }

  function CorsFields(origin: Option<bytes>): seq<HttpRequest.Header> {
    (if origin.Some? then
       [(ALLOW_ORIGIN, origin.value), (ALLOW_METHODS, METHODS), (ALLOW_HEADERS, ALLOWED_HEADERS)]
     else [])
    + [(VARY, ORIGIN)]
  }

  function ResponseFields(contentType: bytes, length: nat, origin: Option<bytes>): seq<HttpRequest.Header> {
    [(CONTENT_TYPE, contentType), (CONTENT_LENGTH_NAME, Format(length, 10))]
    + CorsFields(origin) + [(CONNECTION, CLOSE)]
  }

  function FieldText(field: HttpRequest.Header): bytes {
    field.0 + [COLON, SP] + field.1
  }

  function FieldTexts(fields: seq<HttpRequest.Header>): (r: seq<bytes>)
    ensures |r| == |fields| && forall i :: 0 <= i < |fields| ==> r[i] == FieldText(fields[i])
  {
    seq(|fields|, i requires 0 <= i < |fields| => FieldText(fields[i]))
  }

  /** Each line followed by its terminator. */
  function Terminated(lines: seq<bytes>): bytes {
    if lines == [] then [] else lines[0] + CRLF + Terminated(lines[1..])
  }

  function HeadLines(status: nat, contentType: bytes, length: nat, origin: Option<bytes>): seq<bytes> {
    [StatusLine(status)] + FieldTexts(ResponseFields(contentType, length, origin))
  }

  function ResponseHead(status: nat, contentType: bytes, length: nat, origin: Option<bytes>): bytes {
    Terminated(HeadLines(status, contentType, length, origin)) + CRLF
  }

  function RenderedResponse(status: nat, contentType: bytes, body: bytes, origin: Option<bytes>): bytes {
    ResponseHead(status, contentType, |body|, origin) + body
  }

  // ---------------------------------------------------------------- where a header section ends

  function Plus(end: Option<nat>, n: nat): Option<nat> {
    if end.Some? then Some(end.value + n) else None
  }

  lemma NotBlankLine(b: byte, rest: bytes)
    requires |rest| >= 3 && (b != CR || rest[0] != LF || rest[1] != CR || rest[2] != LF)
    ensures ([b] + rest)[..4] != BLANK_LINE
  {
    var front := ([b] + rest)[..4];
    assert front[0] == b && front[1] == rest[0] && front[2] == rest[1] && front[3] == rest[2];
    assert BLANK_LINE[0] == CR && BLANK_LINE[1] == LF && BLANK_LINE[2] == CR && BLANK_LINE[3] == LF;
  }

  lemma HeadEndSkip(b: byte, rest: bytes)
    requires |rest| >= 3 && (b != CR || rest[0] != LF || rest[1] != CR || rest[2] != LF)
    ensures HeadEnd([b] + rest) == Plus(HeadEnd(rest), 1)
  {
    NotBlankLine(b, rest);
    hide HeadEnd, BLANK_LINE;
    HeadEndTail([b] + rest);
    assert ([b] + rest)[1..] == rest;
  }

  lemma HeadEndTail(data: bytes)
    requires |data| >= 4 && data[..4] != BLANK_LINE
    ensures HeadEnd(data) == Plus(HeadEnd(data[1..]), 1)
  {
    hide BLANK_LINE;
  }

  lemma PlusTwice(end: Option<nat>, m: nat, n: nat)
    ensures Plus(Plus(end, m), n) == Plus(end, n + m)
  {
  }

  /** A line's own text holds no blank line. */
  lemma {:induction false} HeadEndPastText(text: bytes, more: bytes)
    requires LF !in text && |more| >= 2
    ensures HeadEnd(text + (CRLF + more)) == Plus(HeadEnd(CRLF + more), |text|)
  {
    if text == [] {
      assert text + (CRLF + more) == CRLF + more;
    } else {
      var rest := text[1..] + (CRLF + more);
      assert text + (CRLF + more) == [text[0]] + rest;
      HeadEndPastText(text[1..], more);
      assert rest[0] != LF by {
        if text[1..] == [] { assert rest[0] == CR; } else { assert rest[0] == text[1]; }
      }
      HeadEndSkip(text[0], rest);
    }
  }

  lemma TextThenEnd(text: bytes, more: bytes)
    requires text != [] && LF !in text
    ensures |text + (CRLF + more)| >= 3 && (text + (CRLF + more))[1] != LF
  {
    var rest := text + (CRLF + more);
    assert rest[1] == if |text| == 1 then CR else text[1];
  }

  /** Nor does a line end followed by a line that is not empty. */
  lemma HeadEndPastLine(text: bytes, more: bytes)
    requires text != [] && LF !in text && |more| >= 2
    ensures HeadEnd(CRLF + (text + (CRLF + more))) == Plus(HeadEnd(CRLF + more), |CRLF| + |text|)
  {
    hide HeadEnd, Plus;
    HeadEndPastText(text, more);
    TextThenEnd(text, more);
    HeadEndPastCrlf(text + (CRLF + more));
    PlusTwice(HeadEnd(CRLF + more), |text|, 2);
  }

  lemma HeadEndPastCrlf(rest: bytes)
    requires |rest| >= 3 && rest[1] != LF
    ensures HeadEnd(CRLF + rest) == Plus(HeadEnd(rest), 2)
  {
    hide HeadEnd;
    HeadEndSkip(LF, rest);
    LineFeedNext(rest);
    HeadEndSkip(CR, [LF] + rest);
    assert CRLF + rest == [CR] + ([LF] + rest);
  }

  lemma LineFeedNext(rest: bytes)
    requires |rest| >= 2
    ensures ([LF] + rest)[0] == LF && ([LF] + rest)[1] == rest[0] && ([LF] + rest)[2] == rest[1]
  {
  }

  predicate RealLines(lines: seq<bytes>) {
    forall i :: 0 <= i < |lines| ==> lines[i] != [] && LF !in lines[i]
  }

  lemma {:induction false} HeadEndOfLines(lines: seq<bytes>, rest: bytes)
    requires RealLines(lines)
    ensures HeadEnd(CRLF + (Terminated(lines) + CRLF + rest)) == Some(|CRLF| + |Terminated(lines)| + |CRLF|)
  {
    hide HeadEnd;
    if lines == [] {
      assert CRLF + (Terminated(lines) + CRLF + rest) == BLANK_LINE + rest;
      HeadEndHere(rest);
    } else {
      var more := Terminated(lines[1..]) + CRLF + rest;
      HeadEndOfLines(lines[1..], rest);
      HeadEndPastLine(lines[0], more);
      assert Terminated(lines) + CRLF + rest == lines[0] + (CRLF + more);
    }
  }

  lemma HeadEndHere(rest: bytes)
    ensures HeadEnd(BLANK_LINE + rest) == Some(4)
  {
    assert (BLANK_LINE + rest)[..4] == BLANK_LINE;
  }

  /** The first blank line of a rendered message is the one that ends its header section. */
  lemma HeadEndOfSection(lines: seq<bytes>, rest: bytes)
    requires lines != [] && RealLines(lines)
    ensures HeadEnd(Terminated(lines) + CRLF + rest) == Some(|Terminated(lines)| + |CRLF|)
  {
    hide HeadEnd;
    var more := Terminated(lines[1..]) + CRLF + rest;
    HeadEndOfLines(lines[1..], rest);
    HeadEndPastText(lines[0], more);
    assert Terminated(lines) + CRLF + rest == lines[0] + (CRLF + more);
  }

  // ---------------------------------------------------------------- reading the header section

  lemma FirstTextLine(text: bytes, more: bytes)
    requires LF !in text
    ensures TextLines(text + CRLF + more) == [text] + TextLines(more)
  {
    var data := text + CRLF + more;
    assert data[..|text| + 1] == text + [CR];
    IndexOfIs(data, LF, |text| + 1);
    assert data[|text| + 2..] == more && data[..|text|] == text;
  }

  lemma {:induction false} TextLinesOfSection(lines: seq<bytes>)
    requires RealLines(lines)
    ensures TextLines(Terminated(lines) + CRLF) == lines + [[]]
  {
    hide TextLines;
    if lines == [] {
      LastTextLine();
      assert Terminated(lines) + CRLF == CRLF;
    } else {
      TextLinesOfSection(lines[1..]);
      FirstTextLine(lines[0], Terminated(lines[1..]) + CRLF);
      assert Terminated(lines) + CRLF == lines[0] + CRLF + (Terminated(lines[1..]) + CRLF);
    }
  }

  lemma LastTextLine()
    ensures TextLines(CRLF) == [[]]
  {
    FirstTextLine([], []);
    assert [] + CRLF + [] == CRLF;
    assert TextLines([]) == [];
  }

  /** Field values that stay on their line. */
  predicate OneLine(contentType: bytes, origin: Option<bytes>) {
    LF !in contentType && (origin.Some? ==> LF !in origin.value)
  }

  predicate PlainText(text: bytes) {
    LF !in text && COLON !in text
  }

  lemma ShortPhrasesPlain()
    ensures PlainText(OK) && PlainText(BAD_REQUEST) && PlainText(FORBIDDEN) && PlainText(NOT_FOUND)
  {
  }

  lemma RefusalPhrasesPlain()
    ensures PlainText(REQUEST_TIMEOUT) && PlainText(PAYLOAD_TOO_LARGE) && PlainText(BAD_GATEWAY)
  {
  }

  lemma LongPhrasesPlain()
    ensures PlainText(REQUEST_HEADER_FIELDS_TOO_LARGE) && PlainText(UNKNOWN)
  {
  }

  lemma ServerPhrasesPlain()
    ensures PlainText(SERVICE_UNAVAILABLE) && PlainText(INTERNAL_SERVER_ERROR)
  {
  }

  lemma StatusTextPlain(status: nat)
    ensures PlainText(StatusText(status))
  {
    ShortPhrasesPlain();
    RefusalPhrasesPlain();
    LongPhrasesPlain();
    ServerPhrasesPlain();
    hide PlainText;
    hide OK, BAD_REQUEST, FORBIDDEN, NOT_FOUND, REQUEST_TIMEOUT, PAYLOAD_TOO_LARGE;
    hide REQUEST_HEADER_FIELDS_TOO_LARGE, BAD_GATEWAY, SERVICE_UNAVAILABLE, INTERNAL_SERVER_ERROR, UNKNOWN;
  }

  lemma StatusLinePlain(status: nat)
    ensures StatusLine(status) != [] && StatusLine(status)[0] == 72
    ensures LF !in StatusLine(status) && COLON !in StatusLine(status)
  {
    hide Format, StatusText;
    assert VERSION[0] == 72;
    assert LF !in VERSION && COLON !in VERSION;
    FormatDigits(status, 10);
    assert forall b :: b in Format(status, 10) ==> DigitValue(b) < 10;
    StatusTextPlain(status);
  }

  /** A field name on one line, without a colon, whose first letter is no T. */
  predicate OrdinaryName(name: bytes) {
    name != [] && name[0] in {65, 86, 67} && LF !in name && COLON !in name
  }

  predicate Ordinary(field: HttpRequest.Header) {
    OrdinaryName(field.0) && LF !in field.1
  }

  lemma AllowNames()
    ensures OrdinaryName(ALLOW_ORIGIN) && OrdinaryName(ALLOW_METHODS)
  {
    assert ALLOW_ORIGIN[0] == 65 && ALLOW_METHODS[0] == 65;
  }

  lemma CorsNames()
    ensures OrdinaryName(ALLOW_HEADERS) && OrdinaryName(VARY)
  {
    assert ALLOW_HEADERS[0] == 65 && VARY[0] == 86;
  }

  lemma HeadNames()
    ensures OrdinaryName(CONTENT_TYPE) && OrdinaryName(CONTENT_LENGTH_NAME) && OrdinaryName(CONNECTION)
  {
    assert CONTENT_TYPE[0] == 67 && CONTENT_LENGTH_NAME[0] == 67 && CONNECTION[0] == 67;
  }

  lemma ListPlain()
    ensures LF !in ALLOWED_HEADERS
  {
  }

  lemma CorsValuesPlain()
    ensures LF !in METHODS && LF !in ORIGIN
  {
  }

  lemma HeadValuesPlain(length: nat)
    ensures LF !in CLOSE && LF !in Format(length, 10)
  {
    hide Format;
    FormatDigits(length, 10);
  }

  lemma CorsOrdinary(origin: Option<bytes>)
    requires origin.Some? ==> LF !in origin.value
    ensures forall i :: 0 <= i < |CorsFields(origin)| ==> Ordinary(CorsFields(origin)[i])
  {
    AllowNames();
    CorsNames();
    ListPlain();
    CorsValuesPlain();
    hide OrdinaryName, ALLOW_ORIGIN, ALLOW_METHODS, ALLOW_HEADERS, VARY, METHODS, ALLOWED_HEADERS, ORIGIN;
  }

  lemma FieldsOrdinary(contentType: bytes, length: nat, origin: Option<bytes>)
    requires OneLine(contentType, origin)
    ensures
      var fields := ResponseFields(contentType, length, origin);
      forall i :: 0 <= i < |fields| ==> Ordinary(fields[i])
  {
    HeadNames();
    HeadValuesPlain(length);
    CorsOrdinary(origin);
    hide OrdinaryName, CorsFields, Format, CONTENT_TYPE, CONTENT_LENGTH_NAME, CONNECTION, CLOSE;
    var own, cors := [(CONTENT_TYPE, contentType), (CONTENT_LENGTH_NAME, Format(length, 10))], CorsFields(origin);
    var last := (CONNECTION, CLOSE);
    assert Ordinary(own[0]) && Ordinary(own[1]) && Ordinary(last);
    hide Ordinary;
    var fields := ResponseFields(contentType, length, origin);
    forall i | 0 <= i < |fields|
      ensures Ordinary(fields[i])
    {
      assert fields[i] == if i < 2 then own[i] else if i < 2 + |cors| then cors[i - 2] else last;
    }
  }

  lemma OrdinaryText(field: HttpRequest.Header)
    requires Ordinary(field)
    ensures RealLine(FieldText(field))
  {
    assert ToLower(FieldText(field))[0] == LowerByte(field.0[0]);
    assert TRANSFER_CHUNKED[0] == 116;
  }

  predicate RealLine(line: bytes) {
    line != [] && LF !in line && ToLower(line) != TRANSFER_CHUNKED
  }

  lemma FieldLinesReal(contentType: bytes, length: nat, origin: Option<bytes>)
    requires OneLine(contentType, origin)
    ensures
      var texts := FieldTexts(ResponseFields(contentType, length, origin));
      forall i :: 0 <= i < |texts| ==> RealLine(texts[i])
  {
    hide ResponseFields, FieldText, Ordinary, OneLine, RealLine;
    var fields := ResponseFields(contentType, length, origin);
    FieldsOrdinary(contentType, length, origin);
    forall i | 0 <= i < |fields|
      ensures RealLine(FieldText(fields[i]))
    {
      OrdinaryText(fields[i]);
    }
  }

  lemma HeadLinesReal(status: nat, contentType: bytes, length: nat, origin: Option<bytes>)
    requires OneLine(contentType, origin)
    ensures RealLines(HeadLines(status, contentType, length, origin))
    ensures !AnyChunked(HeadLines(status, contentType, length, origin) + [[]])
  {
    hide StatusLine, FieldTexts, ResponseFields, ToLower, TRANSFER_CHUNKED, OneLine;
    var texts := FieldTexts(ResponseFields(contentType, length, origin));
    StatusLinePlain(status);
    StatusNotChunked(StatusLine(status));
    StatusNotChunked([]);
    FieldLinesReal(contentType, length, origin);
  }

  lemma StatusNotChunked(line: bytes)
    requires line == [] || line[0] == 72
    ensures ToLower(line) != TRANSFER_CHUNKED
  {
    assert TRANSFER_CHUNKED[0] == 116;
    assert line != [] ==> ToLower(line)[0] == LowerByte(72);
  }

  lemma LengthLine(name: bytes, value: bytes)
    requires COLON !in name
    ensures LineLength(FieldText((name, value)))
         == if ToLower(name) == HttpRequest.CONTENT_LENGTH then ParseUnsigned(Trim(value), 10, USIZE_MAX) else None
  {
    hide Trim, ParseUnsigned, HttpRequest.CONTENT_LENGTH;
    assert FieldText((name, value)) == name + [COLON] + ([SP] + value);
    SplitOnceAt(name, COLON, [SP] + value);
    TrimLeading(SP, value);
  }

  lemma NameCases()
    ensures ToLower(CONTENT_LENGTH_NAME) == HttpRequest.CONTENT_LENGTH != ToLower(CONTENT_TYPE)
    ensures COLON !in CONTENT_LENGTH_NAME && COLON !in CONTENT_TYPE
  {
    assert |CONTENT_TYPE| == 12 && |HttpRequest.CONTENT_LENGTH| == 14;
  }

  /** The length line is the first that declares a length, and it declares the body's. */
  lemma DeclaresLength(status: nat, contentType: bytes, length: nat, origin: Option<bytes>)
    requires length <= USIZE_MAX
    ensures FirstLength(HeadLines(status, contentType, length, origin) + [[]]) == Some(length)
  {
    hide StatusLine, Format, FieldText, HttpRequest.CONTENT_LENGTH, CONTENT_LENGTH_NAME, CONTENT_TYPE;
    hide CorsFields, Trim, LineLength;
    hide FirstLength;
    NameCases();
    var texts := FieldTexts(CorsFields(origin) + [(CONNECTION, CLOSE)]) + [[]];
    var typeLine := FieldText((CONTENT_TYPE, contentType));
    var lengthLine := FieldText((CONTENT_LENGTH_NAME, Format(length, 10)));
    assert HeadLines(status, contentType, length, origin) + [[]]
         == [StatusLine(status)] + ([typeLine] + ([lengthLine] + texts));
    NoLength(status);
    LengthLine(CONTENT_TYPE, contentType);
    LengthLine(CONTENT_LENGTH_NAME, Format(length, 10));
    FormatDigits(length, 10);
    TrimFixed(Format(length, 10));
    ParseFormat(length, 10, USIZE_MAX);
    FirstDeclared(StatusLine(status), [typeLine] + ([lengthLine] + texts));
    FirstDeclared(typeLine, [lengthLine] + texts);
    FirstDeclared(lengthLine, texts);
  }

  lemma FirstDeclared(line: bytes, lines: seq<bytes>)
    ensures FirstLength([line] + lines) == if LineLength(line).Some? then LineLength(line) else FirstLength(lines)
  {
    hide LineLength;
    assert ([line] + lines)[1..] == lines;
  }

  lemma NoLength(status: nat)
    ensures LineLength(StatusLine(status)).None?
  {
    StatusLinePlain(status);
  }

  lemma VersionWord()
    ensures VERSION != [] && NoSpace(VERSION)
  {
    assert VERSION[0] == 72;
  }

  lemma StatusReads(status: nat, contentType: bytes, length: nat, origin: Option<bytes>)
    requires status <= U16_MAX
    ensures ParseStatus(ResponseHead(status, contentType, length, origin)) == Some(status)
  {
    hide Format, Words, StatusText, FieldTexts, ParseUnsigned, VERSION, NoSpace;
    var lines := HeadLines(status, contentType, length, origin);
    var digits := Format(status, 10);
    var more := StatusText(status) + (CRLF + Terminated(lines[1..]) + CRLF);
    assert ResponseHead(status, contentType, length, origin) == VERSION + [SP] + (digits + [SP] + more);
    FormatDigits(status, 10);
    VersionWord();
    FirstWord(VERSION, SP, digits + [SP] + more);
    FirstWord(digits, SP, more);
    ParseFormat(status, 10, U16_MAX);
  }

  // ---------------------------------------------------------------- the round trip

  /** What the client makes of a rendered response once it has found the end of the header section. */
  function Received(status: nat, body: bytes, cap: nat): Result<Reply, ProbeError> {
    if |body| > cap then Err(ResponseTooLarge) else Ok((status, Trim(body)))
  }

  lemma HeadReads(status: nat, contentType: bytes, body: bytes, origin: Option<bytes>, rest: bytes)
    requires OneLine(contentType, origin)
    ensures HeadEnd(RenderedResponse(status, contentType, body, origin) + rest)
         == Some(|ResponseHead(status, contentType, |body|, origin)|)
  {
    hide HeadEnd, StatusLine, ResponseFields, RealLines;
    HeadLinesReal(status, contentType, |body|, origin);
    var lines := HeadLines(status, contentType, |body|, origin);
    HeadEndOfSection(lines, body + rest);
    assert RenderedResponse(status, contentType, body, origin) + rest == Terminated(lines) + CRLF + (body + rest);
  }

  lemma BodyReads(
    status: nat, contentType: bytes, body: bytes, origin: Option<bytes>, rest: bytes,
    buf: bytes, pieces: seq<bytes>, end: End, cap: nat)
    requires OneLine(contentType, origin) && |body| <= USIZE_MAX
    requires NonEmpty(pieces) && buf + Flatten(pieces) == body + rest
    ensures ReceiveBody(ResponseHead(status, contentType, |body|, origin), buf, pieces, end, cap)
         == if |body| > cap then Err(ResponseTooLarge) else Ok(Trim(body))
  {
    hide HeadLines, Trim, RealLines, AnyChunked, ScratchDecoder.Buffered;
    HeadLinesReal(status, contentType, |body|, origin);
    TextLinesOfSection(HeadLines(status, contentType, |body|, origin));
    DeclaresLength(status, contentType, |body|, origin);
    assert (body + rest)[..|body|] == body;
  }

  /** Whenever the header section fits, every delivery of a rendered response, whatever
      follows it, gives back its status and trimmed body, or refuses a body over the cap. */
  lemma AnyDelivery(
    pieces: seq<bytes>, end: End, cap: nat,
    status: nat, contentType: bytes, body: bytes, origin: Option<bytes>, rest: bytes)
    requires NonEmpty(pieces)
    requires OneLine(contentType, origin) && |body| <= USIZE_MAX && status <= U16_MAX
    requires Flatten(pieces) == RenderedResponse(status, contentType, body, origin) + rest
    requires |ResponseHead(status, contentType, |body|, origin)| <= cap + 1
    ensures Receive(pieces, end, cap) == Received(status, body, cap)
  {
    hide HeadEnd, Grow, ReceiveBody, ParseStatus, ResponseHead, Flatten, Trim;
    var head := ResponseHead(status, contentType, |body|, origin);
    HeadReads(status, contentType, body, origin, rest);
    HeadFound(pieces, end, cap, |head|);
    var (buf, later) := Grow([], pieces, end, cap, HasHead()).value;
    assert buf + Flatten(later) == head + (body + rest) by {
      assert head + (body + rest) == (head + body) + rest;
    }
    SplitBuffer(buf, Flatten(later), head, body + rest);
    StatusReads(status, contentType, |body|, origin);
    BodyReads(status, contentType, body, origin, rest, buf[|head|..], later, end, cap);
  }

  /** A longer header section is refused when its bytes come one at a time. */
  lemma SlowDelivery(
    end: End, cap: nat, status: nat, contentType: bytes, body: bytes, origin: Option<bytes>, rest: bytes)
    requires OneLine(contentType, origin)
    requires |ResponseHead(status, contentType, |body|, origin)| > cap + 1
    ensures Receive(Singles(RenderedResponse(status, contentType, body, origin) + rest), end, cap)
         == Err(ResponseTooLarge)
  {
    hide HeadEnd, Grow, ResponseHead;
    HeadReads(status, contentType, body, origin, rest);
    HeadRefused(RenderedResponse(status, contentType, body, origin) + rest, end, cap);
  }

  /** Every delivery of `data` leads to `expected`. */
  ghost predicate Always(expected: Result<Reply, ProbeError>, data: bytes, end: End, cap: nat) {
    forall pieces: seq<bytes> :: NonEmpty(pieces) && Flatten(pieces) == data ==> Receive(pieces, end, cap) == expected
  }

  /** The round trip holds however the bytes are delivered exactly when the header section
      is at most one byte over the cap and the body within it. */
  lemma RoundTripIff(
    end: End, cap: nat, status: nat, contentType: bytes, body: bytes, origin: Option<bytes>, rest: bytes)
    requires OneLine(contentType, origin) && |body| <= USIZE_MAX && status <= U16_MAX
    ensures Always(Ok((status, Trim(body))), RenderedResponse(status, contentType, body, origin) + rest, end, cap)
       <==> |ResponseHead(status, contentType, |body|, origin)| <= cap + 1 && |body| <= cap
  {
    hide Receive, ResponseHead, Trim, RenderedResponse;
    var data := RenderedResponse(status, contentType, body, origin) + rest;
    SinglesFlatten(data);
    if |ResponseHead(status, contentType, |body|, origin)| <= cap + 1 {
      forall pieces: seq<bytes> | NonEmpty(pieces) && Flatten(pieces) == data
        ensures Receive(pieces, end, cap) == Received(status, body, cap)
      {
        AnyDelivery(pieces, end, cap, status, contentType, body, origin, rest);
      }
    } else {
      SlowDelivery(end, cap, status, contentType, body, origin, rest);
    }
  }

  /** The same end to end: the client reads the rendered bytes in any pieces. */
  method ReadRenderedResponse(
    src: Source, cap: nat, status: nat, contentType: bytes, body: bytes, origin: Option<bytes>)
    returns (r: Result<Reply, ProbeError>)
    requires src.Valid() && src.Data() == RenderedResponse(status, contentType, body, origin)
    requires OneLine(contentType, origin) && |body| <= USIZE_MAX && status <= U16_MAX
    requires |ResponseHead(status, contentType, |body|, origin)| <= cap + 1
    modifies src
    ensures r == Received(status, body, cap)
  {
    hide Receive, RenderedResponse, ResponseHead;
    ghost var pieces := src.pieces;
    assert RenderedResponse(status, contentType, body, origin) + []
         == RenderedResponse(status, contentType, body, origin);
    r := ReadHttpResponse(src, cap);
    AnyDelivery(pieces, src.end, cap, status, contentType, body, origin, []);
  }
}
