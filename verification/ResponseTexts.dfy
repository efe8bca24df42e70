/** The server's responses letter by letter, and which header texts the buffering client
    takes for a chunked or a delimited body. */
module ResponseTexts {
  import opened ByteLaws
  import opened ByteSource
  import opened Bytes
  import opened GrowingBuffer
  import HttpRequest
  import HttpRequestLayout
  import opened ProbeDeliveries
  import opened ProbeResponse
  import opened RequestRoundTrip
  import ResponseFraming
  import ResponseReadersAgree
  import opened ResponseRoundTrip
  import opened Wrappers

  // ---------------------------------------------------------------- the rendered text

  /** The reason phrases, and the one for every other status. */
  lemma ClientReasons()
    ensures StatusText(200) == Ascii("OK")
    ensures StatusText(400) == Ascii("Bad Request")
    ensures StatusText(403) == Ascii("Forbidden")
    ensures StatusText(404) == Ascii("Not Found")
    ensures StatusText(408) == Ascii("Request Timeout")
    ensures StatusText(413) == Ascii("Payload Too Large")
  {
    hide Ascii;
  }

  lemma ServerReasons()
    ensures StatusText(431) == Ascii("Request Header Fields Too Large")
    ensures StatusText(500) == Ascii("Internal Server Error")
    ensures StatusText(502) == Ascii("Bad Gateway")
    ensures StatusText(503) == Ascii("Service Unavailable")
  {
    hide Ascii;
  }

  lemma OtherReasons(status: nat)
    ensures status !in {200, 400, 403, 404, 408, 413, 431, 500, 502, 503} ==> StatusText(status) == Ascii("Unknown")
  {
    hide Ascii;
  }

  /** The origin reflected, with what it may do; or only that the answer depends on it. */
  function OriginFields(origin: bytes): seq<HttpRequest.Header> {
    [
      (Ascii("Access-Control-Allow-Origin"), origin),
      (Ascii("Access-Control-Allow-Methods"), AllowedMethods()),
      HeadersField()
    ]
  }

  function HeadersField(): HttpRequest.Header {
    (Ascii("Access-Control-Allow-Headers"), AllowedList())
  }

  function AllowedMethods(): bytes {
    Ascii("GET, POST, OPTIONS")
  }

  function AllowedList(): bytes {
    Ascii("Content-Type, Authorization, ") + Ascii("X-Genie-Origin, X-Genie-Token")
  }

  function ServerFields(contentType: bytes, length: nat, origin: Option<bytes>): seq<HttpRequest.Header> {
    [(Ascii("Content-Type"), contentType), (Ascii("Content-Length"), Format(length, 10))]
    + (if origin.Some? then OriginFields(origin.value) else [])
    + [(Ascii("Vary"), Ascii("Origin")), (Ascii("Connection"), Ascii("close"))]
  }

  lemma OriginFieldsAre(origin: bytes)
    ensures OriginFields(origin)
         == [(ALLOW_ORIGIN, origin), (ALLOW_METHODS, METHODS), (ALLOW_HEADERS, ALLOWED_HEADERS)]
  {
    hide Ascii;
  }

  lemma ServerFieldsAre(contentType: bytes, length: nat, origin: Option<bytes>)
    ensures ResponseFields(contentType, length, origin) == ServerFields(contentType, length, origin)
  {
    if origin.Some? {
      OriginFieldsAre(origin.value);
    }
    hide Ascii, Format, OriginFields, ALLOW_ORIGIN, ALLOW_METHODS, ALLOW_HEADERS, METHODS, ALLOWED_HEADERS;
    var last := [(VARY, ORIGIN), (CONNECTION, CLOSE)];
    assert ResponseFields(contentType, length, origin)
        == [(CONTENT_TYPE, contentType), (CONTENT_LENGTH_NAME, Format(length, 10))]
           + (if origin.Some? then OriginFields(origin.value) else []) + last;
  }

  /** What the server writes: a status line, these fields, a blank line and the body. */
  lemma ResponseText(status: nat, contentType: bytes, body: bytes, origin: Option<bytes>)
    ensures RenderedResponse(status, contentType, body, origin)
         == ResponseFraming.HeadOf(status, StatusText(status), ServerFields(contentType, |body|, origin)) + body
  {
    var fields := ServerFields(contentType, |body|, origin);
    ServerFieldsAre(contentType, |body|, origin);
    ResponseReadersAgree.HeadText(status, contentType, |body|, origin);
    HeaderTextIs(fields);
    TextsSpelled();
    ResponseFraming.VersionText();
    hide Format, StatusText, Flatten, FieldLines, HeaderText, ServerFields, ResponseFields, Ascii, VERSION;
    Regroup(VERSION + [SP], Format(status, 10), StatusText(status));
  }

  lemma Regroup(a: bytes, b: bytes, c: bytes)
    ensures a + (b + [SP] + c) == a + b + [SP] + c
  {
  }

  /** How long its header section is. */
  lemma HeadSize(status: nat, contentType: bytes, length: nat, origin: Option<bytes>)
    ensures |ResponseHead(status, contentType, length, origin)|
         == |Format(status, 10)| + |StatusText(status)| + 12 + TextSize(ServerFields(contentType, length, origin)) + 2
  {
    ServerFieldsAre(contentType, length, origin);
    ResponseReadersAgree.HeadText(status, contentType, length, origin);
    TextSizeIs(ServerFields(contentType, length, origin));
    ResponseFraming.VersionText();
    hide Format, StatusText, Flatten, FieldLines, ServerFields, ResponseFields, VERSION, TextSize;
  }

  /** The round trip in these terms: every delivery gives back status and trimmed body if and
      only if the header section is at most one byte over the cap and the body within it. */
  lemma SpelledRoundTripIff(
    end: End, cap: nat, status: nat, contentType: bytes, body: bytes, origin: Option<bytes>, rest: bytes)
    requires '\n' as int !in contentType && (origin.Some? ==> '\n' as int !in origin.value)
    requires |body| <= 0xffff_ffff_ffff_ffff && status <= 0xffff
    ensures
      var fields := ServerFields(contentType, |body|, origin);
      var text := ResponseFraming.HeadOf(status, StatusText(status), fields) + body;
      (forall pieces: seq<bytes> :: NonEmpty(pieces) && Flatten(pieces) == text + rest ==>
         Receive(pieces, end, cap) == Ok((status, Trim(body))))
      <==> |Format(status, 10)| + |StatusText(status)| + 12 + TextSize(fields) + 2 <= cap + 1 && |body| <= cap
  {
    hide Receive, RenderedResponse, ResponseHead, ServerFields, ResponseFraming.HeadOf, Format;
    hide StatusText, TextSize, Trim;
    ResponseText(status, contentType, body, origin);
    HeadSize(status, contentType, |body|, origin);
    RoundTripIff(end, cap, status, contentType, body, origin, rest);
  }

  // ---------------------------------------------------------------- what the buffering client looks for

  /** A header section of these lines, one of them asking for the chunked coding in any
      letter case, is taken for a chunked reply. */
  lemma ChunkedLines(version: bytes, status: nat, reason: bytes, lines: seq<bytes>)
    requires version != [] && NoSpace(version) && LF !in reason && status <= 0xffff && RealLines(lines)
    requires exists i :: 0 <= i < |lines| && ToLower(lines[i]) == Ascii("transfer-encoding: chunked")
    ensures
      var first := version + [SP] + Format(status, 10) + [SP] + reason;
      ChunkedHead(Terminated([first] + lines) + CRLF, status)
  {
    var first := version + [SP] + Format(status, 10) + [SP] + reason;
    var all := [first] + lines;
    var head := Terminated(all) + CRLF;
    FirstReal(version, status, reason);
    hide Format, HeadEnd, TextLines, Terminated, ParseStatus, Ascii, ToLower, NoSpace, AnyChunked;
    AllReal(first, lines);
    HeadEndOfSection(all, []);
    assert head + [] == head;
    TextLinesOfSection(all);
    LinesChunked(first, lines);
    StatusFirst(version, status, reason, lines);
  }

  lemma FirstReal(version: bytes, status: nat, reason: bytes)
    requires version != [] && NoSpace(version) && LF !in reason
    ensures
      var first := version + [SP] + Format(status, 10) + [SP] + reason;
      first != [] && LF !in first
  {
    ResponseFraming.DigitsPlain(status);
    hide Format;
  }

  lemma AllReal(first: bytes, lines: seq<bytes>)
    requires first != [] && LF !in first && RealLines(lines)
    ensures RealLines([first] + lines)
  {
  }

  lemma LinesChunked(first: bytes, lines: seq<bytes>)
    requires exists i :: 0 <= i < |lines| && ToLower(lines[i]) == Ascii("transfer-encoding: chunked")
    ensures AnyChunked([first] + lines + [[]])
  {
    assert TRANSFER_CHUNKED == Ascii("transfer-encoding: chunked");
    hide Ascii, TRANSFER_CHUNKED, ToLower;
    var i :| 0 <= i < |lines| && ToLower(lines[i]) == TRANSFER_CHUNKED;
    assert ([first] + lines + [[]])[i + 1] == lines[i];
  }

  lemma StatusFirst(version: bytes, status: nat, reason: bytes, lines: seq<bytes>)
    requires version != [] && NoSpace(version) && status <= 0xffff
    ensures ParseStatus(Terminated([version + [SP] + Format(status, 10) + [SP] + reason] + lines) + CRLF)
         == Some(status)
  {
    var digits := Format(status, 10);
    FormatDigits(status, 10);
    hide Format, Words, ParseUnsigned;
    var all := [version + [SP] + digits + [SP] + reason] + lines;
    assert all[1..] == lines;
    var more := reason + (CRLF + Terminated(lines) + CRLF);
    assert Terminated(all) + CRLF == version + [SP] + (digits + [SP] + more);
    FirstWord(version, SP, digits + [SP] + more);
    FirstWord(digits, SP, more);
    ParseFormat(status, 10, 0xffff);
  }

  /** A line declares a length exactly when its name is that one, in any letter case, and the
      trimmed text after the first colon writes a number. */
  lemma LineLengthIff(name: bytes, value: bytes, n: nat)
    requires ':' as int !in name
    ensures LineLength(name + [':' as int] + value) == Some(n) <==>
      ToLower(name) == Ascii("content-length") && Writes(Trim(value), 10, n) && n <= 0xffff_ffff_ffff_ffff
  {
    assert ':' as int == COLON;
    HttpRequestLayout.Names();
    hide Writes, ParseUnsigned, Trim, ToLower, Ascii;
    SplitOnceAt(name, COLON, value);
    ParseUnsignedIff(Trim(value), 10, USIZE_MAX, n);
  }

  /** The first line that declares a length decides. */
  lemma {:induction false} FirstLengthIff(lines: seq<bytes>, n: nat)
    ensures FirstLength(lines) == Some(n) <==>
      exists i :: 0 <= i < |lines| && LineLength(lines[i]) == Some(n)
                  && forall j :: 0 <= j < i ==> LineLength(lines[j]).None?
  {
    hide LineLength;
    if lines != [] {
      FirstLengthIff(lines[1..], n);
      if LineLength(lines[0]).None? {
        if FirstLength(lines) == Some(n) {
          var i :| 0 <= i < |lines| - 1 && LineLength(lines[1..][i]) == Some(n)
                   && forall j :: 0 <= j < i ==> LineLength(lines[1..][j]).None?;
          assert forall j :: 0 < j <= i ==> lines[j] == lines[1..][j - 1];
          assert LineLength(lines[i + 1]) == Some(n);
        }
        if exists i :: 0 <= i < |lines| && LineLength(lines[i]) == Some(n)
                       && forall j :: 0 <= j < i ==> LineLength(lines[j]).None? {
          var i :| 0 <= i < |lines| && LineLength(lines[i]) == Some(n)
                   && forall j :: 0 <= j < i ==> LineLength(lines[j]).None?;
          assert lines[1..][i - 1] == lines[i];
          assert forall j :: 0 <= j < i - 1 ==> lines[1..][j] == lines[j + 1];
        }
      } else {
        assert LineLength(lines[0]) == FirstLength(lines);
      }
    }
  }
}
