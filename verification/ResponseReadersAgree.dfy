/** The round trip through the other client: the bounded response reader gives back what
    the server rendered, byte for byte, and so agrees with the buffering client. */
module ResponseReadersAgree {
  import opened ByteSource
  import opened Bytes
  import GrowingBuffer
  import HttpRequest
  import opened HttpRequestLayout
  import opened HttpResponse
  import ProbeResponse
  import opened RequestRoundTrip
  import opened ResponseHeaders
  import opened ResponseRoundTrip
  import opened Wrappers

  // ---------------------------------------------------------------- the round trip

  /** A field name the reader takes no notice of. */
  predicate Unremarkable(name: bytes) {
    ToLower(name) != HttpRequest.CONTENT_LENGTH && ToLower(name) != HttpRequest.TRANSFER_ENCODING
  }

  lemma NamesKnown()
    ensures Unremarkable(ALLOW_ORIGIN) && Unremarkable(ALLOW_METHODS) && Unremarkable(ALLOW_HEADERS)
    ensures Unremarkable(VARY) && Unremarkable(CONTENT_TYPE) && Unremarkable(CONNECTION)
    ensures ToLower(CONTENT_LENGTH_NAME) == HttpRequest.CONTENT_LENGTH != HttpRequest.TRANSFER_ENCODING
  {
    assert |ALLOW_ORIGIN| == 27 && |ALLOW_METHODS| == 28 && |ALLOW_HEADERS| == 28 && |VARY| == 4;
    assert |CONTENT_TYPE| == 12 && |CONNECTION| == 10;
    assert |HttpRequest.CONTENT_LENGTH| == 14 && |HttpRequest.TRANSFER_ENCODING| == 17;
  }

  lemma FieldsReadable(contentType: bytes, length: nat, origin: Option<bytes>)
    requires OneLine(contentType, origin)
    ensures
      var fields := ResponseFields(contentType, length, origin);
      && (forall i :: 0 <= i < |fields| ==> Clean(fields[i]) && !Coded(fields[i]))
      && (forall i :: 0 <= i < |fields| && i != 1 ==> ToLower(fields[i].0) != HttpRequest.CONTENT_LENGTH)
  {
    NamesKnown();
    FieldsOrdinary(contentType, length, origin);
    hide Format, ALLOW_ORIGIN, ALLOW_METHODS, ALLOW_HEADERS, VARY, CONTENT_TYPE, CONTENT_LENGTH_NAME, CONNECTION;
    hide METHODS, ALLOWED_HEADERS, ORIGIN, CLOSE, HttpRequest.CONTENT_LENGTH, HttpRequest.TRANSFER_ENCODING, ToLower;
  }

  lemma {:induction false} AbsorbOthers(h: Gathered, fields: seq<HttpRequest.Header>)
    requires forall i :: 0 <= i < |fields| ==> ToLower(fields[i].0) != HttpRequest.CONTENT_LENGTH && !Coded(fields[i])
    ensures AbsorbAll(h, fields).contentLength == h.contentLength && AbsorbAll(h, fields).chunked == h.chunked
    decreases |fields|
  {
    if fields != [] {
      AbsorbOthers(Absorb(h, fields[0]), fields[1..]);
    }
  }

  lemma LengthRead(n: nat)
    requires n <= USIZE_MAX
    ensures ParseUnsigned(ToLower(Trim(Format(n, 10))), 10, USIZE_MAX) == Some(n)
  {
    hide ParseUnsigned, Format;
    FormatDigits(n, 10);
    var digits := Format(n, 10);
    TrimFixed(digits);
    assert forall i :: 0 <= i < |digits| ==> DigitValue(digits[i]) < 10;
    assert ToLower(digits) == digits;
    ParseFormat(n, 10, USIZE_MAX);
  }

  lemma ResponseGathered(contentType: bytes, length: nat, origin: Option<bytes>)
    requires OneLine(contentType, origin) && length <= USIZE_MAX
    ensures
      var fields := ResponseFields(contentType, length, origin);
      AbsorbAll(NOTHING_YET, fields) == Gathered(|fields|, |Flatten(FieldLines(fields))|, Some(length), false)
  {
    hide ToLower, ParseUnsigned, Format, FieldLines, Flatten, FieldLine;
    hide Trim, Clean, Coded, CorsFields, HttpRequest.CONTENT_LENGTH;
    var fields := ResponseFields(contentType, length, origin);
    var others := fields[2..];
    NamesKnown();
    FieldsReadable(contentType, length, origin);
    LengthRead(length);
    AbsorbCounts(NOTHING_YET, fields);
    assert fields[1..][1..] == others;
    assert forall i :: 0 <= i < |others| ==> others[i] == fields[i + 2];
    var h := Absorb(Absorb(NOTHING_YET, fields[0]), fields[1]);
    assert fields[1..][0] == fields[1];
    AbsorbOthers(h, others);
  }

  lemma {:induction false} SameText(fields: seq<HttpRequest.Header>)
    ensures Terminated(FieldTexts(fields)) == Flatten(FieldLines(fields))
  {
    if fields != [] {
      SameText(fields[1..]);
      assert FieldTexts(fields)[1..] == FieldTexts(fields[1..]);
      assert FieldLines(fields)[1..] == FieldLines(fields[1..]);
    }
  }

  lemma HeadText(status: nat, contentType: bytes, length: nat, origin: Option<bytes>)
    ensures ResponseHead(status, contentType, length, origin)
         == StatusLine(status) + CRLF + Flatten(FieldLines(ResponseFields(contentType, length, origin))) + CRLF
  {
    hide StatusLine, ResponseFields;
    var fields := ResponseFields(contentType, length, origin);
    SameText(fields);
    assert HeadLines(status, contentType, length, origin)[1..] == FieldTexts(fields);
  }

  lemma StatusLineRead(status: nat)
    requires status <= ProbeResponse.U16_MAX
    ensures IsLine(StatusLine(status) + CRLF) && StatusOf(StatusLine(status) + CRLF) == status
  {
    hide Format, Words, StatusText, ParseUnsigned, VERSION, NoSpace;
    var digits, more := Format(status, 10), StatusText(status) + CRLF;
    var line := StatusLine(status) + CRLF;
    StatusLinePlain(status);
    assert line[..|line| - 1] == StatusLine(status) + [CR];
    assert line == VERSION + [SP] + (digits + [SP] + more);
    FormatDigits(status, 10);
    VersionWord();
    FirstWord(VERSION, SP, digits + [SP] + more);
    FirstWord(digits, SP, more);
    ParseFormat(status, 10, ProbeResponse.U16_MAX);
  }

  /** Whether a rendered response fits the reader's limits. */
  predicate ResponseFits(
    limits: ResponseLimits, status: nat, contentType: bytes, body: bytes, origin: Option<bytes>)
  {
    var fields := ResponseFields(contentType, |body|, origin);
    && |StatusLine(status) + CRLF| <= limits.maxStatusLineBytes
    && |fields| < limits.maxHeaderCount
    && |Flatten(FieldLines(fields))| + |CRLF| <= limits.maxHeaderBytes
    && |CRLF| <= limits.maxHeaderLineBytes
    && (forall i :: 0 <= i < |fields| ==> |FieldLine(fields[i])| <= limits.maxHeaderLineBytes)
    && |body| <= limits.maxBodyBytes
  }

  /** The bounded reader gives back a rendered response, whatever follows it, exactly when
      the response fits the limits. */
  lemma BoundedRoundTrip(
    limits: ResponseLimits, status: nat, contentType: bytes, body: bytes, origin: Option<bytes>, rest: bytes, end: End)
    requires OneLine(contentType, origin) && |body| <= USIZE_MAX && status <= ProbeResponse.U16_MAX
    ensures
      var r := ParseResponse(limits, RenderedResponse(status, contentType, body, origin) + rest, end);
      if ResponseFits(limits, status, contentType, body, origin) then r == Ok((status, body)) else r.Err?
  {
    hide StatusLine, ResponseFields, GatherHeaders, AbsorbAll, FieldLine, FieldLines, Flatten, StatusOf, ReadLine;
    var fields := ResponseFields(contentType, |body|, origin);
    var line := StatusLine(status) + CRLF;
    var section := Flatten(FieldLines(fields)) + CRLF + (body + rest);
    HeadText(status, contentType, |body|, origin);
    assert RenderedResponse(status, contentType, body, origin) + rest == line + section;
    StatusLineRead(status);
    LineOrTooLong(line, section, end, limits.maxStatusLineBytes, StatusLineTooLong);
    FieldsReadable(contentType, |body|, origin);
    ResponseGathered(contentType, |body|, origin);
    SectionGathered(limits, NOTHING_YET, fields, body + rest, end);
    assert (body + rest)[..|body|] == body;
  }

  /** Both clients, given the rendered bytes in any pieces of their own, report the same
      status, and the buffering client's body is the bounded client's body trimmed. */
  method ReadTwice(
    bounded: Source, buffering: Source, limits: ResponseLimits, cap: nat,
    status: nat, contentType: bytes, body: bytes, origin: Option<bytes>)
    returns (r: Result<(nat, bytes), HttpError>, s: Result<ProbeResponse.Reply, GrowingBuffer.ProbeError>)
    requires bounded != buffering && bounded.Valid() && buffering.Valid()
    requires bounded.Data() == buffering.Data() == RenderedResponse(status, contentType, body, origin)
    requires OneLine(contentType, origin) && |body| <= USIZE_MAX && status <= ProbeResponse.U16_MAX
    requires ResponseFits(limits, status, contentType, body, origin)
    requires |ResponseHead(status, contentType, |body|, origin)| <= cap + 1 && |body| <= cap
    modifies bounded, buffering
    ensures r == Ok((status, body)) && s == Ok((status, Trim(r.value.1)))
  {
    hide RenderedResponse, ResponseFits, ResponseHead, ParseResponse;
    var all := RenderedResponse(status, contentType, body, origin);
    assert all + [] == all;
    BoundedRoundTrip(limits, status, contentType, body, origin, [], bounded.end);
    r := ReadResponse(bounded, limits);
    s := ReadRenderedResponse(buffering, cap, status, contentType, body, origin);
  }
}
