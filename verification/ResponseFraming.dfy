/** How the bounded client finds a response's body: by the chunked coding if any field asks
    for it, else by the last content length, else by the end of the stream. */
module ResponseFraming {
  import opened ByteLaws
  import opened ByteSource
  import opened Bytes
  import opened ChunkedBody
  import HttpRequest
  import opened HttpRequestLayout
  import opened HttpResponse
  import ProbeResponse
  import opened RequestRoundTrip
  import opened ResponseHeaders
  import opened Wrappers

  // ---------------------------------------------------------------- what the fields say

  predicate NamesLength(field: HttpRequest.Header) {
    ToLower(field.0) == Ascii("content-length")
  }

  /** Some field asks for the chunked coding. */
  ghost predicate AnyCoded(fields: seq<HttpRequest.Header>) {
    exists i :: 0 <= i < |fields| && Coded(fields[i])
  }

  /** The last field that names a length writes `n`. */
  ghost predicate LastLength(fields: seq<HttpRequest.Header>, n: nat) {
    exists i :: 0 <= i < |fields| && NamesLength(fields[i])
                && (forall j :: i < j < |fields| ==> !NamesLength(fields[j]))
                && Writes(ToLower(Trim(fields[i].1)), 10, n) && n <= 0xffff_ffff_ffff_ffff
  }

  lemma {:induction false} AbsorbSnoc(h: Gathered, fields: seq<HttpRequest.Header>, field: HttpRequest.Header)
    ensures AbsorbAll(h, fields + [field]) == Absorb(AbsorbAll(h, fields), field)
    decreases |fields|
  {
    hide Absorb;
    var all := fields + [field];
    if fields == [] {
      assert all == [field] && all[1..] == [];
    } else {
      assert all[1..] == fields[1..] + [field];
      AbsorbSnoc(Absorb(h, fields[0]), fields[1..], field);
    }
  }

  lemma AnyCodedSnoc(fields: seq<HttpRequest.Header>, field: HttpRequest.Header)
    ensures AnyCoded(fields + [field]) <==> AnyCoded(fields) || Coded(field)
  {
    hide Coded;
    var all := fields + [field];
    assert all[|fields|] == field && forall i :: 0 <= i < |fields| ==> all[i] == fields[i];
  }

  lemma LastLengthSnoc(fields: seq<HttpRequest.Header>, field: HttpRequest.Header, n: nat)
    ensures LastLength(fields + [field], n) <==>
      if NamesLength(field) then Writes(ToLower(Trim(field.1)), 10, n) && n <= USIZE_MAX else LastLength(fields, n)
  {
    hide NamesLength, Writes, Trim, ToLower;
    var all := fields + [field];
    assert all[|fields|] == field && forall i :: 0 <= i < |fields| ==> all[i] == fields[i];
    if !NamesLength(field) && LastLength(fields, n) {
      var i :| 0 <= i < |fields| && NamesLength(fields[i])
               && (forall j :: i < j < |fields| ==> !NamesLength(fields[j]))
               && Writes(ToLower(Trim(fields[i].1)), 10, n) && n <= USIZE_MAX;
      assert NamesLength(all[i]) && Writes(ToLower(Trim(all[i].1)), 10, n);
    }
    if LastLength(all, n) {
      var i :| 0 <= i < |all| && NamesLength(all[i])
               && (forall j :: i < j < |all| ==> !NamesLength(all[j]))
               && Writes(ToLower(Trim(all[i].1)), 10, n) && n <= USIZE_MAX;
      if i < |fields| {
        assert !NamesLength(all[|fields|]);
        assert fields[i] == all[i] && forall j :: i < j < |fields| ==> !NamesLength(fields[j]);
      }
    }
  }

  /** The header section is gathered as its fields say. */
  lemma {:induction false} GatheredMeans(fields: seq<HttpRequest.Header>)
    ensures
      var g := AbsorbAll(NOTHING_YET, fields);
      && (g.chunked <==> AnyCoded(fields))
      && (forall n: nat :: g.contentLength == Some(n) <==> LastLength(fields, n))
    decreases |fields|
  {
    hide Coded, Writes, ParseUnsigned, Trim, ToLower, LastLength, AnyCoded;
    if fields == [] {
      NothingSaid();
    } else {
      var front, last := fields[..|fields| - 1], fields[|fields| - 1];
      assert fields == front + [last];
      GatheredMeans(front);
      AbsorbSnoc(NOTHING_YET, front, last);
      AnyCodedSnoc(front, last);
      Names();
      forall n: nat
        ensures AbsorbAll(NOTHING_YET, fields).contentLength == Some(n) <==> LastLength(fields, n)
      {
        LastLengthSnoc(front, last, n);
        ParseUnsignedIff(ToLower(Trim(last.1)), 10, USIZE_MAX, n);
      }
    }
  }

  lemma NothingSaid()
    ensures AbsorbAll(NOTHING_YET, []) == NOTHING_YET && !AnyCoded([]) && forall n: nat :: !LastLength([], n)
  {
  }

  // ---------------------------------------------------------------- a response's text

  /** A status line, fields and a blank line. */
  function HeadOf(status: nat, reason: bytes, fields: seq<HttpRequest.Header>): bytes {
    Ascii("HTTP/1.1 ") + Format(status, 10) + Ascii(" ") + reason + Ascii("\r\n") + HeaderText(fields) + Ascii("\r\n")
  }

  /** Whether the header section fits the client's limits. */
  predicate HeadFits(limits: ResponseLimits, status: nat, reason: bytes, fields: seq<HttpRequest.Header>) {
    && |Format(status, 10)| + |reason| + 12 <= limits.maxStatusLineBytes
    && |fields| < limits.maxHeaderCount
    && TextSize(fields) + 2 <= limits.maxHeaderBytes
    && 2 <= limits.maxHeaderLineBytes
    && forall i :: 0 <= i < |fields| ==> |fields[i].0| + |fields[i].1| + 4 <= limits.maxHeaderLineBytes
  }

  lemma StatusLineText(status: nat, reason: bytes)
    requires LF !in reason && status <= 0xffff
    ensures
      var line := Ascii("HTTP/1.1 ") + Format(status, 10) + Ascii(" ") + reason + Ascii("\r\n");
      IsLine(line) && StatusOf(line) == status && |line| == |Format(status, 10)| + |reason| + 12
  {
    var line := Ascii("HTTP/1.1 ") + Format(status, 10) + Ascii(" ") + reason + Ascii("\r\n");
    TextsSpelled();
    FormatDigits(status, 10);
    DigitsPlain(status);
    VersionText();
    hide Format, Words, ParseUnsigned, VERSION, Ascii;
    var digits, more := Format(status, 10), reason + CRLF;
    assert line == VERSION + [SP] + (digits + [SP] + more);
    LineOf(VERSION + [SP] + digits + [SP] + reason + [CR]);
    assert line == VERSION + [SP] + digits + [SP] + reason + [CR] + [LF];
    FirstWord(VERSION, SP, digits + [SP] + more);
    FirstWord(digits, SP, more);
    ParseFormat(status, 10, 0xffff);
  }

  lemma VersionText()
    ensures Ascii("HTTP/1.1 ") == VERSION + [SP]
    ensures VERSION != [] && NoSpace(VERSION) && LF !in VERSION && |VERSION| == 8
  {
    assert VERSION[0] == 72;
  }

  lemma DigitsPlain(n: nat)
    ensures LF !in Format(n, 10)
  {
    FormatDigits(n, 10);
  }

  lemma FitsHead(limits: ResponseLimits, status: nat, reason: bytes, fields: seq<HttpRequest.Header>)
    ensures HeadFits(limits, status, reason, fields) <==>
      && |Format(status, 10)| + |reason| + 12 <= limits.maxStatusLineBytes
      && SectionAccepted(limits, AbsorbAll(NOTHING_YET, fields), fields)
  {
    hide Format, FieldLines, Flatten, AbsorbAll;
    AbsorbCounts(NOTHING_YET, fields);
    TextSizeIs(fields);
    assert forall i :: 0 <= i < |fields| ==> |FieldLine(fields[i])| == |fields[i].0| + |fields[i].1| + 4;
    hide FieldLine;
  }

  /** What the client makes of a response it has read the header section of. */
  ghost predicate BodyMeans(
    r: Result<bytes, HttpError>, fields: seq<HttpRequest.Header>, content: bytes, end: End, cap: nat)
  {
    if AnyCoded(fields) then
      match DecodeChunks(content, end, cap, 0)
      case Ok((body, _)) => r == Ok(body)
      case Err(e) => r == Err(e)
    else if exists n: nat :: LastLength(fields, n) then
      forall n: nat :: LastLength(fields, n) ==>
        r == if n > cap then Err(BodyTooLarge)
             else if n <= |content| then Ok(content[..n])
             else Err(if end.Fault? then end.error else Io)
    else
      r == if |content| > cap then Err(BodyTooLarge) else if end.Fault? then Err(end.error) else Ok(content)
  }

  /** The client reads a response as its fields say, exactly when its header section fits. */
  lemma ResponseMeans(
    limits: ResponseLimits, status: nat, reason: bytes, fields: seq<HttpRequest.Header>, content: bytes, end: End)
    requires LF !in reason && status <= 0xffff && forall i :: 0 <= i < |fields| ==> Clean(fields[i])
    ensures
      var r := ParseResponse(limits, HeadOf(status, reason, fields) + content, end);
      if HeadFits(limits, status, reason, fields) then
        exists body :: BodyMeans(body, fields, content, end, limits.maxBodyBytes)
                       && r == if body.Ok? then Ok((status, body.value)) else Err(body.error)
      else r.Err?
  {
    var line := Ascii("HTTP/1.1 ") + Format(status, 10) + Ascii(" ") + reason + Ascii("\r\n");
    StatusLineText(status, reason);
    HeaderTextIs(fields);
    TextsSpelled();
    hide Ascii, Format, HeaderText, FieldLines, Flatten, AbsorbAll, GatherHeaders;
    hide ReadLine, StatusOf, IsLine, ResponseBody;
    hide BodyMeans, Clean, SectionAccepted, HeadFits;
    var section := Flatten(FieldLines(fields)) + CRLF + content;
    assert HeadOf(status, reason, fields) + content == line + section;
    LineOrTooLong(line, section, end, limits.maxStatusLineBytes, StatusLineTooLong);
    SectionGathered(limits, NOTHING_YET, fields, content, end);
    FitsHead(limits, status, reason, fields);
    BodyFollows(fields, content, end, limits.maxBodyBytes);
  }

  lemma BodyFollows(fields: seq<HttpRequest.Header>, content: bytes, end: End, cap: nat)
    ensures BodyMeans(ResponseBody(AbsorbAll(NOTHING_YET, fields), content, end, cap), fields, content, end, cap)
  {
    hide AbsorbAll, AnyCoded, LastLength, DecodeChunks;
    GatheredMeans(fields);
  }

  // ---------------------------------------------------------------- the three round trips

  /** Whatever length is also declared, a chunked response gives its status and the
      concatenation of its chunks, exactly when header section and body fit. */
  lemma ChunkedResponse(
    limits: ResponseLimits, status: nat, reason: bytes, fields: seq<HttpRequest.Header>,
    chunks: seq<bytes>, rest: bytes, end: End)
    requires LF !in reason && status <= 0xffff && forall i :: 0 <= i < |fields| ==> Clean(fields[i])
    requires AnyCoded(fields) && Sendable(chunks)
    ensures
      var r := ParseResponse(limits, HeadOf(status, reason, fields) + (Encode(chunks) + rest), end);
      if HeadFits(limits, status, reason, fields)
         && (|Flatten(chunks)| <= limits.maxBodyBytes || limits.maxBodyBytes >= 0xffff_ffff_ffff_ffff) then
        r == Ok((status, Flatten(chunks)))
      else r.Err?
  {
    hide ParseResponse, HeadOf, Encode, AnyCoded, HeadFits, DecodeChunks, LastLength, Flatten;
    ResponseMeans(limits, status, reason, fields, Encode(chunks) + rest, end);
    DecodeInvertsEncode(chunks, rest, end, limits.maxBodyBytes, 0);
  }

  /** Otherwise the last content length decides. */
  lemma LengthResponse(
    limits: ResponseLimits, status: nat, reason: bytes, fields: seq<HttpRequest.Header>,
    body: bytes, rest: bytes, end: End)
    requires LF !in reason && status <= 0xffff && forall i :: 0 <= i < |fields| ==> Clean(fields[i])
    requires !AnyCoded(fields) && LastLength(fields, |body|)
    ensures
      var r := ParseResponse(limits, HeadOf(status, reason, fields) + (body + rest), end);
      if HeadFits(limits, status, reason, fields) && |body| <= limits.maxBodyBytes then r == Ok((status, body))
      else r.Err?
  {
    hide ParseResponse, HeadOf, AnyCoded, HeadFits, LastLength;
    ResponseMeans(limits, status, reason, fields, body + rest, end);
    assert (body + rest)[..|body|] == body;
  }

  /** Without either, the body is all that follows. */
  lemma OpenResponse(
    limits: ResponseLimits, status: nat, reason: bytes, fields: seq<HttpRequest.Header>, body: bytes, end: End)
    requires LF !in reason && status <= 0xffff && forall i :: 0 <= i < |fields| ==> Clean(fields[i])
    requires !AnyCoded(fields) && forall n: nat :: !LastLength(fields, n)
    ensures
      var r := ParseResponse(limits, HeadOf(status, reason, fields) + body, end);
      if HeadFits(limits, status, reason, fields) && |body| <= limits.maxBodyBytes && end.Eof? then
        r == Ok((status, body))
      else r.Err?
  {
    hide ParseResponse, HeadOf, AnyCoded, HeadFits, LastLength;
    ResponseMeans(limits, status, reason, fields, body, end);
  }
}
