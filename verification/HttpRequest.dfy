/** The bounded HTTP/1.1 request reader shared by the servers. */
module HttpRequest {
  import opened ByteSource
  import opened Bytes
  import opened Wrappers

  datatype HttpLimits = HttpLimits(
    maxRequestLineBytes: nat,
    maxHeaderLineBytes: nat,
    maxHeaderCount: nat,
    maxHeaderBytes: nat,
    maxBodyBytes: nat)

  type Header = (bytes, bytes)

  datatype Request = Request(
    verb: bytes,
    path: bytes,
    headers: seq<Header>,
    contentLength: nat,
    body: Option<bytes>)

  /** What the header loop has gathered. */
  datatype HeaderState = HeaderState(headers: seq<Header>, contentLength: Option<nat>, total: nat)

  const NO_HEADERS := HeaderState([], None, 0)

  datatype LineEffect = Blank | More(state: HeaderState) | Bad(error: HttpError)

  const CONTENT_LENGTH: bytes := Ascii("content-length")
  const TRANSFER_ENCODING: bytes := Ascii("transfer-encoding")

  // ---------------------------------------------------------------- whole-stream parse

  function AddHeader(h: HeaderState, name: bytes, value: bytes): (effect: LineEffect)
    ensures !effect.Blank?
    ensures effect.More? ==>
      effect.state.total == h.total && effect.state.headers == h.headers + [(name, value)]
  {
    var pushed := h.(headers := h.headers + [(name, value)]);
    if name == CONTENT_LENGTH then
      if h.contentLength.Some? then Bad(InvalidContentLength)
      else
        var parsed := ParseUnsigned(value, 10, USIZE_MAX);
        if parsed.None? then Bad(InvalidContentLength) else More(pushed.(contentLength := parsed))
    else if name == TRANSFER_ENCODING && value != [] then Bad(UnsupportedTransferEncoding)
    else More(pushed)
  }

  /** The effect of one header line; a line without a colon only counts its bytes. */
  function HeaderLine(limits: HttpLimits, h: HeaderState, line: bytes): LineEffect {
    var counted := h.(total := h.total + |line|);
    if counted.total > limits.maxHeaderBytes then Bad(HeadersTooLarge)
    else
      var trimmed := TrimEol(line);
      if trimmed == [] then Blank
      else
        var field := SplitOnce(trimmed, COLON);
        if field.None? then More(counted)
        else AddHeader(counted, ToLower(Trim(field.value.0)), Trim(field.value.1))
  }

  function ReadHeaders(limits: HttpLimits, h: HeaderState, data: bytes, end: End)
    : Result<(HeaderState, bytes), HttpError>
    decreases |data|
  {
    if |h.headers| >= limits.maxHeaderCount then Err(TooManyHeaders)
    else
      var read := ReadLine(data, end, limits.maxHeaderLineBytes, HeaderLineTooLong);
      if read.Err? then Err(read.error)
      else if read.value.0 == [] then Err(Closed)
      else
        match HeaderLine(limits, h, read.value.0)
        case Blank => Ok((h, read.value.1))
        case More(next) => ReadLineSplits(data, end, limits.maxHeaderLineBytes, HeaderLineTooLong);
          ReadHeaders(limits, next, read.value.1, end)
        case Bad(e) => Err(e)
  }

  function DeclaredLength(h: HeaderState): nat {
    if h.contentLength.Some? then h.contentLength.value else 0
  }

  function ReadBody(limits: HttpLimits, length: nat, data: bytes, end: End): Result<(Option<bytes>, bytes), HttpError> {
    if length == 0 then Ok((None, data))
    else if length > limits.maxBodyBytes then Err(BodyTooLarge)
    else
      var read := ReadExact(data, end, length);
      if read.Err? then Err(read.error) else Ok((Some(read.value.0), read.value.1))
  }

  /** Parse one request off the front of a stream: the request and the bytes after it. */
  function ParseRequest(limits: HttpLimits, data: bytes, end: End): Result<(Request, bytes), HttpError> {
    var first := ReadLine(data, end, limits.maxRequestLineBytes, RequestLineTooLong);
    if first.Err? then Err(first.error)
    else if first.value.0 == [] then Err(Closed)
    else
      var words := Words(first.value.0);
      if |words| < 2 then Err(Malformed)
      else
        var headers := ReadHeaders(limits, NO_HEADERS, first.value.1, end);
        if headers.Err? then Err(headers.error)
        else
          var length := DeclaredLength(headers.value.0);
          var body := ReadBody(limits, length, headers.value.1, end);
          if body.Err? then Err(body.error)
          else Ok((Request(words[0], words[1], headers.value.0.headers, length, body.value.0), body.value.1))
  }

  // ---------------------------------------------------------------- the reader

  function Larger(a: nat, b: nat): nat {
    if a < b then b else a
  }

  /** `peak` is the most bytes of stored headers and current line held at once; it is
      bounded whether or not the section is accepted. */
  method ReadHeaderSection(src: Source, limits: HttpLimits)
    returns (r: Result<HeaderState, HttpError>, ghost peak: nat)
    requires src.Valid()
    modifies src
    ensures src.Valid()
    ensures peak <= limits.maxHeaderBytes + limits.maxHeaderLineBytes
    ensures r.Ok? ==> HeldBytes(r.value.headers) <= peak && HeldBytes(r.value.headers) <= limits.maxHeaderBytes
    ensures
      match ReadHeaders(limits, NO_HEADERS, old(src.Data()), src.end)
      case Ok((h, rest)) => r == Ok(h) && src.Data() == rest
      case Err(e) => r == Err(e)
  {
    var headers: seq<Header> := [];
    var contentLength: Option<nat> := None;
    var totalHeaderBytes: nat := 0;
    peak := 0;
    while true
      invariant src.Valid()
      invariant HeldBytes(headers) <= totalHeaderBytes <= limits.maxHeaderBytes
      invariant HeldBytes(headers) <= peak <= limits.maxHeaderBytes + limits.maxHeaderLineBytes
      invariant ReadHeaders(limits, NO_HEADERS, old(src.Data()), src.end)
             == ReadHeaders(limits, HeaderState(headers, contentLength, totalHeaderBytes), src.Data(), src.end)
      decreases limits.maxHeaderBytes - totalHeaderBytes
    {
      hide HeaderLine, ReadLine, HeldBytes;
      if |headers| >= limits.maxHeaderCount {
        return Err(TooManyHeaders), peak;
      }
      var n, line := src.ReadLineBounded(limits.maxHeaderLineBytes, HeaderLineTooLong);
      peak := Larger(peak, HeldBytes(headers) + |line|);
      if n.Err? {
        return Err(n.error), peak;
      }
      if n.value == 0 {
        return Err(Closed), peak;
      }
      HeaderLineHolds(limits, HeaderState(headers, contentLength, totalHeaderBytes), line);
      match HeaderLine(limits, HeaderState(headers, contentLength, totalHeaderBytes), line)
      case Blank =>
        return Ok(HeaderState(headers, contentLength, totalHeaderBytes)), peak;
      case Bad(e) =>
        return Err(e), peak;
      case More(next) =>
        headers, contentLength, totalHeaderBytes := next.headers, next.contentLength, next.total;
        peak := Larger(peak, HeldBytes(headers));
    }
  }

  /** Read one request, whatever pieces its bytes arrive in; `peak` is the most bytes of
      request line, headers, current header line and body held at once, also when the
      request is refused. */
  method ReadRequest(src: Source, limits: HttpLimits) returns (r: Result<Request, HttpError>, ghost peak: nat)
    requires src.Valid()
    modifies src
    ensures src.Valid()
    ensures peak <= limits.maxRequestLineBytes + limits.maxHeaderBytes + limits.maxHeaderLineBytes + limits.maxBodyBytes
    ensures
      match ParseRequest(limits, old(src.Data()), src.end)
      case Ok((request, rest)) => r == Ok(request) && src.Data() == rest
      case Err(e) => r == Err(e)
    ensures r.Ok? ==> Bounded(limits, r.value)
  {
    RequestBounded(limits, src.Data(), src.end);
    var n, line := src.ReadLineBounded(limits.maxRequestLineBytes, RequestLineTooLong);
    peak := |line|;
    if n.Err? {
      return Err(n.error), peak;
    }
    if n.value == 0 {
      return Err(Closed), peak;
    }
    var words := Words(line);
    if |words| < 2 {
      return Err(Malformed), peak;
    }
    var section;
    ghost var sectionPeak;
    section, sectionPeak := ReadHeaderSection(src, limits);
    peak := peak + sectionPeak;
    if section.Err? {
      return Err(section.error), peak;
    }
    var length := DeclaredLength(section.value);
    var body: Option<bytes> := None;
    if length > 0 {
      if length > limits.maxBodyBytes {
        return Err(BodyTooLarge), peak;
      }
      // The buffer for the whole body is there before its first byte.
      peak := Larger(peak, |line| + HeldBytes(section.value.headers) + length);
      var buf := src.ReadExactly(length);
      if buf.Err? {
        return Err(buf.error), peak;
      }
      body := Some(buf.value);
    }
    r := Ok(Request(words[0], words[1], section.value.headers, length, body));
  }

  // ---------------------------------------------------------------- memory held

  function HeldBytes(headers: seq<Header>): nat {
    if headers == [] then 0
    else
      var last := headers[|headers| - 1];
      HeldBytes(headers[..|headers| - 1]) + |last.0| + |last.1|
  }

  /** What a parsed request holds stays under the configured ceilings; the header count
      is tested before the terminator is read, so the ceiling itself is never reached. */
  ghost predicate Bounded(limits: HttpLimits, request: Request) {
    && |request.verb| + |request.path| < limits.maxRequestLineBytes
    && |request.headers| < limits.maxHeaderCount
    && HeldBytes(request.headers) <= limits.maxHeaderBytes
    && (request.body.Some? ==> |request.body.value| == request.contentLength <= limits.maxBodyBytes)
    && (request.body.None? <==> request.contentLength == 0)
  }

  lemma HeaderLineHolds(limits: HttpLimits, h: HeaderState, line: bytes)
    requires HeldBytes(h.headers) <= h.total
    ensures
      var effect := HeaderLine(limits, h, line);
      effect.More? ==>
        && effect.state.total == h.total + |line| <= limits.maxHeaderBytes
        && HeldBytes(effect.state.headers) <= effect.state.total
  {
    var effect := HeaderLine(limits, h, line);
    if effect.More? && |effect.state.headers| > |h.headers| {
      assert effect.state.headers[..|h.headers|] == h.headers;
    }
  }

  lemma {:induction false} HeadersBounded(limits: HttpLimits, h: HeaderState, data: bytes, end: End)
    requires HeldBytes(h.headers) <= h.total <= limits.maxHeaderBytes
    ensures
      var r := ReadHeaders(limits, h, data, end);
      r.Ok? ==>
        && HeldBytes(r.value.0.headers) <= limits.maxHeaderBytes
        && |r.value.0.headers| < limits.maxHeaderCount
    decreases |data|
  {
    var read := ReadLine(data, end, limits.maxHeaderLineBytes, HeaderLineTooLong);
    if read.Ok? && read.value.0 != [] {
      ReadLineSplits(data, end, limits.maxHeaderLineBytes, HeaderLineTooLong);
      HeaderLineHolds(limits, h, read.value.0);
      var effect := HeaderLine(limits, h, read.value.0);
      if effect.More? {
        HeadersBounded(limits, effect.state, read.value.1, end);
      }
    }
  }

  lemma TwoWords(line: bytes)
    requires |Words(line)| >= 2
    ensures |Words(line)[0]| + |Words(line)[1]| < |line|
  {
    var t := TrimStart(line);
    var n := WordLength(t);
    var u := TrimStart(t[n..]);
    assert Words(line)[1] == Words(t[n..])[0] == u[..WordLength(u)];
    assert n < |t| && IsSpace(t[n..][0]);
    assert u == TrimStart(t[n..][1..]);
  }

  lemma RequestBounded(limits: HttpLimits, data: bytes, end: End)
    ensures
      var r := ParseRequest(limits, data, end);
      r.Ok? ==> Bounded(limits, r.value.0)
  {
    var first := ReadLine(data, end, limits.maxRequestLineBytes, RequestLineTooLong);
    if first.Ok? && |Words(first.value.0)| >= 2 {
      ReadLineSplits(data, end, limits.maxRequestLineBytes, RequestLineTooLong);
      TwoWords(first.value.0);
      HeadersBounded(limits, NO_HEADERS, first.value.1, end);
    }
  }
}
