/** The bounded HTTP/1.1 response reader shared by the outbound clients. */
module HttpResponse {
  import opened ByteSource
  import opened Bytes
  import opened ChunkedBody
  import opened GrowingBuffer
  import ProbeResponse
  import opened Wrappers

  datatype ResponseLimits = ResponseLimits(
    maxStatusLineBytes: nat,
    maxHeaderLineBytes: nat,
    maxHeaderCount: nat,
    maxHeaderBytes: nat,
    maxBodyBytes: nat)

  /** What the header loop has gathered. */
  datatype Gathered = Gathered(count: nat, total: nat, contentLength: Option<nat>, chunked: bool)

  datatype Step = Blank | More(state: Gathered) | Overlong

  const NOTHING_YET := Gathered(0, 0, None, false)

  const LENGTH_PREFIX: bytes := Ascii("content-length:")
  const TRANSFER_PREFIX: bytes := Ascii("transfer-encoding:")
  const CHUNKED: bytes := Ascii("chunked")

  // ---------------------------------------------------------------- whole-stream parse

  /** The status code, zero when the line holds none. */
  function StatusOf(line: bytes): nat {
    var status := ProbeResponse.ParseStatus(line);
    if status.None? then 0 else status.value
  }

  function StripPrefix(s: bytes, prefix: bytes): Option<bytes> {
    if prefix <= s then Some(s[|prefix|..]) else None
  }

  predicate Contains(s: bytes, part: bytes) {
    exists i :: 0 <= i <= |s| - |part| && s[i..][..|part|] == part
  }

  /** The effect of a field line, given without its line end and in lower case. */
  function Note(h: Gathered, lower: bytes): Gathered {
    var length := StripPrefix(lower, LENGTH_PREFIX);
    var coding := StripPrefix(lower, TRANSFER_PREFIX);
    Gathered(
      h.count + 1,
      h.total,
      if length.Some? then ParseUnsigned(Trim(length.value), 10, USIZE_MAX) else h.contentLength,
      h.chunked || (coding.Some? && Contains(coding.value, CHUNKED)))
  }

  function HeaderStep(limits: ResponseLimits, h: Gathered, line: bytes): Step {
    var counted := h.(total := h.total + |line|);
    if counted.total > limits.maxHeaderBytes then Overlong
    else if TrimEol(line) == [] then Blank
    else More(Note(counted, ToLower(TrimEol(line))))
  }

  function GatherHeaders(limits: ResponseLimits, h: Gathered, data: bytes, end: End)
    : Result<(Gathered, bytes), HttpError>
    decreases |data|
  {
    if h.count >= limits.maxHeaderCount then Err(TooManyHeaders)
    else
      var read := ReadLine(data, end, limits.maxHeaderLineBytes, HeaderLineTooLong);
      if read.Err? then Err(read.error)
      else if read.value.0 == [] then Err(Closed)
      else
        match HeaderStep(limits, h, read.value.0)
        case Blank => Ok((h, read.value.1))
        case Overlong => Err(HeadersTooLarge)
        case More(next) =>
          ReadLineSplits(data, end, limits.maxHeaderLineBytes, HeaderLineTooLong);
          GatherHeaders(limits, next, read.value.1, end)
  }

  /** All of the stream, unless it is longer than the cap. */
  function ReadAll(data: bytes, end: End, cap: nat): Result<bytes, HttpError> {
    if |data| > cap then Err(BodyTooLarge)
    else if end.Fault? then Err(end.error)
    else Ok(data)
  }

  function ResponseBody(h: Gathered, data: bytes, end: End, cap: nat): Result<bytes, HttpError> {
    if h.chunked then
      match DecodeChunks(data, end, cap, 0)
      case Ok((body, _)) => Ok(body)
      case Err(e) => Err(e)
    else if h.contentLength.Some? then
      if h.contentLength.value > cap then Err(BodyTooLarge)
      else
        match ReadExact(data, end, h.contentLength.value)
        case Ok((body, _)) => Ok(body)
        case Err(e) => Err(e)
    else ReadAll(data, end, cap)
  }

  /** Parse one response off the front of a stream: its status and body. */
  function ParseResponse(limits: ResponseLimits, data: bytes, end: End): Result<(nat, bytes), HttpError> {
    var first := ReadLine(data, end, limits.maxStatusLineBytes, StatusLineTooLong);
    if first.Err? then Err(first.error)
    else if first.value.0 == [] then Err(Closed)
    else
      var headers := GatherHeaders(limits, NOTHING_YET, first.value.1, end);
      if headers.Err? then Err(headers.error)
      else
        var body := ResponseBody(headers.value.0, headers.value.1, end, limits.maxBodyBytes);
        if body.Err? then Err(body.error) else Ok((StatusOf(first.value.0), body.value))
  }

  // ---------------------------------------------------------------- the reader

  method ReadHeaders(src: Source, limits: ResponseLimits) returns (r: Result<Gathered, HttpError>)
    requires src.Valid()
    modifies src
    ensures src.Valid()
    ensures
      match GatherHeaders(limits, NOTHING_YET, old(src.Data()), src.end)
      case Ok((h, rest)) => r == Ok(h) && src.Data() == rest
      case Err(e) => r == Err(e)
  {
    hide Note, ReadLine, TrimEol;
    var h := NOTHING_YET;
    while true
      invariant src.Valid() && h.total <= limits.maxHeaderBytes
      invariant GatherHeaders(limits, NOTHING_YET, old(src.Data()), src.end)
             == GatherHeaders(limits, h, src.Data(), src.end)
      decreases limits.maxHeaderBytes - h.total
    {
      if h.count >= limits.maxHeaderCount {
        return Err(TooManyHeaders);
      }
      var n, line := src.ReadLineBounded(limits.maxHeaderLineBytes, HeaderLineTooLong);
      if n.Err? {
        return Err(n.error);
      }
      if n.value == 0 {
        return Err(Closed);
      }
      NoteTotal(h.(total := h.total + |line|), ToLower(TrimEol(line)));
      match HeaderStep(limits, h, line)
      case Blank =>
        return Ok(h);
      case Overlong =>
        return Err(HeadersTooLarge);
      case More(next) =>
        h := next;
    }
  }

  lemma NoteTotal(h: Gathered, lower: bytes)
    ensures Note(h, lower).total == h.total && Note(h, lower).count == h.count + 1
  {
  }

  method ReadToCap(src: Source, cap: nat) returns (r: Result<bytes, HttpError>)
    requires src.Valid()
    modifies src
    ensures src.Valid()
    ensures r == ReadAll(old(src.Data()), src.end, cap)
  {
    var body: bytes := [];
    ghost var all := src.Data();
    while |body| < cap + 1
      invariant src.Valid() && body + src.Data() == all && |body| <= cap + 1
      decreases cap + 1 - |body|
    {
      ghost var left := src.pieces;
      var chunk := src.Read(cap + 1 - |body|);
      if chunk.Err? {
        NothingLeft(left, src.end, all, body);
        return Err(chunk.error);
      }
      if chunk.value == [] {
        NothingLeft(left, src.end, all, body);
        return Ok(body);
      }
      assert all == (body + chunk.value) + src.Data();
      body := body + chunk.value;
    }
    return Err(BodyTooLarge);
  }

  method ReadBody(src: Source, h: Gathered, cap: nat) returns (r: Result<bytes, HttpError>)
    requires src.Valid()
    modifies src
    ensures src.Valid()
    ensures r == ResponseBody(h, old(src.Data()), src.end, cap)
  {
    hide DecodeChunks;
    if h.chunked {
      r := ReadChunkedResponseBody(src, cap);
    } else if h.contentLength.Some? {
      if h.contentLength.value > cap {
        return Err(BodyTooLarge);
      }
      r := src.ReadExactly(h.contentLength.value);
    } else {
      r := ReadToCap(src, cap);
    }
  }

  /** Read one response, whatever pieces its bytes arrive in. */
  method ReadResponse(src: Source, limits: ResponseLimits) returns (r: Result<(nat, bytes), HttpError>)
    requires src.Valid()
    modifies src
    ensures src.Valid()
    ensures r == ParseResponse(limits, old(src.Data()), src.end)
    ensures r.Ok? && (limits.maxBodyBytes < USIZE_MAX || |old(src.Data())| <= limits.maxBodyBytes) ==>
      |r.value.1| <= limits.maxBodyBytes
  {
    hide GatherHeaders, ResponseBody, ReadLine;
    ParsedWithinCap(limits, src.Data(), src.end);
    var n, line := src.ReadLineBounded(limits.maxStatusLineBytes, StatusLineTooLong);
    if n.Err? {
      return Err(n.error);
    }
    if n.value == 0 {
      return Err(Closed);
    }
    var h := ReadHeaders(src, limits);
    if h.Err? {
      return Err(h.error);
    }
    var body := ReadBody(src, h.value, limits.maxBodyBytes);
    if body.Err? {
      return Err(body.error);
    }
    return Ok((StatusOf(line), body.value));
  }

  /** However the body is delimited, it stays within the cap; at the largest cap, for data
      that fits in memory. */
  lemma BodyWithinCap(h: Gathered, data: bytes, end: End, cap: nat)
    requires cap < USIZE_MAX || |data| <= cap
    ensures
      var r := ResponseBody(h, data, end, cap);
      r.Ok? ==> |r.value| <= cap
  {
    hide DecodeChunks;
    if h.chunked {
      DecodedWithinCap(data, end, cap, 0);
    }
  }

  lemma {:induction false} GatherShrinks(limits: ResponseLimits, h: Gathered, data: bytes, end: End)
    ensures
      var r := GatherHeaders(limits, h, data, end);
      r.Ok? ==> |r.value.1| <= |data|
    decreases |data|
  {
    hide HeaderStep, ReadLine;
    ReadLineSplits(data, end, limits.maxHeaderLineBytes, HeaderLineTooLong);
    var read := ReadLine(data, end, limits.maxHeaderLineBytes, HeaderLineTooLong);
    if read.Ok? && read.value.0 != [] {
      var step := HeaderStep(limits, h, read.value.0);
      if step.More? {
        GatherShrinks(limits, step.state, read.value.1, end);
      }
    }
  }

  lemma ParsedWithinCap(limits: ResponseLimits, data: bytes, end: End)
    ensures
      var r := ParseResponse(limits, data, end);
      r.Ok? && (limits.maxBodyBytes < USIZE_MAX || |data| <= limits.maxBodyBytes) ==> |r.value.1| <= limits.maxBodyBytes
  {
    hide GatherHeaders, ResponseBody, ReadLine, StatusOf;
    ReadLineSplits(data, end, limits.maxStatusLineBytes, StatusLineTooLong);
    var first := ReadLine(data, end, limits.maxStatusLineBytes, StatusLineTooLong);
    if first.Ok? && ParseResponse(limits, data, end).Ok? {
      var (h, rest) := GatherHeaders(limits, NOTHING_YET, first.value.1, end).value;
      GatherShrinks(limits, NOTHING_YET, first.value.1, end);
      if limits.maxBodyBytes < USIZE_MAX || |data| <= limits.maxBodyBytes {
        BodyWithinCap(h, rest, end, limits.maxBodyBytes);
      }
    }
  }
}
