/** The outbound client's response reader: it grows a buffer until the header section
    is complete, then reads the body as the headers say. */
module ProbeResponse {
  import opened ByteSource
  import opened Bytes
  import opened GrowingBuffer
  import HttpRequest
  import opened ScratchDecoder
  import opened Wrappers

  const BLANK_LINE: bytes := [13, 10, 13, 10]
  const U16_MAX: nat := 0xffff

  const TRANSFER_CHUNKED: bytes := Ascii("transfer-encoding: chunked")

  // ---------------------------------------------------------------- the header section

  /** The length of `data` up to and including its first blank line. */
  function HeadEnd(data: bytes): (end: Option<nat>)
    ensures end.Some? ==> 4 <= end.value <= |data|
  {
    if |data| < 4 then None
    else if data[..4] == BLANK_LINE then Some(4)
    else
      var end := HeadEnd(data[1..]);
      if end.Some? then Some(end.value + 1) else None
  }

  /** The lines of a text: each ends at a line feed, a carriage return before it is not
      part of the line, and an empty remainder is not a line. */
  function TextLines(text: bytes): seq<bytes>
    decreases |text|
  {
    if text == [] then []
    else
      var i := IndexOf(text, LF);
      if i == |text| then [text]
      else [if i > 0 && text[i - 1] == CR then text[..i - 1] else text[..i]] + TextLines(text[i + 1..])
  }

  predicate AnyChunked(lines: seq<bytes>) {
    exists i :: 0 <= i < |lines| && ToLower(lines[i]) == TRANSFER_CHUNKED
  }

  function LineLength(line: bytes): Option<nat> {
    var field := SplitOnce(line, COLON);
    if field.None? || ToLower(field.value.0) != HttpRequest.CONTENT_LENGTH then None
    else ParseUnsigned(Trim(field.value.1), 10, USIZE_MAX)
  }

  /** The first content length some line declares and that parses. */
  function FirstLength(lines: seq<bytes>): Option<nat> {
    if lines == [] then None
    else if LineLength(lines[0]).Some? then LineLength(lines[0])
    else FirstLength(lines[1..])
  }

  function ParseStatus(head: bytes): Option<nat> {
    var words := Words(head);
    if |words| < 2 then None else ParseUnsigned(words[1], 10, U16_MAX)
  }

  function HasHead(): bytes -> bool {
    (buf: bytes) => HeadEnd(buf).Some?
  }

  // ---------------------------------------------------------------- the body

  function FixedBody(body: bytes, length: nat, end: End, cap: nat): Result<bytes, ProbeError> {
    if length > cap then Err(ResponseTooLarge)
    else if |body| < length then Err(EndError(end))
    else Ok(Trim(body[..length]))
  }

  function RestOfStream(body: bytes, end: End, cap: nat): Result<bytes, ProbeError> {
    if |body| > cap then Err(ResponseTooLarge)
    else if end.Fault? then Err(Failed(end.error))
    else Ok(Trim(body))
  }

  function Trimmed(r: Result<bytes, ProbeError>): Result<bytes, ProbeError> {
    match r
    case Ok(b) => Ok(Trim(b))
    case Err(e) => Err(e)
  }

  /** The body when `buf` and then the pieces follow the header section; only a chunked
      one depends on how its bytes are delivered. */
  function ReceiveBody(head: bytes, buf: bytes, pieces: seq<bytes>, end: End, cap: nat): Result<bytes, ProbeError>
    requires NonEmpty(pieces)
  {
    var lines := TextLines(head);
    if AnyChunked(lines) then Trimmed(Buffered(buf, pieces, 0, end, cap))
    else if FirstLength(lines).Some? then FixedBody(buf + Flatten(pieces), FirstLength(lines).value, end, cap)
    else RestOfStream(buf + Flatten(pieces), end, cap)
  }

  type Reply = (nat, bytes)

  /** The reply read from bytes delivered in these pieces. */
  function Receive(pieces: seq<bytes>, end: End, cap: nat): Result<Reply, ProbeError>
    requires NonEmpty(pieces)
  {
    var head := Grow([], pieces, end, cap, HasHead());
    if head.Err? then Err(head.error) else ReplyFrom(head.value.0, head.value.1, end, cap)
  }

  /** The reply once the buffer holds the header section. */
  function ReplyFrom(buf: bytes, pieces: seq<bytes>, end: End, cap: nat): Result<Reply, ProbeError>
    requires NonEmpty(pieces) && HeadEnd(buf).Some?
  {
    var n := HeadEnd(buf).value;
    var status := ParseStatus(buf[..n]);
    if status.None? then Err(Invalid)
    else
      match ReceiveBody(buf[..n], buf[n..], pieces, end, cap)
      case Ok(body) => Ok((status.value, body))
      case Err(e) => Err(e)
  }

  /** Bytes that arrive later never move the first blank line. */
  lemma {:induction false} HeadEndStable(a: bytes, b: bytes)
    ensures HeadEnd(a).Some? ==> HeadEnd(a + b) == HeadEnd(a)
    ensures HeadEnd(a + b).Some? && HeadEnd(a + b).value <= |a| ==> HeadEnd(a) == HeadEnd(a + b)
  {
    if |a| >= 4 {
      assert (a + b)[..4] == a[..4];
      assert (a + b)[1..] == a[1..] + b;
      HeadEndStable(a[1..], b);
    }
  }

  lemma HeadEndInRange(data: bytes)
    ensures HeadEnd(data).Some? ==> 4 <= HeadEnd(data).value <= |data|
  {
  }

  // ---------------------------------------------------------------- what the bytes stand for

  /** The reply a stream's bytes stand for, no read being refused. */
  function WholeReply(data: bytes, end: End, cap: nat): Result<Reply, ProbeError> {
    var head := HeadEnd(data);
    if head.None? then Err(EndError(end))
    else
      var status := ParseStatus(data[..head.value]);
      if status.None? then Err(Invalid)
      else
        match WholeBody(data[..head.value], data[head.value..], end, cap)
        case Ok(body) => Ok((status.value, body))
        case Err(e) => Err(e)
  }

  function WholeBody(head: bytes, data: bytes, end: End, cap: nat): Result<bytes, ProbeError> {
    var lines := TextLines(head);
    if AnyChunked(lines) then Trimmed(Whole(data, 0, end, cap))
    else if FirstLength(lines).Some? then FixedBody(data, FirstLength(lines).value, end, cap)
    else RestOfStream(data, end, cap)
  }

  lemma BodyOrRefusal(head: bytes, buf: bytes, pieces: seq<bytes>, end: End, cap: nat)
    requires NonEmpty(pieces)
    ensures
      var r := ReceiveBody(head, buf, pieces, end, cap);
      r == WholeBody(head, buf + Flatten(pieces), end, cap) || r == Err(ResponseTooLarge)
  {
    hide TextLines, FirstLength, Buffered, Whole;
    DeliveryResult(buf, pieces, 0, end, cap);
  }

  /** Whatever the bytes, every delivery leads to the one reply they stand for, or is
      refused as too large. */
  lemma ReplyOrRefusal(pieces: seq<bytes>, end: End, cap: nat)
    requires NonEmpty(pieces)
    ensures
      var r := Receive(pieces, end, cap);
      r == WholeReply(Flatten(pieces), end, cap) || r == Err(ResponseTooLarge)
  {
    hide HeadEnd, Grow, ReceiveBody, WholeBody, ParseStatus;
    var all := Flatten(pieces);
    assert [] + all == all;
    var head := Grow([], pieces, end, cap, HasHead());
    if head.Err? {
      GrowFailure([], pieces, end, cap, HasHead());
    } else {
      GrowEnds([], pieces, end, cap, HasHead());
      var (buf, later) := head.value;
      HeadEndStable(buf, Flatten(later));
      HeadEndInRange(buf);
      var n := HeadEnd(buf).value;
      assert all[..n] == buf[..n] && all[n..] == buf[n..] + Flatten(later);
      BodyOrRefusal(buf[..n], buf[n..], later, end, cap);
    }
  }

  // ---------------------------------------------------------------- the reader

  method ReadFixedBody(src: Source, start: bytes, length: nat, cap: nat) returns (r: Result<bytes, ProbeError>)
    requires src.Valid() && length <= cap
    modifies src
    ensures src.Valid()
    ensures Trimmed(r) == FixedBody(start + old(src.Data()), length, src.end, cap)
  {
    ghost var all := start + src.Data();
    var body := start;
    while |body| < length
      invariant src.Valid() && body + src.Data() == all
      decreases |src.Data()|
    {
      if |body| > cap {
        return Err(ResponseTooLarge);
      }
      ghost var left := src.pieces;
      var chunk := src.Read(READ_BUFFER_BYTES);
      if chunk.Err? {
        NothingLeft(left, src.end, all, body);
        return Err(Failed(chunk.error));
      }
      if chunk.value == [] {
        NothingLeft(left, src.end, all, body);
        return Err(Invalid);
      }
      assert all == (body + chunk.value) + src.Data();
      body := body + chunk.value;
    }
    assert all[..length] == body[..length];
    return Ok(body[..length]);
  }

  method ReadToEof(src: Source, start: bytes, cap: nat) returns (r: Result<bytes, ProbeError>)
    requires src.Valid()
    modifies src
    ensures src.Valid()
    ensures Trimmed(r) == RestOfStream(start + old(src.Data()), src.end, cap)
  {
    ghost var all := start + src.Data();
    var body := start;
    while true
      invariant src.Valid() && body + src.Data() == all
      decreases |src.Data()|
    {
      if |body| > cap {
        return Err(ResponseTooLarge);
      }
      ghost var left := src.pieces;
      var chunk := src.Read(READ_BUFFER_BYTES);
      if chunk.Err? {
        NothingLeft(left, src.end, all, body);
        return Err(Failed(chunk.error));
      }
      if chunk.value == [] {
        NothingLeft(left, src.end, all, body);
        return Ok(body);
      }
      assert all == (body + chunk.value) + src.Data();
      body := body + chunk.value;
    }
  }

  method ReadHttpBody(src: Source, head: bytes, start: bytes, cap: nat) returns (r: Result<bytes, ProbeError>)
    requires src.Valid()
    modifies src
    ensures src.Valid()
    ensures r == ReceiveBody(head, start, old(src.pieces), src.end, cap)
    ensures r == WholeBody(head, start + old(src.Data()), src.end, cap) || r == Err(ResponseTooLarge)
  {
    hide Buffered, TextLines, FirstLength, WholeBody, Whole, Refusable;
    BodyOrRefusal(head, start, src.pieces, src.end, cap);
    var lines := TextLines(head);
    var raw: Result<bytes, ProbeError>;
    if AnyChunked(lines) {
      raw := ReadChunkedBody(src, start, cap);
      return if raw.Ok? then Ok(Trim(raw.value)) else raw;
    }
    var length := FirstLength(lines);
    if length.Some? {
      if length.value > cap {
        return Err(ResponseTooLarge);
      }
      raw := ReadFixedBody(src, start, length.value, cap);
    } else {
      raw := ReadToEof(src, start, cap);
    }
    r := if raw.Ok? then Ok(Trim(raw.value)) else raw;
  }

  method ReadHttpResponse(src: Source, cap: nat) returns (r: Result<Reply, ProbeError>)
    requires src.Valid()
    modifies src
    ensures src.Valid()
    ensures r == Receive(old(src.pieces), src.end, cap)
    ensures r == WholeReply(old(src.Data()), src.end, cap) || r == Err(ResponseTooLarge)
  {
    hide ReceiveBody, ParseStatus, HeadEnd, WholeReply, WholeBody;
    ReplyOrRefusal(src.pieces, src.end, cap);
    var buf: bytes := [];
    while true
      invariant src.Valid()
      invariant Grow([], old(src.pieces), src.end, cap, HasHead()) == Grow(buf, src.pieces, src.end, cap, HasHead())
      decreases |src.Data()|
    {
      var headEnd := HeadEnd(buf);
      if headEnd.Some? {
        HeadEndInRange(buf);
        var head := buf[..headEnd.value];
        var status := ParseStatus(head);
        if status.None? {
          return Err(Invalid);
        }
        var body := ReadHttpBody(src, head, buf[headEnd.value..], cap);
        return match body case Ok(b) => Ok((status.value, b)) case Err(e) => Err(e);
      }
      if |buf| > cap {
        return Err(ResponseTooLarge);
      }
      ghost var left := src.pieces;
      var chunk := src.Read(READ_BUFFER_BYTES);
      if chunk.Err? {
        NothingLeft(left, src.end, buf + Flatten(left), buf);
        return Err(Failed(chunk.error));
      }
      if chunk.value == [] {
        NothingLeft(left, src.end, buf + Flatten(left), buf);
        return Err(Invalid);
      }
      buf := buf + chunk.value;
    }
  }
}
