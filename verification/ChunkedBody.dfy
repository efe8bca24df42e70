/** The bounded reader's decoder of chunked transfer coding (section 7.1 of RFC 9112). */
module ChunkedBody {
  import opened Arithmetic
  import opened ByteSource
  import opened Bytes
  import opened Wrappers

  const MAX_CHUNK_SIZE_LINE_BYTES: nat := 32

  /** The size a chunk-size line announces, its extensions ignored. */
  function ChunkSize(line: bytes): Option<nat> {
    var text := Trim(line);
    ParseUnsigned(Trim(text[..IndexOf(text, SEMICOLON)]), 16, USIZE_MAX)
  }

  // ---------------------------------------------------------------- encoding

  function EncodeChunk(chunk: bytes): bytes {
    Format(|chunk|, 16) + CRLF + (chunk + CRLF)
  }

  function LastChunk(): bytes {
    [48] + CRLF + CRLF
  }

  function Encode(chunks: seq<bytes>): bytes {
    if chunks == [] then LastChunk() else EncodeChunk(chunks[0]) + Encode(chunks[1..])
  }

  /** Chunks a sender can send: none empty, which would end the body, none past `usize`. */
  predicate Sendable(chunks: seq<bytes>) {
    forall i :: 0 <= i < |chunks| ==> 0 < |chunks[i]| <= USIZE_MAX
  }

  // ---------------------------------------------------------------- the buffered-reader decoder

  /** The body decoded from the front of `data` and what follows it, when `got` bytes
      were decoded before. */
  function DecodeChunks(data: bytes, end: End, cap: nat, got: nat): Result<(bytes, bytes), HttpError>
    decreases |data|, 1
  {
    var sizeLine := ReadLine(data, end, MAX_CHUNK_SIZE_LINE_BYTES, HeaderLineTooLong);
    if sizeLine.Err? then Err(sizeLine.error)
    else
      var size := ChunkSize(sizeLine.value.0);
      ReadLineSplits(data, end, MAX_CHUNK_SIZE_LINE_BYTES, HeaderLineTooLong);
      if size.None? then Err(Malformed) else DecodeSized(sizeLine.value.1, size.value, end, cap, got)
  }

  /** The same, past the size line. */
  function DecodeSized(data: bytes, size: nat, end: End, cap: nat, got: nat): Result<(bytes, bytes), HttpError>
    decreases |data|, 0
  {
    if size == 0 then
      var trailing := ReadLine(data, end, MAX_CHUNK_SIZE_LINE_BYTES, HeaderLineTooLong);
      if trailing.Err? then Err(trailing.error) else Ok(([], trailing.value.1))
    else if SaturatingAdd(got, size, USIZE_MAX) > cap then Err(BodyTooLarge)
    else
      var chunk := ReadExact(data, end, size);
      if chunk.Err? then Err(chunk.error)
      else
        var crlf := ReadExact(chunk.value.1, end, 2);
        if crlf.Err? then Err(crlf.error)
        else
          Joined(chunk.value.0, DecodeChunks(crlf.value.1, end, cap, got + size))
  }

  /** A result with more body in front. */
  function Joined(front: bytes, r: Result<(bytes, bytes), HttpError>): Result<(bytes, bytes), HttpError> {
    match r
    case Ok((body, rest)) => Ok((front + body, rest))
    case Err(e) => Err(e)
  }

  lemma JoinedTwice(a: bytes, b: bytes, r: Result<(bytes, bytes), HttpError>)
    ensures Joined(a, Joined(b, r)) == Joined(a + b, r)
    ensures a == [] ==> Joined(a, r) == r
  {
    if r.Ok? {
      assert a + (b + r.value.0) == (a + b) + r.value.0;
      assert [] + r.value.0 == r.value.0;
    }
  }

  lemma JoinedEnds(front: bytes)
    ensures forall rest :: Joined(front, Ok(([], rest))) == Ok((front, rest))
    ensures forall e :: Joined(front, Err(e)) == Err(e)
  {
    assert front + [] == front;
  }

  /** Decode from a buffered reader, whatever pieces its bytes arrive in. */
  method ReadChunkedResponseBody(src: Source, cap: nat) returns (r: Result<bytes, HttpError>)
    requires src.Valid()
    modifies src
    ensures src.Valid()
    ensures
      match DecodeChunks(old(src.Data()), src.end, cap, 0)
      case Ok((body, rest)) => r == Ok(body) && src.Data() == rest
      case Err(e) => r == Err(e)
  {
    hide ReadLine, ChunkSize, Joined;
    var body: bytes := [];
    JoinedTwice([], [], DecodeChunks(src.Data(), src.end, cap, 0));
    while true
      invariant src.Valid()
      invariant DecodeChunks(old(src.Data()), src.end, cap, 0)
           == Joined(body, DecodeChunks(src.Data(), src.end, cap, |body|))
      decreases |src.Data()|
    {
      JoinedEnds(body);
      ReadLineSplits(src.Data(), src.end, MAX_CHUNK_SIZE_LINE_BYTES, HeaderLineTooLong);
      var n, sizeLine := src.ReadLineBounded(MAX_CHUNK_SIZE_LINE_BYTES, HeaderLineTooLong);
      if n.Err? {
        return Err(n.error);
      }
      var size := ChunkSize(sizeLine);
      if size.None? {
        return Err(Malformed);
      }
      if size.value == 0 {
        var m, _ := src.ReadLineBounded(MAX_CHUNK_SIZE_LINE_BYTES, HeaderLineTooLong);
        if m.Err? {
          return Err(m.error);
        }
        return Ok(body);
      }
      if SaturatingAdd(|body|, size.value, USIZE_MAX) > cap {
        return Err(BodyTooLarge);
      }
      var chunk := src.ReadExactly(size.value);
      if chunk.Err? {
        return Err(chunk.error);
      }
      var crlf := src.ReadExactly(2);
      if crlf.Err? {
        return Err(crlf.error);
      }
      JoinedTwice(body, chunk.value, DecodeChunks(src.Data(), src.end, cap, |body| + size.value));
      body := body + chunk.value;
    }
  }

  /** What is decoded never exceeds the cap.  (At the largest cap the saturating sum refuses
      nothing, and the bound is that of the bytes themselves.) */
  lemma {:induction false} DecodedWithinCap(data: bytes, end: End, cap: nat, got: nat)
    requires cap < USIZE_MAX || got + |data| <= cap
    ensures
      var r := DecodeChunks(data, end, cap, got);
      r.Ok? && r.value.0 != [] ==> got + |r.value.0| <= cap
    decreases |data|
  {
    hide ChunkSize, ReadLine;
    var r := DecodeChunks(data, end, cap, got);
    if r.Ok? {
      ReadLineSplits(data, end, MAX_CHUNK_SIZE_LINE_BYTES, HeaderLineTooLong);
      var (line, rest) := ReadLine(data, end, MAX_CHUNK_SIZE_LINE_BYTES, HeaderLineTooLong).value;
      var size := ChunkSize(line).value;
      if size != 0 {
        AcceptedChunk(rest, size, end, cap, got);
        DecodedWithinCap(rest[size + 2..], end, cap, got + size);
      }
    }
  }

  // ---------------------------------------------------------------- decoding what was encoded

  lemma SizeIgnoresTrailing(line: bytes, b: byte)
    requires IsSpace(b)
    ensures ChunkSize(line + [b]) == ChunkSize(line)
  {
    TrimTrailing(line, b);
  }

  lemma SizeLine(n: nat)
    requires n <= USIZE_MAX
    ensures ChunkSize(Format(n, 16) + [CR]) == Some(n)
    ensures LF !in Format(n, 16) + [CR] && |Format(n, 16)| <= 16
  {
    hide Format, ParseUnsigned, Trim;
    var text := Format(n, 16);
    FormatDigits(n, 16);
    TrimFixed(text);
    UsizeHexLength(n);
    ParseFormat(n, 16, USIZE_MAX);
    SizeIgnoresTrailing(text, CR);
    assert text[..IndexOf(text, SEMICOLON)] == text;
  }

  lemma DecodeAfterLine(line: bytes, size: nat, tail: bytes, end: End, cap: nat, got: nat)
    requires LF !in line && |line| < MAX_CHUNK_SIZE_LINE_BYTES && ChunkSize(line) == Some(size)
    ensures DecodeChunks(line + [LF] + tail, end, cap, got) == DecodeSized(tail, size, end, cap, got)
  {
    hide ReadLine, ChunkSize, DecodeSized;
    ReadWholeLine(line, tail, end, MAX_CHUNK_SIZE_LINE_BYTES, HeaderLineTooLong);
    SizeIgnoresTrailing(line, LF);
  }

  lemma DecodeOneChunk(chunk: bytes, more: bytes, end: End, cap: nat, got: nat)
    requires 0 < |chunk| <= USIZE_MAX
    ensures
      DecodeChunks(EncodeChunk(chunk) + more, end, cap, got)
      == if SaturatingAdd(got, |chunk|, USIZE_MAX) > cap then Err(BodyTooLarge)
         else
           match DecodeChunks(more, end, cap, got + |chunk|)
           case Ok((body, rest)) => Ok((chunk + body, rest))
           case Err(e) => Err(e)
  {
    hide Format, ReadLine, ChunkSize, DecodeChunks;
    var line := Format(|chunk|, 16) + [CR];
    var tail := chunk + (CRLF + more);
    assert EncodeChunk(chunk) + more == line + [LF] + tail;
    SizeLine(|chunk|);
    DecodeAfterLine(line, |chunk|, tail, end, cap, got);
    assert tail[..|chunk|] == chunk && tail[|chunk|..] == CRLF + more;
    assert (CRLF + more)[2..] == more;
  }

  lemma DecodeLastChunk(rest: bytes, end: End, cap: nat, got: nat)
    ensures DecodeChunks(LastChunk() + rest, end, cap, got) == Ok(([], rest))
  {
    hide ReadLine, ChunkSize, DecodeChunks;
    SizeLine(0);
    assert Format(0, 16) == [48];
    var line: bytes := [48, 13];
    assert Format(0, 16) + [CR] == line;
    var trailing: bytes := [13];
    assert LastChunk() + rest == line + [LF] + (trailing + [LF] + rest);
    DecodeAfterLine(line, 0, trailing + [LF] + rest, end, cap, got);
    ReadWholeLine(trailing, rest, end, MAX_CHUNK_SIZE_LINE_BYTES, HeaderLineTooLong);
  }

  /** Decoding inverts encoding: any list of chunks decodes to its concatenation, leaving
      what follows, exactly when the body fits the cap (the largest cap never refuses,
      since the size so far saturates there). */
  lemma {:induction false} DecodeInvertsEncode(chunks: seq<bytes>, rest: bytes, end: End, cap: nat, got: nat)
    requires Sendable(chunks) && (got <= cap || cap >= USIZE_MAX)
    ensures
      DecodeChunks(Encode(chunks) + rest, end, cap, got)
      == if got + |Flatten(chunks)| <= cap || cap >= USIZE_MAX then Ok((Flatten(chunks), rest)) else Err(BodyTooLarge)
    decreases |chunks|
  {
    hide EncodeChunk, LastChunk, DecodeChunks;
    if chunks == [] {
      DecodeLastChunk(rest, end, cap, got);
    } else {
      var more := Encode(chunks[1..]) + rest;
      assert Encode(chunks) + rest == EncodeChunk(chunks[0]) + more;
      DecodeOneChunk(chunks[0], more, end, cap, got);
      if got + |chunks[0]| <= cap || cap >= USIZE_MAX {
        DecodeInvertsEncode(chunks[1..], rest, end, cap, got + |chunks[0]|);
      }
    }
  }

  // ---------------------------------------------------------------- what an accepted body looks like

  lemma AcceptedLine(data: bytes, end: End, cap: nat, got: nat)
    requires DecodeChunks(data, end, cap, got).Ok? && LF in data
    ensures
      var i := IndexOf(data, LF);
      var size := ChunkSize(data[..i]);
      && size.Some?
      && DecodeChunks(data, end, cap, got) == DecodeSized(data[i + 1..], size.value, end, cap, got)
  {
    hide ChunkSize, DecodeSized;
    var i := IndexOf(data, LF);
    assert data[..i + 1] == data[..i] + [LF];
    SizeIgnoresTrailing(data[..i], LF);
  }

  lemma AcceptedChunk(data: bytes, size: nat, end: End, cap: nat, got: nat)
    requires DecodeSized(data, size, end, cap, got).Ok? && size > 0
    ensures
      && |data| >= size + 2
      && DecodeChunks(data[size + 2..], end, cap, got + size).Ok?
      && DecodeSized(data, size, end, cap, got).value.0
         == data[..size] + DecodeChunks(data[size + 2..], end, cap, got + size).value.0
  {
    hide DecodeChunks;
    assert data[size..][2..] == data[size + 2..];
  }

  lemma NothingMore(data: bytes, end: End, cap: nat, got: nat)
    requires DecodeSized(data, 0, end, cap, got).Ok?
    ensures DecodeSized(data, 0, end, cap, got).value.0 == []
  {
  }
}
