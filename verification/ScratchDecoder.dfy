/** The outbound client's decoder of chunked transfer coding, and every way its bytes may
    be delivered to it. */
module ScratchDecoder {
  import opened ByteSource
  import opened Bytes
  import opened ChunkedBody
  import opened GrowingBuffer
  import opened Sequences
  import opened Wrappers

  // ---------------------------------------------------------------- the decoder

  function HasLine(): bytes -> bool {
    (buf: bytes) => LF in buf
  }

  function Holds(n: nat): bytes -> bool {
    (buf: bytes) => |buf| >= n
  }

  /** What the decoder makes of a buffer and the pieces after it, `got` bytes decoded before. */
  function Buffered(buf: bytes, pieces: seq<bytes>, got: nat, end: End, cap: nat): Result<bytes, ProbeError>
    requires NonEmpty(pieces)
    decreases |buf| + |Flatten(pieces)|, 1
  {
    var line := Grow(buf, pieces, end, cap, HasLine());
    if line.Err? then Err(line.error)
    else
      var (scratch, rest) := line.value;
      var i := IndexOf(scratch, LF);
      var size := ChunkSize(scratch[..i]);
      if size.None? then Err(Invalid)
      else if size.value == 0 then Ok([])
      else if size.value > cap then Err(ResponseTooLarge)
      else
        assert |scratch| + |Flatten(rest)| == |buf| + |Flatten(pieces)|;
        BufferedChunk(scratch[i + 1..], rest, size.value, got, end, cap)
  }

  /** The same, past the size line. */
  function BufferedChunk(buf: bytes, pieces: seq<bytes>, size: nat, got: nat, end: End, cap: nat)
    : Result<bytes, ProbeError>
    requires NonEmpty(pieces)
    decreases |buf| + |Flatten(pieces)|, 0
  {
    var chunk := Grow(buf, pieces, end, cap - got, Holds(size + 2));
    if chunk.Err? then Err(chunk.error)
    else
      var (scratch, rest) := chunk.value;
      assert |scratch| + |Flatten(rest)| == |buf| + |Flatten(pieces)|;
      Prepend(scratch[..size], Buffered(scratch[size + 2..], rest, got + size, end, cap))
  }

  function Prepend(body: bytes, r: Result<bytes, ProbeError>): Result<bytes, ProbeError> {
    match r
    case Ok(more) => Ok(body + more)
    case Err(e) => Err(e)
  }

  lemma PrependTwice(a: bytes, b: bytes, r: Result<bytes, ProbeError>)
    ensures Prepend(a, Prepend(b, r)) == Prepend(a + b, r)
    ensures a == [] ==> Prepend(a, r) == r
  {
    if r.Ok? {
      assert a + (b + r.value) == (a + b) + r.value;
      assert [] + r.value == r.value;
    }
  }

  /** Decode with a scratch buffer: the whole stream's result, or a refusal where the bytes
      allow one; which of the two only the delivery decides. */
  method ReadChunkedBody(src: Source, start: bytes, cap: nat) returns (r: Result<bytes, ProbeError>)
    requires src.Valid()
    modifies src
    ensures src.Valid()
    ensures r == Buffered(start, old(src.pieces), 0, src.end, cap)
    ensures
      var all := start + old(src.Data());
      r == Whole(all, 0, src.end, cap) || (r == Err(ResponseTooLarge) && Refusable(all, 0, cap))
  {
    hide ChunkSize, Grow, Buffered, BufferedChunk, Prepend, Whole, Refusable, HasLine, Holds, IndexOf;
    DeliveryResult(start, src.pieces, 0, src.end, cap);
    var scratch := start;
    var decoded: bytes := [];
    ghost var goal := Buffered(start, src.pieces, 0, src.end, cap);
    PrependTwice([], [], goal);
    while true
      invariant src.Valid()
      invariant goal == Prepend(decoded, Buffered(scratch, src.pieces, |decoded|, src.end, cap))
      decreases |scratch| + |src.Data()|
    {
      BufferedLine(scratch, src.pieces, |decoded|, src.end, cap);
      PrependEnds(decoded);
      var line := FillLine(src, scratch, cap);
      if line.Err? {
        return line;
      }
      scratch := line.value;
      var lineEnd := IndexOf(scratch, LF);
      var size := ChunkSize(scratch[..lineEnd]);
      if size.None? {
        return Err(Invalid);
      }
      scratch := scratch[lineEnd + 1..];
      if size.value == 0 {
        return Ok(decoded);
      }
      if size.value > cap {
        return Err(ResponseTooLarge);
      }
      BufferedRest(scratch, src.pieces, size.value, |decoded|, src.end, cap);
      var chunk := FillChunk(src, scratch, size.value, |decoded|, cap);
      if chunk.Err? {
        return chunk;
      }
      scratch := chunk.value;
      PrependTwice(
        decoded, scratch[..size.value],
        Buffered(scratch[size.value + 2..], src.pieces, |decoded| + size.value, src.end, cap));
      decoded := decoded + scratch[..size.value];
      scratch := scratch[size.value + 2..];
    }
  }

  lemma PrependEnds(decoded: bytes)
    ensures Prepend(decoded, Ok([])) == Ok(decoded)
    ensures forall e :: Prepend(decoded, Err(e)) == Err(e)
  {
    assert decoded + [] == decoded;
  }

  lemma BufferedLine(buf: bytes, pieces: seq<bytes>, got: nat, end: End, cap: nat)
    requires NonEmpty(pieces)
    ensures
      var line := Grow(buf, pieces, end, cap, HasLine());
      && (line.Err? ==> Buffered(buf, pieces, got, end, cap) == Err(line.error))
      && (line.Ok? ==>
            var (scratch, rest) := line.value;
            var i := IndexOf(scratch, LF);
            && i < |scratch| && NonEmpty(rest) && scratch + Flatten(rest) == buf + Flatten(pieces)
            && var size := ChunkSize(scratch[..i]);
            Buffered(buf, pieces, got, end, cap)
            == if size.None? then Err(Invalid)
               else if size.value == 0 then Ok([])
               else if size.value > cap then Err(ResponseTooLarge)
               else BufferedChunk(scratch[i + 1..], rest, size.value, got, end, cap))
  {
    hide ChunkSize, BufferedChunk;
  }

  lemma BufferedRest(buf: bytes, pieces: seq<bytes>, size: nat, got: nat, end: End, cap: nat)
    requires NonEmpty(pieces)
    ensures
      var chunk := Grow(buf, pieces, end, cap - got, Holds(size + 2));
      && (chunk.Err? ==> BufferedChunk(buf, pieces, size, got, end, cap) == Err(chunk.error))
      && (chunk.Ok? ==>
            var (scratch, rest) := chunk.value;
            && |scratch| >= size + 2 && NonEmpty(rest) && scratch + Flatten(rest) == buf + Flatten(pieces)
            && BufferedChunk(buf, pieces, size, got, end, cap)
               == Prepend(scratch[..size], Buffered(scratch[size + 2..], rest, got + size, end, cap)))
  {
    hide Buffered, Prepend;
  }

  /** Read into `scratch` until it holds a line feed. */
  method FillLine(src: Source, scratch: bytes, cap: nat) returns (r: Result<bytes, ProbeError>)
    requires src.Valid()
    modifies src
    ensures src.Valid()
    ensures
      match Grow(scratch, old(src.pieces), src.end, cap, HasLine())
      case Ok((buf, rest)) => r == Ok(buf) && src.pieces == rest
      case Err(e) => r == Err(e)
  {
    var buf := scratch;
    while LF !in buf
      invariant src.Valid()
      invariant Grow(buf, src.pieces, src.end, cap, HasLine())
           == Grow(scratch, old(src.pieces), src.end, cap, HasLine())
      decreases |src.Data()|
    {
      if |buf| > cap {
        return Err(ResponseTooLarge);
      }
      ghost var left := src.pieces;
      var chunk := src.Read(READ_BUFFER_BYTES);
      if chunk.Err? {
        NothingLeft(left, src.end, buf + Flatten(left), buf);
        return Err(Failed(chunk.error));
      }
      if chunk.value == [] {
        NothingLeft(left, src.end, buf + Flatten(left), buf);
        return Err(Invalid);
      }
      buf := buf + chunk.value;
    }
    return Ok(buf);
  }

  /** Read into `scratch` until it holds the chunk and its line end. */
  method FillChunk(src: Source, scratch: bytes, size: nat, decoded: nat, cap: nat)
    returns (r: Result<bytes, ProbeError>)
    requires src.Valid()
    modifies src
    ensures src.Valid()
    ensures
      match Grow(scratch, old(src.pieces), src.end, cap - decoded, Holds(size + 2))
      case Ok((buf, rest)) => r == Ok(buf) && src.pieces == rest
      case Err(e) => r == Err(e)
  {
    var buf := scratch;
    while |buf| < size + 2
      invariant src.Valid()
      invariant Grow(buf, src.pieces, src.end, cap - decoded, Holds(size + 2))
             == Grow(scratch, old(src.pieces), src.end, cap - decoded, Holds(size + 2))
      decreases |src.Data()|
    {
      if decoded + |buf| > cap {
        return Err(ResponseTooLarge);
      }
      ghost var left := src.pieces;
      var chunk := src.Read(READ_BUFFER_BYTES);
      if chunk.Err? {
        NothingLeft(left, src.end, buf + Flatten(left), buf);
        return Err(Failed(chunk.error));
      }
      if chunk.value == [] {
        NothingLeft(left, src.end, buf + Flatten(left), buf);
        return Err(Invalid);
      }
      buf := buf + chunk.value;
    }
    return Ok(buf);
  }

  // ---------------------------------------------------------------- every delivery of some bytes

  /** The result for a stream whose bytes are all there at once. */
  function Whole(data: bytes, got: nat, end: End, cap: nat): Result<bytes, ProbeError>
    decreases |data|, 1
  {
    var i := IndexOf(data, LF);
    if i == |data| then Err(if |data| > cap then ResponseTooLarge else EndError(end))
    else
      var size := ChunkSize(data[..i]);
      if size.None? then Err(Invalid)
      else if size.value == 0 then Ok([])
      else if size.value > cap then Err(ResponseTooLarge)
      else WholeChunk(data[i + 1..], size.value, got, end, cap)
  }

  function WholeChunk(data: bytes, size: nat, got: nat, end: End, cap: nat): Result<bytes, ProbeError>
    decreases |data|, 0
  {
    if |data| < size + 2 then Err(if got + |data| > cap then ResponseTooLarge else EndError(end))
    else Prepend(data[..size], Whole(data[size + 2..], got + size, end, cap))
  }

  /** Whether some delivery is refused while the decoder waits: a size line longer than the
      cap, or a chunk that with the body before it leaves no byte of the cap unused. */
  predicate Refusable(data: bytes, got: nat, cap: nat)
    decreases |data|, 1
  {
    var i := IndexOf(data, LF);
    i > cap ||
    (i < |data| &&
     var size := ChunkSize(data[..i]);
     size.Some? && 0 < size.value <= cap && ChunkRefusable(data[i + 1..], size.value, got, cap))
  }

  predicate ChunkRefusable(data: bytes, size: nat, got: nat, cap: nat)
    decreases |data|, 0
  {
    || got + (if |data| < size + 1 then |data| else size + 1) > cap
    || (|data| >= size + 2 && Refusable(data[size + 2..], got + size, cap))
  }

  lemma WholeLine(scratch: bytes, more: bytes, got: nat, end: End, cap: nat)
    requires LF in scratch
    ensures
      var i := IndexOf(scratch, LF);
      var size := ChunkSize(scratch[..i]);
      && Whole(scratch + more, got, end, cap)
         == (if size.None? then Err(Invalid)
             else if size.value == 0 then Ok([])
             else if size.value > cap then Err(ResponseTooLarge)
             else WholeChunk(scratch[i + 1..] + more, size.value, got, end, cap))
      && (Refusable(scratch + more, got, cap) <==>
            || i > cap
            || (size.Some? && 0 < size.value <= cap && ChunkRefusable(scratch[i + 1..] + more, size.value, got, cap)))
  {
    hide ChunkSize, WholeChunk, ChunkRefusable;
    var i := IndexOf(scratch, LF);
    IndexOfPrefix(scratch, more, LF);
    SplitAppend(scratch, more, i);
    SplitAppend(scratch, more, i + 1);
  }

  lemma WholeRest(scratch: bytes, more: bytes, size: nat, got: nat, end: End, cap: nat)
    requires |scratch| >= size + 2
    ensures WholeChunk(scratch + more, size, got, end, cap)
         == Prepend(scratch[..size], Whole(scratch[size + 2..] + more, got + size, end, cap))
    ensures ChunkRefusable(scratch + more, size, got, cap)
       <==> got + size + 1 > cap || Refusable(scratch[size + 2..] + more, got + size, cap)
  {
    hide Whole, Refusable, Prepend;
    SplitAppend(scratch, more, size);
    SplitAppend(scratch, more, size + 2);
  }

  /** A line refused or cut short, in the terms of the whole stream. */
  lemma LineFails(buf: bytes, pieces: seq<bytes>, got: nat, end: End, cap: nat)
    requires NonEmpty(pieces) && Grow(buf, pieces, end, cap, HasLine()).Err?
    ensures
      var r := Err(Grow(buf, pieces, end, cap, HasLine()).error);
      var all := buf + Flatten(pieces);
      r == Whole(all, got, end, cap) || (r == Err(ResponseTooLarge) && Refusable(all, got, cap))
  {
    hide Grow, ChunkSize;
    var all := buf + Flatten(pieces);
    GrowFailure(buf, pieces, end, cap, HasLine());
    if Outgrown(all, |buf|, cap, HasLine()) {
      var k :| |buf| <= k <= |all| && k > cap && !HasLine()(all[..k]);
      assert forall j :: 0 <= j < k ==> all[..k][j] == all[j];
    }
  }

  lemma ChunkFails(buf: bytes, pieces: seq<bytes>, size: nat, got: nat, end: End, cap: nat)
    requires NonEmpty(pieces) && Grow(buf, pieces, end, cap - got, Holds(size + 2)).Err?
    ensures
      var r := Err(Grow(buf, pieces, end, cap - got, Holds(size + 2)).error);
      var all := buf + Flatten(pieces);
      r == WholeChunk(all, size, got, end, cap) || (r == Err(ResponseTooLarge) && ChunkRefusable(all, size, got, cap))
  {
    hide Grow, Whole, Refusable;
    GrowFailure(buf, pieces, end, cap - got, Holds(size + 2));
  }

  /** A delivery leads to the whole stream's result, or to a refusal where one is possible. */
  lemma {:induction false} DeliveryResult(buf: bytes, pieces: seq<bytes>, got: nat, end: End, cap: nat)
    requires NonEmpty(pieces)
    ensures
      var r := Buffered(buf, pieces, got, end, cap);
      var all := buf + Flatten(pieces);
      r == Whole(all, got, end, cap) || (r == Err(ResponseTooLarge) && Refusable(all, got, cap))
    decreases |buf| + |Flatten(pieces)|
  {
    hide Grow, ChunkSize, Buffered, BufferedChunk, Whole, WholeChunk, Refusable, ChunkRefusable, Prepend;
    BufferedLine(buf, pieces, got, end, cap);
    var line := Grow(buf, pieces, end, cap, HasLine());
    if line.Err? {
      LineFails(buf, pieces, got, end, cap);
    } else {
      var (scratch, rest) := line.value;
      WholeLine(scratch, Flatten(rest), got, end, cap);
      var i := IndexOf(scratch, LF);
      var size := ChunkSize(scratch[..i]);
      if size.Some? && 0 < size.value <= cap {
        assert |scratch| + |Flatten(rest)| == |buf| + |Flatten(pieces)|;
        ChunkResult(scratch[i + 1..], rest, size.value, got, end, cap);
      }
    }
  }

  lemma {:induction false} ChunkResult(buf: bytes, pieces: seq<bytes>, size: nat, got: nat, end: End, cap: nat)
    requires NonEmpty(pieces)
    ensures
      var r := BufferedChunk(buf, pieces, size, got, end, cap);
      var all := buf + Flatten(pieces);
      r == WholeChunk(all, size, got, end, cap) || (r == Err(ResponseTooLarge) && ChunkRefusable(all, size, got, cap))
    decreases |buf| + |Flatten(pieces)|
  {
    hide Grow, ChunkSize, Buffered, BufferedChunk, Whole, WholeChunk, Refusable, ChunkRefusable;
    BufferedRest(buf, pieces, size, got, end, cap);
    var chunk := Grow(buf, pieces, end, cap - got, Holds(size + 2));
    if chunk.Err? {
      ChunkFails(buf, pieces, size, got, end, cap);
    } else {
      var (scratch, rest) := chunk.value;
      WholeRest(scratch, Flatten(rest), size, got, end, cap);
      assert |scratch| + |Flatten(rest)| == |buf| + |Flatten(pieces)|;
      DeliveryResult(scratch[size + 2..], rest, got + size, end, cap);
    }
  }

  // ---------------------------------------------------------------- the two extreme deliveries

  lemma {:induction false} AllAtOnce(data: bytes, got: nat, end: End, cap: nat)
    ensures Buffered(data, [], got, end, cap) == Whole(data, got, end, cap)
    decreases |data|, 1
  {
    hide ChunkSize, BufferedChunk, WholeChunk;
    GrowAtOnce(data, end, cap, HasLine());
    var i := IndexOf(data, LF);
    if i < |data| {
      var size := ChunkSize(data[..i]);
      if size.Some? {
        ChunkAtOnce(data[i + 1..], size.value, got, end, cap);
      }
    }
  }

  lemma {:induction false} ChunkAtOnce(data: bytes, size: nat, got: nat, end: End, cap: nat)
    ensures BufferedChunk(data, [], size, got, end, cap) == WholeChunk(data, size, got, end, cap)
    decreases |data|, 0
  {
    hide Buffered, Whole;
    GrowAtOnce(data, end, cap - got, Holds(size + 2));
    if |data| >= size + 2 {
      AllAtOnce(data[size + 2..], got + size, end, cap);
    }
  }

  lemma NoLineYet(data: bytes)
    ensures
      var i := IndexOf(data, LF);
      && (forall k :: 0 <= k <= i ==> !HasLine()(data[..k]))
      && (i < |data| ==> HasLine()(data[..i + 1]))
  {
    var i := IndexOf(data, LF);
    assert i < |data| ==> data[..i + 1][i] == LF;
  }

  lemma LineSlowly(data: bytes, end: End, cap: nat)
    ensures
      var i := IndexOf(data, LF);
      var r := Grow([], Singles(data), end, cap, HasLine());
      && (i > cap ==> r == Err(ResponseTooLarge))
      && (i <= cap && i < |data| ==> r == Ok((data[..i + 1], Singles(data[i + 1..]))))
  {
    var i := IndexOf(data, LF);
    NoLineYet(data);
    hide Grow, Singles, IndexOf;
    assert [] + data == data;
    if i > cap {
      GrowSlowly([], data, i, end, cap, HasLine());
    } else if i < |data| {
      GrowSlowly([], data, i + 1, end, cap, HasLine());
    }
  }

  lemma ChunkSlowly(data: bytes, size: nat, end: End, limit: int)
    ensures
      var seen := if |data| < size + 1 then |data| else size + 1;
      var r := Grow([], Singles(data), end, limit, Holds(size + 2));
      && (seen > limit ==> r == Err(ResponseTooLarge))
      && (seen <= limit && |data| >= size + 2 ==> r == Ok((data[..size + 2], Singles(data[size + 2..]))))
  {
    hide Grow, Singles;
    assert [] + data == data;
    var seen := if |data| < size + 1 then |data| else size + 1;
    if seen > limit {
      GrowSlowly([], data, seen, end, limit, Holds(size + 2));
    } else if |data| >= size + 2 {
      GrowSlowly([], data, size + 2, end, limit, Holds(size + 2));
    }
  }

  /** Byte by byte, a possible refusal happens. */
  lemma {:induction false} ByteByByte(data: bytes, got: nat, end: End, cap: nat)
    requires Refusable(data, got, cap)
    ensures Buffered([], Singles(data), got, end, cap) == Err(ResponseTooLarge)
    decreases |data|, 1
  {
    hide Grow, ChunkSize, Singles, Buffered, BufferedChunk, ChunkRefusable;
    var i := IndexOf(data, LF);
    LineSlowly(data, end, cap);
    BufferedLine([], Singles(data), got, end, cap);
    if i <= cap {
      var scratch := data[..i + 1];
      IndexOfIs(scratch, LF, i);
      assert scratch[..i] == data[..i] && scratch[i + 1..] == [];
      ChunkByteByByte(data[i + 1..], ChunkSize(data[..i]).value, got, end, cap);
    }
  }

  lemma {:induction false} ChunkByteByByte(data: bytes, size: nat, got: nat, end: End, cap: nat)
    requires ChunkRefusable(data, size, got, cap)
    ensures BufferedChunk([], Singles(data), size, got, end, cap) == Err(ResponseTooLarge)
    decreases |data|, 0
  {
    hide Grow, Singles, Buffered, BufferedChunk, Refusable;
    ChunkSlowly(data, size, end, cap - got);
    BufferedRest([], Singles(data), size, got, end, cap);
    if got + (if |data| < size + 1 then |data| else size + 1) <= cap {
      assert data[..size + 2][size + 2..] == [];
      ByteByByte(data[size + 2..], got + size, end, cap);
    }
  }

  /** Some way of delivering the bytes: what the caller had already read, then pieces. */
  ghost predicate SomeDelivery(r: Result<bytes, ProbeError>, data: bytes, end: End, cap: nat) {
    exists start: bytes, pieces: seq<bytes> ::
      NonEmpty(pieces) && start + Flatten(pieces) == data && Buffered(start, pieces, 0, end, cap) == r
  }

  /** The results deliveries of the same bytes lead to are exactly the whole stream's and,
      where one is possible, a refusal. */
  lemma DeliveriesIff(r: Result<bytes, ProbeError>, data: bytes, end: End, cap: nat)
    ensures SomeDelivery(r, data, end, cap)
       <==> r == Whole(data, 0, end, cap) || (r == Err(ResponseTooLarge) && Refusable(data, 0, cap))
  {
    hide Buffered, Whole, Refusable;
    forall start: bytes, pieces: seq<bytes> | NonEmpty(pieces) && start + Flatten(pieces) == data
      ensures
        var s := Buffered(start, pieces, 0, end, cap);
        s == Whole(data, 0, end, cap) || (s == Err(ResponseTooLarge) && Refusable(data, 0, cap))
    {
      DeliveryResult(start, pieces, 0, end, cap);
    }
    AllAtOnce(data, 0, end, cap);
    var none: seq<bytes> := [];
    assert data + Flatten(none) == data;
    if Refusable(data, 0, cap) {
      ByteByByte(data, 0, end, cap);
      SinglesFlatten(data);
      var empty: bytes := [];
      assert empty + Flatten(Singles(data)) == data;
    }
  }

  // ---------------------------------------------------------------- decoding what was encoded

  /** Every size line, with the last chunk's, fits the cap. */
  ghost predicate SizeLinesFit(chunks: seq<bytes>, cap: nat) {
    2 <= cap && forall i :: 0 <= i < |chunks| ==> |Format(|chunks[i]|, 16)| + 1 <= cap
  }

  /** Every size line fits the cap, and a body with chunks leaves a byte of it unused. */
  ghost predicate DecodesAlways(chunks: seq<bytes>, got: nat, cap: nat) {
    SizeLinesFit(chunks, cap) && (chunks == [] || got + |Flatten(chunks)| + 1 <= cap)
  }

  lemma OneChunk(chunk: bytes, more: bytes, got: nat, end: End, cap: nat)
    requires 0 < |chunk| <= USIZE_MAX
    ensures
      var data := EncodeChunk(chunk) + more;
      && Whole(data, got, end, cap)
         == (if |chunk| > cap then Err(ResponseTooLarge) else Prepend(chunk, Whole(more, got + |chunk|, end, cap)))
      && (Refusable(data, got, cap) <==>
            || |Format(|chunk|, 16)| + 1 > cap
            || (|chunk| <= cap && (got + |chunk| + 1 > cap || Refusable(more, got + |chunk|, cap))))
  {
    hide Format, ChunkSize, Whole, WholeChunk, Refusable, ChunkRefusable, Prepend;
    var line := Format(|chunk|, 16) + [CR];
    var tail := chunk + (CRLF + more);
    assert EncodeChunk(chunk) + more == (line + [LF]) + tail;
    SizeLine(|chunk|);
    IndexOfIs(line + [LF], LF, |line|);
    WholeLine(line + [LF], tail, got, end, cap);
    assert (line + [LF])[|line| + 1..] + tail == tail && (line + [LF])[..|line|] == line;
    assert tail == (chunk + CRLF) + more;
    WholeRest(chunk + CRLF, more, |chunk|, got, end, cap);
    assert (chunk + CRLF)[|chunk| + 2..] + more == more && (chunk + CRLF)[..|chunk|] == chunk;
  }

  lemma LastOne(rest: bytes, got: nat, end: End, cap: nat)
    ensures
      var data := LastChunk() + rest;
      Whole(data, got, end, cap) == Ok([]) && (Refusable(data, got, cap) <==> 2 > cap)
  {
    hide ChunkSize, WholeChunk, ChunkRefusable;
    SizeLine(0);
    assert Format(0, 16) == [48];
    var line: bytes := [48, 13];
    assert Format(0, 16) + [CR] == line;
    assert LastChunk() + rest == (line + [LF]) + (CRLF + rest);
    IndexOfIs(line + [LF], LF, 2);
    WholeLine(line + [LF], CRLF + rest, got, end, cap);
    assert (line + [LF])[..2] == line;
  }

  /** An encoding's result, and when some delivery of it is refused. */
  lemma {:induction false} WholeInvertsEncode(chunks: seq<bytes>, rest: bytes, got: nat, end: End, cap: nat)
    requires Sendable(chunks)
    ensures
      var data := Encode(chunks) + rest;
      && Whole(data, got, end, cap)
         == (if forall i :: 0 <= i < |chunks| ==> |chunks[i]| <= cap then Ok(Flatten(chunks))
             else Err(ResponseTooLarge))
      && (Whole(data, got, end, cap) == Ok(Flatten(chunks)) && !Refusable(data, got, cap)
          <==> DecodesAlways(chunks, got, cap))
    decreases |chunks|
  {
    hide EncodeChunk, LastChunk, Whole, Refusable, Format;
    var data := Encode(chunks) + rest;
    if chunks == [] {
      LastOne(rest, got, end, cap);
    } else {
      var more := Encode(chunks[1..]) + rest;
      assert data == EncodeChunk(chunks[0]) + more;
      OneChunk(chunks[0], more, got, end, cap);
      WholeInvertsEncode(chunks[1..], rest, got + |chunks[0]|, end, cap);
      assert forall i :: 0 < i < |chunks| ==> chunks[i] == chunks[1..][i - 1];
    }
  }

  /** Every delivery of an encoding returns the body if and only if every size line fits
      the cap and a body with chunks leaves a byte of it unused. */
  lemma EveryDeliveryIff(chunks: seq<bytes>, rest: bytes, end: End, cap: nat)
    requires Sendable(chunks)
    ensures (forall r :: SomeDelivery(r, Encode(chunks) + rest, end, cap) ==> r == Ok(Flatten(chunks)))
       <==> DecodesAlways(chunks, 0, cap)
  {
    hide Whole, Refusable, SomeDelivery, DecodesAlways, Encode;
    var data := Encode(chunks) + rest;
    WholeInvertsEncode(chunks, rest, 0, end, cap);
    forall r
      ensures SomeDelivery(r, data, end, cap)
         <==> r == Whole(data, 0, end, cap) || (r == Err(ResponseTooLarge) && Refusable(data, 0, cap))
    {
      DeliveriesIff(r, data, end, cap);
    }
    assert SomeDelivery(Whole(data, 0, end, cap), data, end, cap);
    assert Refusable(data, 0, cap) ==> SomeDelivery(Err(ResponseTooLarge), data, end, cap);
  }

  // ---------------------------------------------------------------- agreement

  lemma DoneLine(data: bytes, got: nat, end: End, cap: nat)
    requires Whole(data, got, end, cap).Ok?
    ensures
      var i := IndexOf(data, LF);
      && i < |data|
      && var size := ChunkSize(data[..i]);
      && size.Some? && size.value <= cap
      && Whole(data, got, end, cap)
         == if size.value == 0 then Ok([]) else WholeChunk(data[i + 1..], size.value, got, end, cap)
  {
    hide ChunkSize, WholeChunk;
  }

  lemma DoneChunk(data: bytes, size: nat, got: nat, end: End, cap: nat)
    requires WholeChunk(data, size, got, end, cap).Ok?
    ensures |data| >= size + 2 && Whole(data[size + 2..], got + size, end, cap).Ok?
    ensures WholeChunk(data, size, got, end, cap).value
         == data[..size] + Whole(data[size + 2..], got + size, end, cap).value
  {
    hide Whole;
  }

  lemma {:induction false} WholesAgree(data: bytes, end: End, cap: nat, got: nat, scratchEnd: End, scratchCap: nat)
    ensures DecodeChunks(data, end, cap, got).Ok? && Whole(data, got, scratchEnd, scratchCap).Ok? ==>
      DecodeChunks(data, end, cap, got).value.0 == Whole(data, got, scratchEnd, scratchCap).value
    decreases |data|
  {
    hide ChunkSize, DecodeChunks, DecodeSized, Whole, WholeChunk;
    if DecodeChunks(data, end, cap, got).Err? || Whole(data, got, scratchEnd, scratchCap).Err? {
      return;
    }
    var i := IndexOf(data, LF);
    DoneLine(data, got, scratchEnd, scratchCap);
    AcceptedLine(data, end, cap, got);
    var size := ChunkSize(data[..i]).value;
    var rest := data[i + 1..];
    if size == 0 {
      NothingMore(rest, end, cap, got);
    } else {
      AcceptedChunk(rest, size, end, cap, got);
      DoneChunk(rest, size, got, scratchEnd, scratchCap);
      WholesAgree(rest[size + 2..], end, cap, got + size, scratchEnd, scratchCap);
    }
  }

  /** Whenever both decoders succeed on the same bytes, however these were delivered, they
      return the same body. */
  lemma DecodersAgree(
    data: bytes, end: End, cap: nat, start: bytes, pieces: seq<bytes>, scratchEnd: End, scratchCap: nat)
    requires NonEmpty(pieces) && start + Flatten(pieces) == data
    ensures
      && DecodeChunks(data, end, cap, 0).Ok?
      && Buffered(start, pieces, 0, scratchEnd, scratchCap).Ok?
      ==> DecodeChunks(data, end, cap, 0).value.0 == Buffered(start, pieces, 0, scratchEnd, scratchCap).value
  {
    hide Whole, DecodeChunks, Buffered;
    DeliveryResult(start, pieces, 0, scratchEnd, scratchCap);
    WholesAgree(data, end, cap, 0, scratchEnd, scratchCap);
  }
}
