/** Every way a response's bytes may be delivered to the buffering client. */
module ProbeDeliveries {
  import opened ByteSource
  import opened Bytes
  import opened ChunkedBody
  import opened GrowingBuffer
  import opened ProbeResponse
  import opened ScratchDecoder
  import opened Wrappers

  /** A header section of at most one byte over the cap is found in every delivery. */
  lemma HeadFound(pieces: seq<bytes>, end: End, cap: nat, h: nat)
    requires NonEmpty(pieces) && HeadEnd(Flatten(pieces)) == Some(h) && h <= cap + 1
    ensures
      var head := Grow([], pieces, end, cap, HasHead());
      && head.Ok? && HeadEnd(head.value.0) == Some(h)
      && NonEmpty(head.value.1) && head.value.0 + Flatten(head.value.1) == Flatten(pieces)
  {
    hide HeadEnd;
    var all := Flatten(pieces);
    assert [] + all == all;
    HeadEndInRange(all);
    var head := Grow([], pieces, end, cap, HasHead());
    if head.Err? {
      GrowFailure([], pieces, end, cap, HasHead());
      var k :| 0 <= k <= |all| && k > cap && !HasHead()(all[..k]);
      assert all == all[..k] + all[k..];
      HeadEndStable(all[..k], all[k..]);
    } else {
      HeadEndStable(head.value.0, Flatten(head.value.1));
    }
  }

  /** A longer one is refused when the bytes come one at a time. */
  lemma HeadRefused(data: bytes, end: End, cap: nat)
    requires HeadEnd(data).Some? && HeadEnd(data).value > cap + 1
    ensures Grow([], Singles(data), end, cap, HasHead()) == Err(ResponseTooLarge)
  {
    hide HeadEnd, Grow;
    HeadEndInRange(data);
    NoHeadBefore(data);
    assert [] + data == data;
    GrowSlowly([], data, HeadEnd(data).value - 1, end, cap, HasHead());
  }

  lemma NoHeadBefore(data: bytes)
    requires HeadEnd(data).Some?
    ensures forall k: nat :: k < HeadEnd(data).value && k <= |data| ==> !HasHead()(data[..k])
  {
    hide HeadEnd;
    forall k: nat | k < HeadEnd(data).value && k <= |data|
      ensures HeadEnd(data[..k]).None?
    {
      assert data == data[..k] + data[k..];
      HeadEndStable(data[..k], data[k..]);
      HeadEndInRange(data[..k]);
    }
  }

  // ---------------------------------------------------------------- one stream, one reply

  /** Two deliveries of the same bytes that both succeed give the same reply, even if the
      streams end differently. */
  lemma SameReply(p: seq<bytes>, q: seq<bytes>, pEnd: End, qEnd: End, cap: nat)
    requires NonEmpty(p) && NonEmpty(q) && Flatten(p) == Flatten(q)
    ensures Receive(p, pEnd, cap).Ok? && Receive(q, qEnd, cap).Ok? ==> Receive(p, pEnd, cap) == Receive(q, qEnd, cap)
  {
    hide Receive, WholeReply;
    ReplyOrRefusal(p, pEnd, cap);
    ReplyOrRefusal(q, qEnd, cap);
    EndIndifferent(Flatten(p), pEnd, qEnd, cap);
  }

  lemma EndIndifferent(data: bytes, a: End, b: End, cap: nat)
    ensures WholeReply(data, a, cap).Ok? && WholeReply(data, b, cap).Ok? ==>
      WholeReply(data, a, cap) == WholeReply(data, b, cap)
  {
    hide HeadEnd, ParseStatus, TextLines, FirstLength, Whole;
    var head := HeadEnd(data);
    if head.Some? {
      HeadEndInRange(data);
      WholeIndifferent(data[head.value..], 0, a, b, cap);
    }
  }

  lemma {:induction false} WholeIndifferent(data: bytes, got: nat, a: End, b: End, cap: nat)
    ensures Whole(data, got, a, cap).Ok? ==> Whole(data, got, b, cap) == Whole(data, got, a, cap)
    decreases |data|
  {
    hide ChunkSize, Whole, WholeChunk, IndexOf;
    if Whole(data, got, a, cap).Ok? {
      DoneLine(data, got, a, cap);
      LineIndifferent(data, got, b, cap);
      var i := IndexOf(data, LF);
      var size := ChunkSize(data[..i]).value;
      if size > 0 {
        var rest := data[i + 1..];
        DoneChunk(rest, size, got, a, cap);
        RestIndifferent(rest, size, got, b, cap);
        WholeIndifferent(rest[size + 2..], got + size, a, b, cap);
      }
    }
  }

  lemma LineIndifferent(data: bytes, got: nat, end: End, cap: nat)
    requires
      var i := IndexOf(data, LF);
      i < |data| && ChunkSize(data[..i]).Some? && ChunkSize(data[..i]).value <= cap
    ensures
      var i := IndexOf(data, LF);
      var size := ChunkSize(data[..i]).value;
      Whole(data, got, end, cap) == if size == 0 then Ok([]) else WholeChunk(data[i + 1..], size, got, end, cap)
  {
    hide ChunkSize, WholeChunk;
  }

  lemma RestIndifferent(data: bytes, size: nat, got: nat, end: End, cap: nat)
    requires |data| >= size + 2
    ensures WholeChunk(data, size, got, end, cap)
         == Prepend(data[..size], Whole(data[size + 2..], got + size, end, cap))
  {
    hide Whole, Prepend;
  }

  // ---------------------------------------------------------------- a chunked reply

  lemma SplitBuffer(buf: bytes, later: bytes, head: bytes, more: bytes)
    requires buf + later == head + more && |head| <= |buf|
    ensures buf[..|head|] == head && buf[|head|..] + later == more
  {
    assert (buf + later)[..|head|] == head && (buf + later)[|head|..] == more;
    assert (buf + later)[..|head|] == buf[..|head|];
  }

  /** A header section that asks for a chunked body. */
  ghost predicate ChunkedHead(head: bytes, status: nat) {
    HeadEnd(head) == Some(|head|) && ParseStatus(head) == Some(status) && AnyChunked(TextLines(head))
  }

  /** What follows the header section, once it is found. */
  lemma ChunkedReply(pieces: seq<bytes>, end: End, cap: nat, head: bytes, status: nat, body: bytes)
    requires NonEmpty(pieces) && Flatten(pieces) == head + body && ChunkedHead(head, status)
    ensures
      var found := Grow([], pieces, end, cap, HasHead());
      found.Ok? ==>
        && |head| <= |found.value.0| && NonEmpty(found.value.1)
        && found.value.0[|head|..] + Flatten(found.value.1) == body
        && Receive(pieces, end, cap)
           == match Buffered(found.value.0[|head|..], found.value.1, 0, end, cap)
              case Ok(b) => Ok((status, Trim(b)))
              case Err(e) => Err(e)
  {
    hide HeadEnd, Grow, ParseStatus, TextLines, Buffered, FirstLength, AnyChunked;
    HeadEndStable(head, body);
    GrowEnds([], pieces, end, cap, HasHead());
    assert [] + Flatten(pieces) == Flatten(pieces);
    var found := Grow([], pieces, end, cap, HasHead());
    if found.Ok? {
      var (buf, later) := found.value;
      HeadEndStable(buf, Flatten(later));
      HeadEndInRange(buf);
      SplitBuffer(buf, Flatten(later), head, body);
    }
  }

  /** Byte by byte, the buffer stops growing where the header section ends. */
  lemma HeadSlowly(head: bytes, body: bytes, end: End, cap: nat)
    requires HeadEnd(head) == Some(|head|) && |head| <= cap + 1
    ensures Grow([], Singles(head + body), end, cap, HasHead()) == Ok((head, Singles(body)))
  {
    hide HeadEnd, Grow;
    var data := head + body;
    HeadEndStable(head, body);
    NoHeadBefore(data);
    assert [] + data == data;
    assert data[..|head|] == head && data[|head|..] == body;
    GrowSlowly([], data, |head|, end, cap, HasHead());
  }

  lemma ChunkedReplyAlways(
    pieces: seq<bytes>, end: End, cap: nat, head: bytes, status: nat, chunks: seq<bytes>, rest: bytes)
    requires Sendable(chunks) && ChunkedHead(head, status)
    requires NonEmpty(pieces) && Flatten(pieces) == head + (Encode(chunks) + rest)
    requires |head| <= cap + 1 && DecodesAlways(chunks, 0, cap)
    ensures Receive(pieces, end, cap) == Ok((status, Trim(Flatten(chunks))))
  {
    hide HeadEnd, Grow, ChunkedHead, Buffered, Whole, Refusable, DecodesAlways, Receive, Encode, Trim;
    var body := Encode(chunks) + rest;
    HeadOf(head, status, body);
    HeadFound(pieces, end, cap, |head|);
    ChunkedReply(pieces, end, cap, head, status, body);
    var (buf, later) := Grow([], pieces, end, cap, HasHead()).value;
    DeliveryResult(buf[|head|..], later, 0, end, cap);
    WholeInvertsEncode(chunks, rest, 0, end, cap);
  }

  lemma HeadOf(head: bytes, status: nat, body: bytes)
    requires ChunkedHead(head, status)
    ensures HeadEnd(head) == Some(|head|) && HeadEnd(head + body) == Some(|head|)
  {
    hide HeadEnd;
    HeadEndStable(head, body);
  }

  lemma ChunkedReplyRefused(end: End, cap: nat, head: bytes, status: nat, chunks: seq<bytes>, rest: bytes)
    requires Sendable(chunks) && ChunkedHead(head, status)
    requires |head| > cap + 1 || !DecodesAlways(chunks, 0, cap)
    ensures Receive(Singles(head + (Encode(chunks) + rest)), end, cap).Err?
  {
    hide HeadEnd, Grow, ChunkedHead, Buffered, Whole, Refusable, DecodesAlways, Encode, ReplyFrom;
    var body := Encode(chunks) + rest;
    HeadOf(head, status, body);
    if |head| > cap + 1 {
      HeadRefused(head + body, end, cap);
    } else {
      HeadSlowly(head, body, end, cap);
      SinglesFlatten(head + body);
      SinglesFlatten(body);
      ChunkedReply(Singles(head + body), end, cap, head, status, body);
      assert head[|head|..] == [];
      WholeInvertsEncode(chunks, rest, 0, end, cap);
      DeliveryResult([], Singles(body), 0, end, cap);
      assert [] + Flatten(Singles(body)) == body;
      if Refusable(body, 0, cap) {
        ByteByByte(body, 0, end, cap);
      }
    }
  }

  /** Every delivery of a chunked reply gives back its status and trimmed body if and only if
      the header section is at most one byte over the cap and the chunks decode always. */
  lemma ChunkedReplyIff(end: End, cap: nat, head: bytes, status: nat, chunks: seq<bytes>, rest: bytes)
    requires Sendable(chunks) && ChunkedHead(head, status)
    ensures
      (forall pieces: seq<bytes> ::
         NonEmpty(pieces) && Flatten(pieces) == head + (Encode(chunks) + rest) ==>
           Receive(pieces, end, cap) == Ok((status, Trim(Flatten(chunks)))))
      <==> |head| <= cap + 1 && DecodesAlways(chunks, 0, cap)
  {
    hide ChunkedHead, DecodesAlways, Receive, Encode, Trim;
    var data := head + (Encode(chunks) + rest);
    if |head| <= cap + 1 && DecodesAlways(chunks, 0, cap) {
      forall pieces: seq<bytes> | NonEmpty(pieces) && Flatten(pieces) == data
        ensures Receive(pieces, end, cap) == Ok((status, Trim(Flatten(chunks))))
      {
        ChunkedReplyAlways(pieces, end, cap, head, status, chunks, rest);
      }
    } else {
      SinglesFlatten(data);
      ChunkedReplyRefused(end, cap, head, status, chunks, rest);
    }
  }
}
