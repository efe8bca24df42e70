/** The outbound client's way of reading: a buffer grows by whatever each read brings until
    it holds enough, and is refused once it has outgrown a limit. */
module GrowingBuffer {
  import opened ByteSource
  import opened Bytes
  import opened Wrappers

  const READ_BUFFER_BYTES: nat := 1024

  datatype ProbeError = ResponseTooLarge | Invalid | Failed(error: HttpError)

  /** Pieces as a source holds them: an empty one would read as the end of the stream. */
  predicate NonEmpty(pieces: seq<bytes>) {
    forall i :: 0 <= i < |pieces| ==> pieces[i] != []
  }

  function EndError(end: End): ProbeError {
    if end.Fault? then Failed(end.error) else Invalid
  }

  /** The buffer once it is enough, and the pieces still to come. */
  function Grow(buf: bytes, pieces: seq<bytes>, end: End, limit: int, enough: bytes -> bool)
    : (r: Result<(bytes, seq<bytes>), ProbeError>)
    requires NonEmpty(pieces)
    ensures r.Ok? ==>
      enough(r.value.0) && NonEmpty(r.value.1) && r.value.0 + Flatten(r.value.1) == buf + Flatten(pieces)
    decreases |Flatten(pieces)|
  {
    if enough(buf) then Ok((buf, pieces))
    else if |buf| > limit then Err(ResponseTooLarge)
    else if pieces == [] then Err(EndError(end))
    else
      ReadSplits(pieces, end, READ_BUFFER_BYTES);
      var read := NextRead(pieces, end, READ_BUFFER_BYTES).value;
      var after := AfterRead(pieces, READ_BUFFER_BYTES);
      assert (buf + read) + Flatten(after) == buf + Flatten(pieces);
      Grow(buf + read, after, end, limit, enough)
  }

  /** A read that yields nothing means every byte had already arrived. */
  lemma NothingLeft(pieces: seq<bytes>, end: End, all: bytes, buf: bytes)
    requires NonEmpty(pieces)
    requires all == buf + Flatten(pieces)
    requires NextRead(pieces, end, READ_BUFFER_BYTES).Err? || NextRead(pieces, end, READ_BUFFER_BYTES).value == []
    ensures all == buf && pieces == []
    ensures NextRead(pieces, end, READ_BUFFER_BYTES) == if end.Fault? then Err(end.error) else Ok([])
  {
    if pieces != [] {
      ReadSplits(pieces, end, READ_BUFFER_BYTES);
    }
  }

  lemma GrowEnds(buf: bytes, pieces: seq<bytes>, end: End, limit: int, enough: bytes -> bool)
    requires NonEmpty(pieces)
    ensures
      var r := Grow(buf, pieces, end, limit, enough);
      r.Ok? ==> enough(r.value.0) && NonEmpty(r.value.1) && r.value.0 + Flatten(r.value.1) == buf + Flatten(pieces)
  {
  }

  /** Some prefix of `all`, no shorter than `from`, is not enough and over the limit. */
  ghost predicate Outgrown(all: bytes, from: nat, limit: int, enough: bytes -> bool) {
    exists k :: from <= k <= |all| && k > limit && !enough(all[..k])
  }

  /** Why a buffer was refused, whatever the pieces: it outgrew its limit before it was
      enough, or the stream ended within the limit and all of it was not enough. */
  lemma {:induction false} GrowFailure(buf: bytes, pieces: seq<bytes>, end: End, limit: int, enough: bytes -> bool)
    requires NonEmpty(pieces) && Grow(buf, pieces, end, limit, enough).Err?
    ensures
      var all := buf + Flatten(pieces);
      || (Grow(buf, pieces, end, limit, enough) == Err(ResponseTooLarge) && Outgrown(all, |buf|, limit, enough))
      || (Grow(buf, pieces, end, limit, enough) == Err(EndError(end)) && !enough(all) && |all| <= limit)
    decreases |Flatten(pieces)|
  {
    hide NextRead, AfterRead;
    var all := buf + Flatten(pieces);
    assert all[..|buf|] == buf;
    if |buf| <= limit {
      if pieces == [] {
        assert all == buf;
      } else {
        ReadSplits(pieces, end, READ_BUFFER_BYTES);
        var read := NextRead(pieces, end, READ_BUFFER_BYTES).value;
        var after := AfterRead(pieces, READ_BUFFER_BYTES);
        assert all == (buf + read) + Flatten(after);
        GrowFailure(buf + read, after, end, limit, enough);
      }
    }
  }

  /** With everything in the buffer nothing is read. */
  lemma GrowAtOnce(buf: bytes, end: End, limit: int, enough: bytes -> bool)
    ensures Grow(buf, [], end, limit, enough)
         == if enough(buf) then Ok((buf, [])) else if |buf| > limit then Err(ResponseTooLarge) else Err(EndError(end))
  {
  }

  // ---------------------------------------------------------------- byte by byte

  /** The bytes one at a time. */
  function Singles(data: bytes): (pieces: seq<bytes>)
    ensures |pieces| == |data| && forall i :: 0 <= i < |data| ==> pieces[i] == [data[i]]
    ensures NonEmpty(pieces)
  {
    seq(|data|, i requires 0 <= i < |data| => [data[i]])
  }

  lemma {:induction false} SinglesFlatten(data: bytes)
    ensures Flatten(Singles(data)) == data
  {
    if data != [] {
      SinglesFlatten(data[1..]);
      assert Singles(data)[1..] == Singles(data[1..]);
    }
  }

  lemma SingleRead(data: bytes, end: End)
    requires data != []
    ensures Flatten(Singles(data)) == data && Flatten(Singles(data[1..])) == data[1..]
    ensures NextRead(Singles(data), end, READ_BUFFER_BYTES) == Ok([data[0]])
    ensures AfterRead(Singles(data), READ_BUFFER_BYTES) == Singles(data[1..])
  {
    hide Flatten;
    SinglesFlatten(data);
    SinglesFlatten(data[1..]);
    assert [data[0]][..1] == [data[0]];
    assert Singles(data)[1..] == Singles(data[1..]);
  }

  lemma GrowByOne(buf: bytes, data: bytes, end: End, limit: int, enough: bytes -> bool)
    requires data != [] && !enough(buf) && |buf| <= limit
    ensures Grow(buf, Singles(data), end, limit, enough)
         == Grow(buf + [data[0]], Singles(data[1..]), end, limit, enough)
  {
    SingleRead(data, end);
    hide NextRead, AfterRead, Flatten, Singles;
  }

  /** Byte by byte the buffer grows to its first length that is enough, or is refused at
      the first length over the limit. */
  lemma {:induction false} GrowSlowly(buf: bytes, data: bytes, n: nat, end: End, limit: int, enough: bytes -> bool)
    requires |buf| <= n <= |buf + data|
    requires forall k :: |buf| <= k < n ==> !enough((buf + data)[..k])
    ensures limit < n && !enough((buf + data)[..n]) ==>
      Grow(buf, Singles(data), end, limit, enough) == Err(ResponseTooLarge)
    ensures n <= limit + 1 && enough((buf + data)[..n]) ==>
      Grow(buf, Singles(data), end, limit, enough) == Ok(((buf + data)[..n], Singles((buf + data)[n..])))
    decreases |data|
  {
    hide Grow;
    var all := buf + data;
    assert all[..|buf|] == buf && all[|buf|..] == data;
    if |buf| == n {
      GrowStops(buf, data, end, limit, enough);
      if limit < n && !enough(buf) {
        GrowRefuses(buf, data, end, limit, enough);
      }
    } else if |buf| > limit {
      GrowRefuses(buf, data, end, limit, enough);
    } else {
      GrowByOne(buf, data, end, limit, enough);
      assert all == (buf + [data[0]]) + data[1..];
      GrowSlowly(buf + [data[0]], data[1..], n, end, limit, enough);
    }
  }

  lemma GrowStops(buf: bytes, data: bytes, end: End, limit: int, enough: bytes -> bool)
    ensures enough(buf) ==> Grow(buf, Singles(data), end, limit, enough) == Ok((buf, Singles(data)))
  {
  }

  lemma GrowRefuses(buf: bytes, data: bytes, end: End, limit: int, enough: bytes -> bool)
    requires !enough(buf) && |buf| > limit
    ensures Grow(buf, Singles(data), end, limit, enough) == Err(ResponseTooLarge)
  {
  }
}
