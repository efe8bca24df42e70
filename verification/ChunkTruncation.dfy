/** What the bounded client makes of a chunked body that is cut short. */
module ChunkTruncation {
  import opened Arithmetic
  import opened ByteLaws
  import opened ByteSource
  import opened Bytes
  import opened ChunkedBody
  import HttpRequest
  import HttpResponse
  import opened ResponseFraming
  import RequestRoundTrip
  import opened Wrappers

  // ---------------------------------------------------------------- a size line cut short

  lemma {:induction false} ValuePositive(s: bytes, radix: nat)
    requires s != [] && DigitValue(s[0]) > 0 && radix > 0
    ensures Value(s, radix) > 0
  {
    if |s| > 1 {
      assert s[..|s| - 1][0] == s[0];
      ValuePositive(s[..|s| - 1], radix);
    }
  }

  /** The start of a printed size never reads as zero. */
  lemma SizeCut(n: nat, k: nat)
    requires 0 < n <= USIZE_MAX && k <= |Format(n, 16)|
    ensures ChunkSize(Format(n, 16)[..k]).Some? ==> ChunkSize(Format(n, 16)[..k]).value > 0
    ensures LF !in Format(n, 16)[..k]
  {
    hide Format, Trim, Value;
    var digits := Format(n, 16);
    var text := digits[..k];
    FormatLower(n, 16);
    assert forall i :: 0 <= i < k ==> text[i] == digits[i];
    if k > 0 {
      TrimFixed(text);
      assert text[..IndexOf(text, SEMICOLON)] == text;
      DigitIs(text[0]);
      ValuePositive(text, 16);
    } else {
      NothingSized();
    }
  }

  lemma NothingSized()
    ensures ChunkSize([]).None?
  {
  }

  lemma NothingLeft(size: nat, end: End, cap: nat, got: nat)
    requires size > 0
    ensures DecodeSized([], size, end, cap, got).Err?
  {
  }

  lemma LineCut(data: bytes, end: End, cap: nat, got: nat)
    requires LF !in data && |data| <= 32
    requires ChunkSize(data).Some? ==> ChunkSize(data).value > 0
    ensures DecodeChunks(data, end, cap, got).Err?
  {
    hide ChunkSize, DecodeSized;
    if end.Eof? && ChunkSize(data).Some? {
      NothingLeft(ChunkSize(data).value, end, cap, got);
    }
  }

  // ---------------------------------------------------------------- a chunk cut short

  /** A chunk whose size line arrived whole. */
  lemma DataCut(chunk: bytes, more: bytes, m: nat, end: End, cap: nat, got: nat)
    requires 0 < |chunk| && m <= |chunk| + 2 + |more| && SaturatingAdd(got, |chunk|, USIZE_MAX) <= cap
    ensures
      var r := DecodeSized((chunk + CRLF + more)[..m], |chunk|, end, cap, got);
      if m < |chunk| + 2 then r.Err?
      else r == Joined(chunk, DecodeChunks(more[..m - |chunk| - 2], end, cap, got + |chunk|))
  {
    hide DecodeChunks;
    var data := (chunk + CRLF + more)[..m];
    if m >= |chunk| + 2 {
      var left := more[..m - |chunk| - 2];
      assert data == chunk + (CRLF + left);
      assert data[..|chunk|] == chunk && data[|chunk|..] == CRLF + left;
      assert (CRLF + left)[2..] == left;
    }
  }

  /** A chunk and what follows it, cut somewhere. */
  lemma ChunkCut(chunk: bytes, more: bytes, n: nat, end: End, cap: nat, got: nat)
    requires 0 < |chunk| <= USIZE_MAX && SaturatingAdd(got, |chunk|, USIZE_MAX) <= cap
    requires n <= |EncodeChunk(chunk)| + |more|
    ensures
      var r := DecodeChunks((EncodeChunk(chunk) + more)[..n], end, cap, got);
      var whole := |EncodeChunk(chunk)|;
      if n < whole then r.Err? else r == Joined(chunk, DecodeChunks(more[..n - whole], end, cap, got + |chunk|))
  {
    hide Format, ReadLine, ChunkSize, DecodeChunks, DecodeSized, Joined;
    var digits := Format(|chunk|, 16);
    var all := EncodeChunk(chunk) + more;
    assert all == digits + [CR] + [LF] + (chunk + CRLF + more);
    SizeLine(|chunk|);
    if n <= |digits| {
      assert all[..n] == digits[..n];
      SizeCut(|chunk|, n);
      LineCut(all[..n], end, cap, got);
    } else if n == |digits| + 1 {
      assert all[..n] == digits + [CR];
      LineCut(all[..n], end, cap, got);
    } else {
      var m := n - |digits| - 2;
      assert all[..n] == digits + [CR] + [LF] + (chunk + CRLF + more)[..m];
      DecodeAfterLine(digits + [CR], |chunk|, (chunk + CRLF + more)[..m], end, cap, got);
      DataCut(chunk, more, m, end, cap, got);
    }
  }

  lemma LastCut(n: nat, end: End, cap: nat, got: nat)
    requires n < |LastChunk()|
    ensures
      var r := DecodeChunks(LastChunk()[..n], end, cap, got);
      if end.Eof? && n > 0 then r == Ok(([], [])) else r.Err?
  {
    hide ReadLine, ChunkSize, DecodeChunks;
    var zero: bytes := [48];
    var line: bytes := [48, 13];
    assert Format(0, 16) == zero;
    SizeLine(0);
    assert Format(0, 16) + [CR] == line;
    if n == 0 {
      assert LastChunk()[..0] == [];
      NothingSized();
      LineCut([], end, cap, got);
    } else if n <= 2 {
      assert LastChunk()[..n] == line[..n];
      assert line[..1] == zero && line[..2] == line;
      SizeIgnoresTrailing(zero, CR);
      ZeroLine(line[..n], end, cap, got);
    } else {
      var left := LastChunk()[3..n];
      assert LastChunk()[..n] == line + [LF] + left;
      DecodeAfterLine(line, 0, left, end, cap, got);
      Trailing(left, end, cap, got);
    }
  }

  lemma ZeroLine(data: bytes, end: End, cap: nat, got: nat)
    requires LF !in data && |data| <= 32 && ChunkSize(data) == Some(0)
    ensures
      var r := DecodeChunks(data, end, cap, got);
      if end.Eof? then r == Ok(([], [])) else r.Err?
  {
    hide ChunkSize;
  }

  lemma Trailing(data: bytes, end: End, cap: nat, got: nat)
    requires LF !in data && |data| <= 32
    ensures
      var r := DecodeSized(data, 0, end, cap, got);
      if end.Eof? then r == Ok(([], [])) else r.Err?
  {
  }

  // ---------------------------------------------------------------- a body cut short

  /** A body that is cut short is never taken for a shorter one: short of the final "0" it is
      refused, and from there on it is whole if the peer closed and refused if the read failed. */
  lemma {:induction false} CutBody(chunks: seq<bytes>, n: nat, end: End, cap: nat, got: nat)
    requires Sendable(chunks) && n < |Encode(chunks)|
    requires got + |Flatten(chunks)| <= cap || cap >= 0xffff_ffff_ffff_ffff
    ensures
      var r := DecodeChunks(Encode(chunks)[..n], end, cap, got);
      if end.Eof? && n + 4 >= |Encode(chunks)| then r == Ok((Flatten(chunks), [])) else r.Err?
    decreases |chunks|
  {
    hide DecodeChunks, EncodeChunk, LastChunk;
    LastSize();
    if chunks == [] {
      LastCut(n, end, cap, got);
    } else {
      var first, rest := chunks[0], chunks[1..];
      ChunkCut(first, Encode(rest), n, end, cap, got);
      EncodedSize(rest);
      if n >= |EncodeChunk(first)| {
        CutBody(rest, n - |EncodeChunk(first)|, end, cap, got + |first|);
      }
    }
  }

  lemma LastSize()
    ensures |LastChunk()| == 5
  {
  }

  lemma {:induction false} EncodedSize(chunks: seq<bytes>)
    ensures |Encode(chunks)| >= 5
  {
    if chunks != [] {
      EncodedSize(chunks[1..]);
    }
  }

  /** The same end to end: of a chunked response that is cut short in its body the client
      reports the whole body or an error. */
  lemma CutResponse(
    limits: HttpResponse.ResponseLimits, status: nat, reason: bytes, fields: seq<HttpRequest.Header>,
    chunks: seq<bytes>, n: nat, end: End)
    requires LF !in reason && status <= 0xffff
    requires forall i :: 0 <= i < |fields| ==> RequestRoundTrip.Clean(fields[i])
    requires AnyCoded(fields) && Sendable(chunks) && n < |Encode(chunks)|
    requires HeadFits(limits, status, reason, fields) && |Flatten(chunks)| <= limits.maxBodyBytes
    ensures
      var r := HttpResponse.ParseResponse(limits, HeadOf(status, reason, fields) + Encode(chunks)[..n], end);
      if end.Eof? && n + 4 >= |Encode(chunks)| then r == Ok((status, Flatten(chunks))) else r.Err?
  {
    hide HttpResponse.ParseResponse, HeadOf, Encode, AnyCoded, HeadFits, DecodeChunks, LastLength, Flatten;
    hide RequestRoundTrip.Clean;
    ResponseMeans(limits, status, reason, fields, Encode(chunks)[..n], end);
    CutBody(chunks, n, end, limits.maxBodyBytes, 0);
  }
}
