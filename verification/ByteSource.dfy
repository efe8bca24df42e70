/** A byte stream that arrives in pieces, and the bounded reads made on it. */
module ByteSource {
  import opened Bytes
  import opened Wrappers

  datatype HttpError =
    | Timeout
    | Closed
    | Malformed
    | RequestLineTooLong
    | StatusLineTooLong
    | HeaderLineTooLong
    | TooManyHeaders
    | HeadersTooLarge
    | BodyTooLarge
    | InvalidContentLength
    | UnsupportedTransferEncoding
    | Io

  /** How a stream ends once its bytes are used up: the peer closed it, or the next
      read fails (an I/O error, or the deadline passing while the peer is silent). */
  datatype End = Eof | Fault(error: HttpError)

  // ---------------------------------------------------------------- whole-stream reads

  /** The next line of `data`, its line feed included, and what follows it. */
  function ReadLine(data: bytes, end: End, max: nat, tooLong: HttpError): Result<(bytes, bytes), HttpError> {
    var i := IndexOf(data, LF);
    if i < |data| then
      if i + 1 > max then Err(tooLong) else Ok((data[..i + 1], data[i + 1..]))
    else if |data| > max then Err(tooLong)
    else if end.Fault? then Err(end.error)
    else Ok((data, []))
  }

  function ReadExact(data: bytes, end: End, n: nat): Result<(bytes, bytes), HttpError> {
    if n <= |data| then Ok((data[..n], data[n..]))
    else if end.Fault? then Err(end.error)
    else Err(Io)
  }

  lemma ReadLineSplits(data: bytes, end: End, max: nat, tooLong: HttpError)
    ensures
      var r := ReadLine(data, end, max, tooLong);
      r.Ok? ==>
        && data == r.value.0 + r.value.1
        && |r.value.0| <= max
        && (r.value.0 == [] ==> data == [])
        && (r.value.1 != [] ==> r.value.0 != [] && r.value.0[|r.value.0| - 1] == LF)
  {
  }

  lemma ReadWholeLine(line: bytes, rest: bytes, end: End, max: nat, tooLong: HttpError)
    requires LF !in line
    ensures ReadLine(line + [LF] + rest, end, max, tooLong)
         == if |line| + 1 > max then Err(tooLong) else Ok((line + [LF], rest))
  {
    var data := line + [LF] + rest;
    assert data[..|line|] == line;
    IndexOfIs(data, LF, |line|);
    assert data[..|line| + 1] == line + [LF] && data[|line| + 1..] == rest;
  }

  // ---------------------------------------------------------------- the source

  class Source {
    var pieces: seq<bytes>
    const end: End

    constructor (pieces: seq<bytes>, end: End)
      requires forall i :: 0 <= i < |pieces| ==> pieces[i] != []
      ensures this.pieces == pieces && this.end == end && Valid()
    {
      this.pieces := pieces;
      this.end := end;
    }

    /** An empty piece would read as the end of the stream, so there is none. */
    ghost predicate Valid()
      reads this
    {
      forall i :: 0 <= i < |pieces| ==> pieces[i] != []
    }

    ghost function Data(): bytes
      reads this
    {
      Flatten(pieces)
    }

    method FillBuf() returns (r: Result<bytes, HttpError>)
      requires Valid()
      ensures r == if pieces != [] then Ok(pieces[0]) else if end.Fault? then Err(end.error) else Ok([])
    {
      if pieces != [] {
        r := Ok(pieces[0]);
      } else if end.Fault? {
        r := Err(end.error);
      } else {
        r := Ok([]);
      }
    }

    method Consume(n: nat)
      requires Valid() && pieces != [] && n <= |pieces[0]|
      modifies this
      ensures Valid()
      ensures Data() == old(Data())[n..]
      ensures n == |old(pieces)[0]| ==> pieces == old(pieces)[1..]
    {
      assert Data() == pieces[0] + Flatten(pieces[1..]);
      if n == |pieces[0]| {
        pieces := pieces[1..];
      } else {
        pieces := [pieces[0][n..]] + pieces[1..];
        assert pieces[1..] == old(pieces)[1..];
      }
    }

    /** One `read` into a buffer of `room` bytes; nothing is read at the end of the stream. */
    method Read(room: nat) returns (r: Result<bytes, HttpError>)
      requires Valid() && room > 0
      modifies this
      ensures Valid()
      ensures r == NextRead(old(pieces), end, room)
      ensures pieces == (if r.Ok? then AfterRead(old(pieces), room) else old(pieces))
      ensures r.Ok? ==> old(Data()) == r.value + Data()
    {
      if pieces == [] {
        r := if end.Fault? then Err(end.error) else Ok([]);
      } else {
        ReadSplits(pieces, end, room);
        var n := if room < |pieces[0]| then room else |pieces[0]|;
        assert pieces[0][..|pieces[0]|] == pieces[0];
        r := Ok(pieces[0][..n]);
        pieces := if n == |pieces[0]| then pieces[1..] else [pieces[0][n..]] + pieces[1..];
      }
    }

    /** Read one line, appending nothing past `max` bytes, whatever the pieces are. */
    method ReadLineBounded(max: nat, tooLong: HttpError) returns (r: Result<nat, HttpError>, line: bytes)
      requires Valid()
      modifies this
      ensures Valid()
      ensures |line| <= max
      ensures
        match ReadLine(old(Data()), end, max, tooLong)
        case Ok((whole, rest)) => r == Ok(|whole|) && line == whole && Data() == rest
        case Err(e) => r == Err(e)
    {
      hide ReadLine;
      line := [];
      ghost var all := Data();
      while true
        invariant Valid() && LF !in line && |line| <= max
        invariant all == line + Data()
        decreases |pieces|
      {
        var available := FillBuf();
        if available.Err? {
          AtEnd(line, end, max, tooLong);
          return Err(available.error), line;
        }
        if available.value == [] {
          AtEnd(line, end, max, tooLong);
          return Ok(|line|), line;
        }
        var piece := available.value;
        ghost var more := Flatten(pieces[1..]);
        assert Data() == piece + more;
        var i := IndexOf(piece, LF);
        if i < |piece| {
          NewlineInPiece(line, piece, more, end, max, tooLong);
          if |line| + (i + 1) > max {
            return Err(tooLong), line;
          }
          line := line + piece[..i + 1];
          Consume(i + 1);
          return Ok(|line|), line;
        }
        if |line| + |piece| > max {
          PieceTooLong(line, piece, more, end, max, tooLong);
          return Err(tooLong), line;
        }
        PieceTaken(line, piece, more);
        line := line + piece;
        Consume(|piece|);
      }
    }

    method ReadExactly(n: nat) returns (r: Result<bytes, HttpError>)
      requires Valid()
      modifies this
      ensures Valid()
      ensures
        match ReadExact(old(Data()), end, n)
        case Ok((taken, rest)) => r == Ok(taken) && Data() == rest
        case Err(e) => r == Err(e)
    {
      var buf: bytes := [];
      ghost var all := Data();
      while |buf| < n
        invariant Valid() && |buf| <= n
        invariant all == buf + Data()
        decreases n - |buf|
      {
        var available := FillBuf();
        if available.Err? {
          return Err(available.error);
        }
        if available.value == [] {
          return Err(Io);
        }
        var piece := available.value;
        var take := if n - |buf| < |piece| then n - |buf| else |piece|;
        TakePiece(all, buf, piece, Flatten(pieces[1..]), take);
        buf := buf + piece[..take];
        Consume(take);
      }
      assert all[..n] == buf && all[n..] == Data();
      return Ok(buf);
    }
  }

  lemma PieceTaken(line: bytes, piece: bytes, more: bytes)
    ensures line + (piece + more) == (line + piece) + more && (piece + more)[|piece|..] == more
    ensures LF !in line && IndexOf(piece, LF) == |piece| ==> LF !in line + piece
  {
  }

  lemma TakePiece(all: bytes, buf: bytes, piece: bytes, more: bytes, take: nat)
    requires all == buf + (piece + more) && take <= |piece|
    ensures all == (buf + piece[..take]) + (piece + more)[take..]
  {
    assert piece + more == piece[..take] + (piece + more)[take..];
  }

  lemma AtEnd(line: bytes, end: End, max: nat, tooLong: HttpError)
    requires LF !in line && |line| <= max
    ensures ReadLine(line + [], end, max, tooLong) == if end.Fault? then Err(end.error) else Ok((line, []))
  {
    assert line + [] == line;
  }

  lemma NewlineInPiece(line: bytes, piece: bytes, more: bytes, end: End, max: nat, tooLong: HttpError)
    requires LF !in line && LF in piece
    ensures
      var i := IndexOf(piece, LF);
      ReadLine(line + (piece + more), end, max, tooLong)
      == if |line| + (i + 1) > max then Err(tooLong)
         else Ok((line + piece[..i + 1], (piece + more)[i + 1..]))
  {
    var i := IndexOf(piece, LF);
    var a, b := piece[..i], piece[i + 1..];
    assert LF !in line + a;
    hide ReadLine, IndexOf;
    AroundIndex(piece, more, i);
    Cut(line, a, b, more);
    ReadWholeLine(line + a, b + more, end, max, tooLong);
  }

  lemma AroundIndex(piece: bytes, more: bytes, i: nat)
    requires i < |piece|
    ensures piece == piece[..i] + [piece[i]] + piece[i + 1..]
    ensures piece[..i + 1] == piece[..i] + [piece[i]]
    ensures (piece + more)[i + 1..] == piece[i + 1..] + more
  {
  }

  lemma Cut(line: bytes, a: bytes, b: bytes, more: bytes)
    ensures line + ((a + [LF] + b) + more) == (line + a) + [LF] + (b + more)
    ensures (line + a) + [LF] == line + (a + [LF])
  {
  }

  lemma PieceTooLong(line: bytes, piece: bytes, more: bytes, end: End, max: nat, tooLong: HttpError)
    requires LF !in line && LF !in piece && |line| + |piece| > max
    ensures ReadLine(line + (piece + more), end, max, tooLong) == Err(tooLong)
  {
    var all := line + (piece + more);
    assert forall j :: 0 <= j < |line| + |piece| ==> all[j] == (line + piece)[j];
  }

  // ---------------------------------------------------------------- single reads

  function NextRead(pieces: seq<bytes>, end: End, room: nat): Result<bytes, HttpError>
    requires room > 0
  {
    if pieces == [] then (if end.Fault? then Err(end.error) else Ok([]))
    else if room < |pieces[0]| then Ok(pieces[0][..room])
    else Ok(pieces[0])
  }

  function AfterRead(pieces: seq<bytes>, room: nat): seq<bytes>
    requires room > 0
  {
    if pieces == [] then []
    else if room < |pieces[0]| then [pieces[0][room..]] + pieces[1..]
    else pieces[1..]
  }

  lemma ReadSplits(pieces: seq<bytes>, end: End, room: nat)
    requires room > 0 && pieces != [] && forall i :: 0 <= i < |pieces| ==> pieces[i] != []
    ensures NextRead(pieces, end, room).Ok? && NextRead(pieces, end, room).value != []
    ensures Flatten(pieces) == NextRead(pieces, end, room).value + Flatten(AfterRead(pieces, room))
    ensures forall i :: 0 <= i < |AfterRead(pieces, room)| ==> AfterRead(pieces, room)[i] != []
  {
    if room < |pieces[0]| {
      PieceSplits(pieces, room);
    }
  }

  lemma PieceSplits(pieces: seq<bytes>, room: nat)
    requires pieces != [] && room < |pieces[0]|
    ensures Flatten(pieces) == pieces[0][..room] + Flatten([pieces[0][room..]] + pieces[1..])
  {
    var front, back, more := pieces[0][..room], pieces[0][room..], pieces[1..];
    CutInTwo(pieces[0], room);
    FlattenCons(back, more);
    assert (front + back) + Flatten(more) == front + (back + Flatten(more));
  }

  lemma CutInTwo(piece: bytes, n: nat)
    requires n <= |piece|
    ensures piece == piece[..n] + piece[n..]
  {
  }

  lemma FlattenCons(piece: bytes, pieces: seq<bytes>)
    ensures Flatten([piece] + pieces) == piece + Flatten(pieces)
  {
    assert ([piece] + pieces)[1..] == pieces;
  }
}
