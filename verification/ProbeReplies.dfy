/** What the buffering client makes of a whole reply, field by field: which body it takes, and
    what becomes of a reply without a status. */
module ProbeReplies {
  import opened ByteLaws
  import opened ByteSource
  import opened Bytes
  import opened GrowingBuffer
  import HttpRequest
  import HttpRequestLayout
  import HttpResponse
  import opened ProbeResponse
  import opened RequestRoundTrip
  import opened ResponseRoundTrip
  import ResponseFraming
  import opened ResponseTexts
  import opened ScratchDecoder
  import opened Wrappers

  // ---------------------------------------------------------------- the status

  /** The line's second word writes a status. */
  predicate WritesStatus(line: bytes, status: nat) {
    |Words(line)| >= 2 && Writes(Words(line)[1], 10, status) && status <= 0xffff
  }

  lemma ParseStatusIff(line: bytes, status: nat)
    ensures ParseStatus(line) == Some(status) <==> WritesStatus(line, status)
  {
    hide Words, Writes, ParseUnsigned;
    if |Words(line)| >= 2 {
      ParseUnsignedIff(Words(line)[1], 10, 0xffff, status);
    }
  }

  /** The bounded client takes the status that is written, and 0 for none. */
  lemma StatusOfIs(line: bytes, status: nat)
    ensures WritesStatus(line, status) ==> HttpResponse.StatusOf(line) == status
    ensures (forall n: nat :: !WritesStatus(line, n)) ==> HttpResponse.StatusOf(line) == 0
  {
    hide WritesStatus, ParseStatus;
    ParseStatusIff(line, status);
    if ParseStatus(line).Some? {
      ParseStatusIff(line, ParseStatus(line).value);
    }
  }

  /** The buffering client refuses a reply whose first line holds none. */
  lemma NoStatusRefused(pieces: seq<bytes>, end: End, cap: nat, n: nat)
    requires NonEmpty(pieces) && HeadEnd(Flatten(pieces)) == Some(n)
    requires forall status: nat :: !WritesStatus(Flatten(pieces)[..n], status)
    ensures Receive(pieces, end, cap) in {Err(Invalid), Err(ResponseTooLarge)}
  {
    hide WritesStatus, ParseStatus, Receive, Flatten, HeadEnd;
    var head := Flatten(pieces)[..n];
    if ParseStatus(head).Some? {
      ParseStatusIff(head, ParseStatus(head).value);
    }
    ReplyOrRefusal(pieces, end, cap);
  }

  // ---------------------------------------------------------------- the body

  function First(status: nat, reason: bytes): bytes {
    Ascii("HTTP/1.1 ") + Format(status, 10) + Ascii(" ") + reason
  }

  /** A status line and field lines, each ended, and a blank line. */
  function HeadLinesOf(status: nat, reason: bytes, lines: seq<bytes>): bytes {
    Terminated([First(status, reason)] + lines) + Ascii("\r\n")
  }

  /** What a whole reply stands for when no line asks for the chunked coding: as many bytes as
      the first length says, or all of the stream, trimmed, within the cap. */
  lemma PlainReply(status: nat, reason: bytes, lines: seq<bytes>, content: bytes, end: End, cap: nat)
    requires LF !in reason && status <= 0xffff && RealLines(lines)
    requires forall i :: 0 <= i < |lines| ==> ToLower(lines[i]) != Ascii("transfer-encoding: chunked")
    ensures
      var length := FirstLength(lines);
      WholeReply(HeadLinesOf(status, reason, lines) + content, end, cap)
      == if length.Some? then
           if length.value > cap then Err(ResponseTooLarge)
           else if |content| < length.value then Err(if end.Fault? then Failed(end.error) else Invalid)
           else Ok((status, Trim(content[..length.value])))
         else
           if |content| > cap then Err(ResponseTooLarge)
           else if end.Fault? then Err(Failed(end.error))
           else Ok((status, Trim(content)))
  {
    HeadParts(status, reason, lines, content);
    NoneAsks(lines);
    FirstPlain(status, reason);
    LinesPlain(First(status, reason), lines);
    hide Ascii, Format, Terminated, TextLines, AnyChunked, FirstLength, HeadEnd, ParseStatus, Trim;
    hide HeadLinesOf, First, LineLength, ToLower;
    var head := HeadLinesOf(status, reason, lines);
    assert (head + content)[..|head|] == head && (head + content)[|head|..] == content;
  }

  lemma NoneAsks(lines: seq<bytes>)
    requires forall i :: 0 <= i < |lines| ==> ToLower(lines[i]) != Ascii("transfer-encoding: chunked")
    ensures forall i :: 0 <= i < |lines| ==> ToLower(lines[i]) != TRANSFER_CHUNKED
  {
    assert TRANSFER_CHUNKED == Ascii("transfer-encoding: chunked");
    hide Ascii, ToLower;
  }

  lemma FirstPlain(status: nat, reason: bytes)
    requires LF !in reason
    ensures LineLength(First(status, reason)).None? && ToLower(First(status, reason)) != TRANSFER_CHUNKED
  {
    FirstIs(status, reason);
    hide First;
    OtherStart(First(status, reason));
  }

  lemma FirstIs(status: nat, reason: bytes)
    requires LF !in reason
    ensures
      var first := First(status, reason);
      && first == VERSION + [SP] + Format(status, 10) + [SP] + reason
      && first[0] == 72 && LF !in first
  {
    ResponseFraming.VersionText();
    ResponseFraming.DigitsPlain(status);
    assert VERSION[0] == 72;
    hide Format, VERSION;
  }

  lemma HeadParts(status: nat, reason: bytes, lines: seq<bytes>, content: bytes)
    requires LF !in reason && status <= 0xffff && RealLines(lines)
    ensures
      var head := HeadLinesOf(status, reason, lines);
      && HeadEnd(head + content) == Some(|head|)
      && TextLines(head) == [First(status, reason)] + lines + [[]]
      && ParseStatus(head) == Some(status)
  {
    var first := First(status, reason);
    FirstIs(status, reason);
    ResponseFraming.VersionText();
    assert Ascii("\r\n") == CRLF;
    hide Format, HeadEnd, TextLines, Terminated, ParseStatus, Ascii, VERSION, First;
    AllReal(first, lines);
    HeadEndOfSection([first] + lines, content);
    TextLinesOfSection([first] + lines);
    StatusFirst(VERSION, status, reason, lines);
  }

  lemma OtherStart(line: bytes)
    requires line != [] && line[0] == 72
    ensures LineLength(line).None? && ToLower(line) != TRANSFER_CHUNKED
  {
    StatusNotChunked(line);
    var field := SplitOnce(line, COLON);
    if field.Some? {
      var name := field.value.0;
      assert HttpRequest.CONTENT_LENGTH[0] == 99;
      assert name != [] ==> ToLower(name)[0] == LowerByte(72);
    }
  }

  lemma LinesPlain(first: bytes, lines: seq<bytes>)
    requires LineLength(first).None? && ToLower(first) != TRANSFER_CHUNKED
    requires forall i :: 0 <= i < |lines| ==> ToLower(lines[i]) != TRANSFER_CHUNKED
    ensures
      var all := [first] + lines + [[]];
      !AnyChunked(all) && FirstLength(all) == FirstLength(lines)
  {
    hide *;
    NotChunked(first, lines);
    assert [first] + lines + [[]] == [first] + (lines + [[]]);
    FirstDeclared(first, lines + [[]]);
    NothingAfter(lines);
  }

  lemma NotChunked(first: bytes, lines: seq<bytes>)
    requires ToLower(first) != TRANSFER_CHUNKED
    requires forall i :: 0 <= i < |lines| ==> ToLower(lines[i]) != TRANSFER_CHUNKED
    ensures !AnyChunked([first] + lines + [[]])
  {
    assert |TRANSFER_CHUNKED| == 26;
    assert |ToLower([])| == 0;
    hide ToLower, Ascii, TRANSFER_CHUNKED;
  }

  lemma {:induction false} NothingAfter(lines: seq<bytes>)
    ensures FirstLength(lines + [[]]) == FirstLength(lines)
  {
    if lines == [] {
      assert LineLength([]).None?;
    } else {
      hide LineLength;
      assert (lines + [[]])[1..] == lines[1..] + [[]];
      NothingAfter(lines[1..]);
    }
  }
}
