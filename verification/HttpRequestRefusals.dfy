/** Which requests are refused, and with which error. */
module HttpRequestRefusals {
  import opened ByteLaws
  import opened ByteSource
  import opened Bytes
  import opened HttpRequest
  import opened HttpRequestLayout
  import opened Wrappers

  lemma FirstLineRead(limits: HttpLimits, first: bytes, more: bytes, end: End)
    requires IsLine(first)
    ensures |first| > limits.maxRequestLineBytes ==>
      ParseRequest(limits, first + more, end) == Err(RequestLineTooLong)
    ensures |first| <= limits.maxRequestLineBytes && |Words(first)| < 2 ==>
      ParseRequest(limits, first + more, end) == Err(Malformed)
    ensures |first| <= limits.maxRequestLineBytes && |Words(first)| >= 2 ==>
      ReadLine(first + more, end, limits.maxRequestLineBytes, RequestLineTooLong) == Ok((first, more))
  {
    hide Words, ReadHeaders, ReadLine;
    LineOrRefusal(first, more, end, limits.maxRequestLineBytes, RequestLineTooLong);
  }

  lemma LineOrRefusal(line: bytes, rest: bytes, end: End, max: nat, tooLong: HttpError)
    requires IsLine(line)
    ensures ReadLine(line + rest, end, max, tooLong) == if |line| <= max then Ok((line, rest)) else Err(tooLong)
  {
    assert line == line[..|line| - 1] + [LF];
    ReadWholeLine(line[..|line| - 1], rest, end, max, tooLong);
  }

  /** Good lines lead the header loop to the state they fold to. */
  lemma {:induction false} ReadsOn(limits: HttpLimits, h: HeaderState, lines: seq<bytes>, more: bytes, end: End)
    requires FoldHeaders(limits, h, lines).Some?
    ensures ReadHeaders(limits, h, Flatten(lines) + more, end)
         == ReadHeaders(limits, FoldHeaders(limits, h, lines).value, more, end)
    decreases |lines|
  {
    hide HeaderLine, ReadLine, Flatten, IsLine;
    if lines == [] {
      NoFields();
      assert [] + more == more;
    } else {
      var line, rest := lines[0], lines[1..];
      assert lines == [line] + rest;
      FlattenCons(line, rest);
      assert Flatten(lines) + more == line + (Flatten(rest) + more);
      NotEmpty(line);
      LineOrRefusal(line, Flatten(rest) + more, end, limits.maxHeaderLineBytes, HeaderLineTooLong);
      ReadsOn(limits, HeaderLine(limits, h, line).state, rest, more, end);
    }
  }

  lemma NotEmpty(line: bytes)
    requires IsLine(line)
    ensures line != []
  {
  }

  /** A request line and header lines the reader goes along with. */
  ghost predicate Started(limits: HttpLimits, first: bytes, lines: seq<bytes>) {
    && IsLine(first) && |first| <= limits.maxRequestLineBytes && |Words(first)| >= 2
    && (forall i :: 0 <= i < |lines| ==> GoodLine(limits, lines[i]))
    && Allowed(FieldsOf(lines)) && |FieldsOf(lines)| < limits.maxHeaderCount
    && |Flatten(lines)| <= limits.maxHeaderBytes
  }

  lemma StartedReads(limits: HttpLimits, first: bytes, lines: seq<bytes>, more: bytes, end: End)
    requires Started(limits, first, lines)
    ensures
      var h := FoldHeaders(limits, NO_HEADERS, lines);
      && h.Some? && Consistent(h.value) && h.value.headers == FieldsOf(lines) && h.value.total == |Flatten(lines)|
      && ReadLine(first + (Flatten(lines) + more), end, limits.maxRequestLineBytes, RequestLineTooLong)
         == Ok((first, Flatten(lines) + more))
      && ReadHeaders(limits, NO_HEADERS, Flatten(lines) + more, end) == ReadHeaders(limits, h.value, more, end)
  {
    hide FoldHeaders, ReadHeaders, ReadLine, Flatten, FieldsOf, Allowed, Words, Consistent, IsLine, GoodLine;
    NothingConsistent();
    FoldMeans(limits, NO_HEADERS, lines);
    assert NO_HEADERS.headers + FieldsOf(lines) == FieldsOf(lines);
    FirstLineRead(limits, first, Flatten(lines) + more, end);
    ReadsOn(limits, NO_HEADERS, lines, more, end);
  }

  lemma HeadersFail(limits: HttpLimits, data: bytes, end: End, first: bytes, more: bytes, e: HttpError)
    requires ReadLine(data, end, limits.maxRequestLineBytes, RequestLineTooLong) == Ok((first, more))
    requires first != [] && |Words(first)| >= 2 && ReadHeaders(limits, NO_HEADERS, more, end) == Err(e)
    ensures ParseRequest(limits, data, end) == Err(e)
  {
    hide ReadHeaders, ReadLine, Words;
  }

  lemma OneStep(limits: HttpLimits, h: HeaderState, line: bytes, rest: bytes, end: End)
    requires IsLine(line) && |h.headers| < limits.maxHeaderCount
    ensures
      var effect := HeaderLine(limits, h, line);
      ReadHeaders(limits, h, line + rest, end)
      == if |line| > limits.maxHeaderLineBytes then Err(HeaderLineTooLong)
         else if effect.Blank? then Ok((h, rest))
         else if effect.Bad? then Err(effect.error)
         else ReadHeaders(limits, effect.state, rest, end)
  {
    hide HeaderLine, ReadLine;
    NotEmpty(line);
    LineOrRefusal(line, rest, end, limits.maxHeaderLineBytes, HeaderLineTooLong);
  }

  /** What stops the reader at the next line that is not blank: its own size, the size of the
      section, a field of a refused kind, or one header too many; each with its own error. */
  lemma NextLineRefused(
    limits: HttpLimits, first: bytes, lines: seq<bytes>, bad: bytes, rest: bytes, end: End, e: HttpError)
    requires Started(limits, first, lines) && IsLine(bad) && TrimEol(bad) != []
    requires
      var fields, field := FieldsOf(lines), FieldOf(bad);
      if |bad| > limits.maxHeaderLineBytes then e == HeaderLineTooLong
      else if |Flatten(lines)| + |bad| > limits.maxHeaderBytes then e == HeadersTooLarge
      else if field != [] && IsCoding(field[0]) then e == UnsupportedTransferEncoding
      else if field != [] && IsLength(field[0]) && !Allowed(fields + field) then e == InvalidContentLength
      else |fields| + |field| == limits.maxHeaderCount && e == TooManyHeaders
    ensures ParseRequest(limits, first + Flatten(lines) + bad + rest, end) == Err(e)
  {
    hide FoldHeaders, ReadHeaders, ReadLine, Flatten, FieldsOf, FieldOf, Allowed, Words, Consistent, HeaderLine, IsLine;
    hide IsCoding, IsLength, TrimEol;
    var data := first + (Flatten(lines) + (bad + rest));
    assert first + Flatten(lines) + bad + rest == data;
    StartedReads(limits, first, lines, bad + rest, end);
    var h := FoldHeaders(limits, NO_HEADERS, lines).value;
    OneStep(limits, h, bad, rest, end);
    LineDecides(limits, h, bad);
    OneFieldAtMost(bad);
    CodingRefused(h.headers, FieldOf(bad));
    NotEmpty(first);
    if HeaderLine(limits, h, bad).More? {
      CountReached(limits, HeaderLine(limits, h, bad).state, rest, end);
    }
    HeadersFail(limits, data, end, first, Flatten(lines) + (bad + rest), e);
  }

  lemma OneFieldAtMost(line: bytes)
    ensures |FieldOf(line)| <= 1
  {
  }

  lemma CountReached(limits: HttpLimits, h: HeaderState, data: bytes, end: End)
    ensures |h.headers| >= limits.maxHeaderCount ==> ReadHeaders(limits, h, data, end) == Err(TooManyHeaders)
  {
  }

  lemma CodingRefused(fields: seq<Header>, field: seq<Header>)
    requires Allowed(fields) && |field| <= 1
    ensures field != [] && IsCoding(field[0]) ==> !Allowed(fields + field) && !IsLength(field[0])
    ensures (field != [] ==> !IsCoding(field[0]) && !IsLength(field[0])) ==> Allowed(fields + field)
  {
    hide Allowed, WritesLength;
    if field == [] {
      assert fields + field == fields;
    } else {
      AllowedSnoc(fields, field[0]);
      assert field == [field[0]];
      Names();
    }
  }

  /** A stream that stops before the blank line: the peer closed, or the read failed. */
  lemma SectionCutShort(limits: HttpLimits, first: bytes, lines: seq<bytes>, end: End)
    requires Started(limits, first, lines)
    ensures ParseRequest(limits, first + Flatten(lines), end) == Err(if end.Fault? then end.error else Closed)
  {
    hide FoldHeaders, ReadLine, Flatten, FieldsOf, Allowed, Words, Consistent, HeaderLine, IsLine;
    var none: bytes := [];
    assert first + Flatten(lines) == first + (Flatten(lines) + none);
    StartedReads(limits, first, lines, none, end);
    NotEmpty(first);
    var h := FoldHeaders(limits, NO_HEADERS, lines).value;
    NothingToRead(limits, h, end);
    HeadersFail(limits, first + (Flatten(lines) + none), end, first, Flatten(lines) + none,
      if end.Fault? then end.error else Closed);
  }

  lemma NothingToRead(limits: HttpLimits, h: HeaderState, end: End)
    requires |h.headers| < limits.maxHeaderCount
    ensures ReadHeaders(limits, h, [], end) == Err(if end.Fault? then end.error else Closed)
  {
  }

  /** A declared body over the limit is refused unread; one cut short fails the read. */
  lemma BodyRefused(
    limits: HttpLimits, first: bytes, lines: seq<bytes>, blank: bytes, content: bytes, end: End, n: nat)
    requires Started(limits, first, lines) && Declares(FieldsOf(lines), n) && |content| < n
    requires IsLine(blank) && TrimEol(blank) == [] && |blank| <= limits.maxHeaderLineBytes
    requires |Flatten(lines)| + |blank| <= limits.maxHeaderBytes
    ensures ParseRequest(limits, first + Flatten(lines) + blank + content, end)
         == Err(if n > limits.maxBodyBytes then BodyTooLarge else if end.Fault? then end.error else Io)
  {
    hide FoldHeaders, ReadHeaders, ReadLine, Flatten, FieldsOf, Allowed, Words, Consistent, HeaderLine, IsLine, TrimEol;
    hide Declares;
    var data := first + (Flatten(lines) + (blank + content));
    assert first + Flatten(lines) + blank + content == data;
    StartedReads(limits, first, lines, blank + content, end);
    var h := FoldHeaders(limits, NO_HEADERS, lines).value;
    OneStep(limits, h, blank, content, end);
    BlankEnds(limits, h, blank);
    DeclaresOnce(h, n);
    NotEmpty(first);
  }

  lemma BlankEnds(limits: HttpLimits, h: HeaderState, blank: bytes)
    requires TrimEol(blank) == [] && h.total + |blank| <= limits.maxHeaderBytes
    ensures HeaderLine(limits, h, blank) == Blank
  {
  }
}
