/** Which byte strings are requests: the line-by-line layout the reader accepts. */
module HttpRequestLayout {
  import opened ByteLaws
  import opened ByteSource
  import opened Bytes
  import opened HttpRequest
  import opened Wrappers

  /** A line: no line feed but the one that ends it. */
  predicate IsLine(line: bytes) {
    line != [] && line[|line| - 1] == LF && LF !in line[..|line| - 1]
  }

  /** The header state after a list of non-blank lines, if all are acceptable. */
  function FoldHeaders(limits: HttpLimits, h: HeaderState, lines: seq<bytes>): Option<HeaderState>
    decreases |lines|
  {
    if lines == [] then Some(h)
    else if |h.headers| >= limits.maxHeaderCount then None
    else if !IsLine(lines[0]) || |lines[0]| > limits.maxHeaderLineBytes then None
    else
      match HeaderLine(limits, h, lines[0])
      case More(next) => FoldHeaders(limits, next, lines[1..])
      case _ => None
  }

  /** `blank` closes the header section: nothing but line-end bytes, ended by a line
      feed or by the peer closing right after it. */
  predicate EndsHeaders(limits: HttpLimits, h: HeaderState, blank: bytes, rest: bytes, end: End) {
    && |h.headers| < limits.maxHeaderCount
    && blank != [] && TrimEol(blank) == []
    && |blank| <= limits.maxHeaderLineBytes && h.total + |blank| <= limits.maxHeaderBytes
    && (IsLine(blank) || (LF !in blank && rest == [] && end.Eof?))
  }

  ghost predicate HeaderLayout(
    limits: HttpLimits, h: HeaderState, data: bytes, end: End, after: HeaderState, rest: bytes,
    lines: seq<bytes>, blank: bytes)
  {
    && data == Flatten(lines) + blank + rest
    && FoldHeaders(limits, h, lines) == Some(after)
    && EndsHeaders(limits, after, blank, rest, end)
  }

  /** A request as the reader takes it apart: request line, header lines folded one by one,
      a blank line and the body. */
  ghost predicate FoldedLayout(
    limits: HttpLimits, data: bytes, end: End, request: Request, rest: bytes,
    first: bytes, lines: seq<bytes>, blank: bytes)
  {
    && data == first + Flatten(lines) + blank + (if request.body.Some? then request.body.value else []) + rest
    && IsLine(first) && |first| <= limits.maxRequestLineBytes
    && |Words(first)| >= 2 && request.verb == Words(first)[0] && request.path == Words(first)[1]
    && (var h := FoldHeaders(limits, NO_HEADERS, lines);
        && h.Some?
        && request.headers == h.value.headers
        && request.contentLength == DeclaredLength(h.value)
        && EndsHeaders(limits, h.value, blank, (if request.body.Some? then request.body.value else []) + rest, end))
    && (request.body.None? <==> request.contentLength == 0)
    && (request.body.Some? ==> |request.body.value| == request.contentLength <= limits.maxBodyBytes)
  }

  lemma ReadOneLine(line: bytes, rest: bytes, end: End, max: nat, tooLong: HttpError)
    requires IsLine(line) && |line| <= max
    ensures ReadLine(line + rest, end, max, tooLong) == Ok((line, rest))
  {
    assert line == line[..|line| - 1] + [LF];
    ReadWholeLine(line[..|line| - 1], rest, end, max, tooLong);
  }

  lemma ReadIsLine(data: bytes, end: End, max: nat, tooLong: HttpError)
    requires ReadLine(data, end, max, tooLong).Ok?
    ensures
      var (line, rest) := ReadLine(data, end, max, tooLong).value;
      && data == line + rest && |line| <= max
      && (IsLine(line) || (LF !in line && rest == [] && end.Eof?))
  {
    var i := IndexOf(data, LF);
    if i < |data| {
      assert data[..i + 1][..i] == data[..i];
    }
  }

  // ---------------------------------------------------------------- layout from parse

  lemma {:induction false} HeadersHaveLayout(limits: HttpLimits, h: HeaderState, data: bytes, end: End)
    returns (lines: seq<bytes>, blank: bytes)
    requires ReadHeaders(limits, h, data, end).Ok?
    ensures
      var (after, rest) := ReadHeaders(limits, h, data, end).value;
      HeaderLayout(limits, h, data, end, after, rest, lines, blank)
    decreases |data|
  {
    hide HeaderLine, TrimEol, ReadLine, FoldHeaders, HeaderLayout;
    var (line, rest) := ReadLine(data, end, limits.maxHeaderLineBytes, HeaderLineTooLong).value;
    ReadIsLine(data, end, limits.maxHeaderLineBytes, HeaderLineTooLong);
    match HeaderLine(limits, h, line)
    case Blank =>
      lines, blank := [], line;
      BlankLayout(limits, h, line, rest, end);
    case More(next) =>
      EndedLine(limits, next, line, rest, end);
      lines, blank := HeadersHaveLayout(limits, next, rest, end);
      var (after, tail) := ReadHeaders(limits, next, rest, end).value;
      PrependLine(limits, h, line, next, rest, end, after, tail, lines, blank);
      lines := [line] + lines;
  }

  lemma BlankLayout(limits: HttpLimits, h: HeaderState, blank: bytes, rest: bytes, end: End)
    requires |h.headers| < limits.maxHeaderCount && blank != [] && |blank| <= limits.maxHeaderLineBytes
    requires HeaderLine(limits, h, blank).Blank?
    requires IsLine(blank) || (LF !in blank && rest == [] && end.Eof?)
    ensures HeaderLayout(limits, h, blank + rest, end, h, rest, [], blank)
  {
    BlankMeans(limits, h, blank);
    assert Flatten([]) + blank == blank;
  }

  lemma PrependLine(
    limits: HttpLimits, h: HeaderState, line: bytes, next: HeaderState, data: bytes, end: End,
    after: HeaderState, rest: bytes, lines: seq<bytes>, blank: bytes)
    requires |h.headers| < limits.maxHeaderCount && IsLine(line) && |line| <= limits.maxHeaderLineBytes
    requires HeaderLine(limits, h, line) == More(next)
    requires HeaderLayout(limits, next, data, end, after, rest, lines, blank)
    ensures HeaderLayout(limits, h, line + data, end, after, rest, [line] + lines, blank)
  {
    hide HeaderLine, EndsHeaders;
    var all := [line] + lines;
    assert all[0] == line && all[1..] == lines;
    assert Flatten(all) == line + Flatten(lines);
    assert line + (Flatten(lines) + blank + rest) == (line + Flatten(lines)) + blank + rest;
  }

  lemma BlankMeans(limits: HttpLimits, h: HeaderState, line: bytes)
    ensures HeaderLine(limits, h, line).Blank? <==> h.total + |line| <= limits.maxHeaderBytes && TrimEol(line) == []
  {
    hide AddHeader, SplitOnce, TrimEol;
  }

  /** A header line the stream ends in the middle of is followed by no terminator. */
  lemma EndedLine(limits: HttpLimits, h: HeaderState, line: bytes, rest: bytes, end: End)
    requires IsLine(line) || (LF !in line && rest == [] && end.Eof?)
    requires ReadHeaders(limits, h, rest, end).Ok?
    ensures IsLine(line)
  {
  }

  lemma BodySplits(limits: HttpLimits, length: nat, data: bytes, end: End)
    requires ReadBody(limits, length, data, end).Ok?
    ensures
      var (body, rest) := ReadBody(limits, length, data, end).value;
      && data == (if body.Some? then body.value else []) + rest
      && (body.None? <==> length == 0)
      && (body.Some? ==> |body.value| == length <= limits.maxBodyBytes)
  {
  }

  lemma ParseHasLayout(limits: HttpLimits, data: bytes, end: End)
    returns (first: bytes, lines: seq<bytes>, blank: bytes)
    requires ParseRequest(limits, data, end).Ok?
    ensures
      var (request, rest) := ParseRequest(limits, data, end).value;
      FoldedLayout(limits, data, end, request, rest, first, lines, blank)
  {
    hide HeaderLine, TrimEol, Words, FoldHeaders, EndsHeaders, ReadLine, ReadHeaders;
    var read := ReadLine(data, end, limits.maxRequestLineBytes, RequestLineTooLong);
    ReadIsLine(data, end, limits.maxRequestLineBytes, RequestLineTooLong);
    first := read.value.0;
    EndedLine(limits, NO_HEADERS, first, read.value.1, end);
    lines, blank := HeadersHaveLayout(limits, NO_HEADERS, read.value.1, end);
    var (after, tail) := ReadHeaders(limits, NO_HEADERS, read.value.1, end).value;
    var (request, rest) := ParseRequest(limits, data, end).value;
    var body := if request.body.Some? then request.body.value else [];
    BodySplits(limits, DeclaredLength(after), tail, end);
    assert first + (Flatten(lines) + blank + (body + rest)) == first + Flatten(lines) + blank + body + rest;
  }

  // ---------------------------------------------------------------- parse from layout

  lemma {:induction false} HeaderLayoutParses(
    limits: HttpLimits, h: HeaderState, data: bytes, end: End, after: HeaderState, rest: bytes,
    lines: seq<bytes>, blank: bytes)
    requires HeaderLayout(limits, h, data, end, after, rest, lines, blank)
    ensures ReadHeaders(limits, h, data, end) == Ok((after, rest))
    decreases |lines|
  {
    hide HeaderLine, TrimEol;
    if lines == [] {
      assert data == blank + rest;
      BlankMeans(limits, h, blank);
      if IsLine(blank) {
        ReadOneLine(blank, rest, end, limits.maxHeaderLineBytes, HeaderLineTooLong);
      } else {
        assert data == blank;
      }
    } else {
      var more := Flatten(lines[1..]) + blank + rest;
      assert data == lines[0] + more;
      ReadOneLine(lines[0], more, end, limits.maxHeaderLineBytes, HeaderLineTooLong);
      HeaderLayoutParses(limits, HeaderLine(limits, h, lines[0]).state, more, end, after, rest, lines[1..], blank);
    }
  }

  lemma LayoutParses(
    limits: HttpLimits, data: bytes, end: End, request: Request, rest: bytes,
    first: bytes, lines: seq<bytes>, blank: bytes)
    requires FoldedLayout(limits, data, end, request, rest, first, lines, blank)
    ensures ParseRequest(limits, data, end) == Ok((request, rest))
  {
    hide HeaderLine, TrimEol, Words, FoldHeaders, EndsHeaders;
    var body := if request.body.Some? then request.body.value else [];
    var h := FoldHeaders(limits, NO_HEADERS, lines).value;
    var more := Flatten(lines) + blank + (body + rest);
    assert data == first + more;
    ReadOneLine(first, more, end, limits.maxRequestLineBytes, RequestLineTooLong);
    HeaderLayoutParses(limits, NO_HEADERS, more, end, h, body + rest, lines, blank);
    assert (body + rest)[..|body|] == body && (body + rest)[|body|..] == rest;
  }

  lemma ParsesFolded(limits: HttpLimits, data: bytes, end: End, request: Request, rest: bytes)
    ensures ParseRequest(limits, data, end) == Ok((request, rest))
       <==> exists first, lines, blank :: FoldedLayout(limits, data, end, request, rest, first, lines, blank)
  {
    hide FoldedLayout, ParseRequest;
    if ParseRequest(limits, data, end) == Ok((request, rest)) {
      var first, lines, blank := ParseHasLayout(limits, data, end);
    }
    if exists first, lines, blank :: FoldedLayout(limits, data, end, request, rest, first, lines, blank) {
      var first, lines, blank :| FoldedLayout(limits, data, end, request, rest, first, lines, blank);
      LayoutParses(limits, data, end, request, rest, first, lines, blank);
    }
  }

  // ---------------------------------------------------------------- the layout without the reader

  /** The fields of header lines: the text before the first colon in lower case and the text
      after it, both trimmed; a line without a colon holds none. */
  function FieldsOf(lines: seq<bytes>): seq<Header> {
    if lines == [] then []
    else
      var field := SplitOnce(TrimEol(lines[|lines| - 1]), ':' as int);
      FieldsOf(lines[..|lines| - 1])
      + if field.Some? then [(ToLower(Trim(field.value.0)), Trim(field.value.1))] else []
  }

  predicate IsLength(field: Header) {
    field.0 == Ascii("content-length")
  }

  predicate IsCoding(field: Header) {
    field.0 == Ascii("transfer-encoding") && field.1 != []
  }

  ghost predicate WritesLength(value: bytes) {
    exists n: nat :: n <= 0xffff_ffff_ffff_ffff && Writes(value, 10, n)
  }

  /** No transfer coding, and at most one length, which is a number. */
  ghost predicate Allowed(fields: seq<Header>) {
    && (forall i :: 0 <= i < |fields| ==> !IsCoding(fields[i]))
    && (forall i, j :: 0 <= i < j < |fields| ==> !(IsLength(fields[i]) && IsLength(fields[j])))
    && (forall i :: 0 <= i < |fields| && IsLength(fields[i]) ==> WritesLength(fields[i].1))
  }

  /** The length the fields declare: zero when none does. */
  ghost predicate Declares(fields: seq<Header>, n: nat) {
    && (forall i :: 0 <= i < |fields| && IsLength(fields[i]) ==> Writes(fields[i].1, 10, n))
    && ((forall i :: 0 <= i < |fields| ==> !IsLength(fields[i])) ==> n == 0)
  }

  predicate GoodLine(limits: HttpLimits, line: bytes) {
    IsLine(line) && TrimEol(line) != [] && |line| <= limits.maxHeaderLineBytes
  }

  /** A request is laid out as a request line of at least two words, non-blank header lines,
      a blank line and as many body bytes as the header declares, all within the limits. */
  ghost predicate Layout(
    limits: HttpLimits, data: bytes, end: End, request: Request, rest: bytes,
    first: bytes, lines: seq<bytes>, blank: bytes)
  {
    var body := if request.body.Some? then request.body.value else [];
    && data == first + Flatten(lines) + blank + body + rest
    && IsLine(first) && |first| <= limits.maxRequestLineBytes
    && |Words(first)| >= 2 && request.verb == Words(first)[0] && request.path == Words(first)[1]
    && (forall i :: 0 <= i < |lines| ==> GoodLine(limits, lines[i]))
    && request.headers == FieldsOf(lines) && Allowed(request.headers)
    && |request.headers| < limits.maxHeaderCount
    && |Flatten(lines)| + |blank| <= limits.maxHeaderBytes
    && blank != [] && TrimEol(blank) == [] && |blank| <= limits.maxHeaderLineBytes
    && (IsLine(blank) || (LF !in blank && body + rest == [] && end.Eof?))
    && Declares(request.headers, request.contentLength)
    && (request.body.None? <==> request.contentLength == 0)
    && (request.body.Some? ==> |request.body.value| == request.contentLength <= limits.maxBodyBytes)
  }

  // ---------------------------------------------------------------- one line more

  lemma Names()
    ensures CONTENT_LENGTH == Ascii("content-length") && TRANSFER_ENCODING == Ascii("transfer-encoding")
    ensures CONTENT_LENGTH != TRANSFER_ENCODING
  {
    assert |CONTENT_LENGTH| == 14 && |TRANSFER_ENCODING| == 17;
  }

  /** The gathered length is that of the gathered fields. */
  ghost predicate Consistent(h: HeaderState) {
    && Allowed(h.headers)
    && (h.contentLength.None? <==> forall i :: 0 <= i < |h.headers| ==> !IsLength(h.headers[i]))
    && (h.contentLength.Some? ==> h.contentLength.value <= USIZE_MAX && Declares(h.headers, h.contentLength.value))
  }

  lemma AllowedSnoc(fields: seq<Header>, field: Header)
    ensures Allowed(fields + [field]) <==>
      && Allowed(fields)
      && !IsCoding(field)
      && (IsLength(field) ==> WritesLength(field.1) && forall i :: 0 <= i < |fields| ==> !IsLength(fields[i]))
  {
    hide WritesLength;
    var all := fields + [field];
    assert forall i :: 0 <= i < |fields| ==> all[i] == fields[i];
    assert all[|fields|] == field;
    if Allowed(all) {
      AllowedPrefix(fields, [field]);
    }
  }

  lemma AllowedPrefix(a: seq<Header>, b: seq<Header>)
    requires Allowed(a + b)
    ensures Allowed(a)
  {
    hide WritesLength;
    assert forall i :: 0 <= i < |a| ==> (a + b)[i] == a[i];
  }

  lemma LengthParsed(value: bytes)
    ensures WritesLength(value) <==> ParseUnsigned(value, 10, USIZE_MAX).Some?
    ensures forall n :: ParseUnsigned(value, 10, USIZE_MAX) == Some(n) ==> Writes(value, 10, n) && n <= USIZE_MAX
  {
    hide ParseUnsigned, Writes;
    var parsed := ParseUnsigned(value, 10, USIZE_MAX);
    if parsed.Some? {
      ParseUnsignedIff(value, 10, USIZE_MAX, parsed.value);
    }
    if WritesLength(value) {
      var n: nat :| n <= USIZE_MAX && Writes(value, 10, n);
      ParseUnsignedIff(value, 10, USIZE_MAX, n);
    }
  }

  /** A field is added exactly when it stays allowed; otherwise it is refused for its kind. */
  lemma AddedIff(h: HeaderState, name: bytes, value: bytes)
    requires Consistent(h)
    ensures
      var effect := AddHeader(h, name, value);
      && (effect.More? ==> effect.state.total == h.total && effect.state.headers == h.headers + [(name, value)])
      && !effect.Blank?
      && (Allowed(h.headers + [(name, value)]) <==> effect.More?)
      && (effect.More? ==> Consistent(effect.state))
      && (IsLength((name, value)) && effect.Bad? ==> effect.error == InvalidContentLength)
      && (!IsLength((name, value)) && effect.Bad? ==> effect.error == UnsupportedTransferEncoding)
  {
    hide Writes, ParseUnsigned, Allowed, CONTENT_LENGTH, TRANSFER_ENCODING;
    Names();
    LengthParsed(value);
    AllowedSnoc(h.headers, (name, value));
    var all := h.headers + [(name, value)];
    assert forall i :: 0 <= i < |h.headers| ==> all[i] == h.headers[i];
    assert all[|h.headers|] == (name, value);
  }

  function FieldOf(line: bytes): seq<Header> {
    var field := SplitOnce(TrimEol(line), ':' as int);
    if field.Some? then [(ToLower(Trim(field.value.0)), Trim(field.value.1))] else []
  }

  lemma FieldsSnoc(lines: seq<bytes>, line: bytes)
    ensures FieldsOf(lines + [line]) == FieldsOf(lines) + FieldOf(line)
  {
    assert (lines + [line])[..|lines|] == lines;
  }

  lemma Regroup(a: seq<Header>, b: seq<Header>, c: seq<Header>)
    ensures (a + b) + c == a + (b + c)
  {
  }

  lemma {:induction false} FieldsCons(line: bytes, lines: seq<bytes>)
    ensures FieldsOf([line] + lines) == FieldOf(line) + FieldsOf(lines)
    decreases |lines|
  {
    assert FieldsOf([]) == [];
    hide FieldsOf, FieldOf;
    if lines == [] {
      assert [line] + lines == lines + [line];
      FieldsSnoc(lines, line);
      assert [] + FieldOf(line) == FieldOf(line) + [];
    } else {
      var front, last := lines[..|lines| - 1], lines[|lines| - 1];
      Regroup(FieldOf(line), FieldsOf(front), FieldOf(last));
      assert lines == front + [last];
      assert [line] + lines == ([line] + front) + [last];
      FieldsSnoc([line] + front, last);
      FieldsSnoc(front, last);
      FieldsCons(line, front);
    }
  }

  /** What one good line does: too many bytes, a field allowed beside the others, or a
      refusal of the field's kind. */
  lemma LineDecides(limits: HttpLimits, h: HeaderState, line: bytes)
    requires Consistent(h) && TrimEol(line) != []
    ensures
      var effect := HeaderLine(limits, h, line);
      var fields := h.headers + FieldOf(line);
      && (h.total + |line| > limits.maxHeaderBytes ==> effect == Bad(HeadersTooLarge))
      && (h.total + |line| <= limits.maxHeaderBytes ==>
            && !effect.Blank? && (effect.More? <==> Allowed(fields))
            && (effect.More? ==>
                  effect.state.headers == fields && effect.state.total == h.total + |line| && Consistent(effect.state))
            && (effect.Bad? ==>
                  && FieldOf(line) != []
                  && effect.error
                     == if IsLength(FieldOf(line)[0]) then InvalidContentLength else UnsupportedTransferEncoding))
  {
    hide AddHeader, HeaderLine, FieldOf, Allowed, IsLength, TrimEol;
    var counted := h.(total := h.total + |line|);
    LineIs(limits, h, line);
    CountedConsistent(h, h.total + |line|);
    if FieldOf(line) != [] {
      var field := FieldOf(line)[0];
      AddedIff(counted, field.0, field.1);
      assert FieldOf(line) == [(field.0, field.1)];
    } else {
      assert h.headers + [] == h.headers;
    }
  }

  lemma LineIs(limits: HttpLimits, h: HeaderState, line: bytes)
    requires TrimEol(line) != []
    ensures
      var counted := h.(total := h.total + |line|);
      var field := FieldOf(line);
      && |field| <= 1
      && HeaderLine(limits, h, line)
         == if counted.total > limits.maxHeaderBytes then Bad(HeadersTooLarge)
            else if field == [] then More(counted)
            else AddHeader(counted, field[0].0, field[0].1)
  {
    hide AddHeader, TrimEol, Trim, SplitOnce;
    assert ':' as int == COLON;
  }

  lemma CountedConsistent(h: HeaderState, total: nat)
    requires Consistent(h)
    ensures Consistent(h.(total := total)) && Allowed(h.headers)
  {
  }

  /** Folding accepts exactly the good lines whose fields stay allowed and within the limits. */
  lemma {:induction false} FoldMeans(limits: HttpLimits, h: HeaderState, lines: seq<bytes>)
    requires Consistent(h)
    ensures
      var after := FoldHeaders(limits, h, lines);
      var fields := h.headers + FieldsOf(lines);
      && (after.Some? ==>
            && (forall i :: 0 <= i < |lines| ==> GoodLine(limits, lines[i]))
            && after.value.headers == fields && after.value.total == h.total + |Flatten(lines)|
            && Consistent(after.value))
      && ((forall i :: 0 <= i < |lines| ==> GoodLine(limits, lines[i])) && Allowed(fields)
          && |fields| < limits.maxHeaderCount && h.total + |Flatten(lines)| <= limits.maxHeaderBytes ==>
            after.Some?)
    decreases |lines|
  {
    hide HeaderLine, Consistent, Allowed, FieldOf, FieldsOf, Flatten, IsLine, TrimEol;
    if lines == [] {
      NoFields();
      assert h.headers + [] == h.headers;
    } else {
      var line, more := lines[0], lines[1..];
      assert lines == [line] + more;
      FieldsCons(line, more);
      FlattenCons(line, more);
      assert h.headers + (FieldOf(line) + FieldsOf(more)) == (h.headers + FieldOf(line)) + FieldsOf(more);
      if TrimEol(line) == [] {
        BlankStops(limits, h, line);
      } else {
        LineDecides(limits, h, line);
        var effect := HeaderLine(limits, h, line);
        if effect.More? {
          FoldMeans(limits, effect.state, more);
        } else if Allowed(h.headers + FieldsOf(lines)) {
          AllowedPrefix(h.headers + FieldOf(line), FieldsOf(more));
        }
      }
    }
  }

  lemma NoFields()
    ensures FieldsOf([]) == [] && Flatten([]) == []
  {
  }

  lemma BlankStops(limits: HttpLimits, h: HeaderState, line: bytes)
    requires TrimEol(line) == []
    ensures !HeaderLine(limits, h, line).More?
  {
  }

  lemma NothingConsistent()
    ensures Consistent(NO_HEADERS)
  {
  }

  lemma DeclaresOnce(h: HeaderState, n: nat)
    requires Consistent(h)
    ensures Declares(h.headers, n) <==> n == DeclaredLength(h)
  {
    hide Writes;
    if h.contentLength.Some? && Declares(h.headers, n) {
      var i :| 0 <= i < |h.headers| && IsLength(h.headers[i]);
      WritesOnce(h.headers[i].1, n, h.contentLength.value);
    }
  }

  lemma WritesOnce(s: bytes, m: nat, n: nat)
    requires Writes(s, 10, m) && Writes(s, 10, n)
    ensures m == n
  {
  }

  lemma LayoutFolds(
    limits: HttpLimits, data: bytes, end: End, request: Request, rest: bytes,
    first: bytes, lines: seq<bytes>, blank: bytes)
    ensures Layout(limits, data, end, request, rest, first, lines, blank)
       <==> FoldedLayout(limits, data, end, request, rest, first, lines, blank)
  {
    hide FoldHeaders, Flatten, FieldsOf, Allowed, Declares, Words, TrimEol, IsLine, GoodLine;
    NothingConsistent();
    FoldMeans(limits, NO_HEADERS, lines);
    assert NO_HEADERS.headers + FieldsOf(lines) == FieldsOf(lines);
    var h := FoldHeaders(limits, NO_HEADERS, lines);
    if h.Some? {
      DeclaresOnce(h.value, request.contentLength);
      CountedConsistent(h.value, 0);
    }
  }

  /** The reader succeeds on exactly the byte strings that are laid out as a request, and
      consumes exactly that layout. */
  lemma ParsesIff(limits: HttpLimits, data: bytes, end: End, request: Request, rest: bytes)
    ensures ParseRequest(limits, data, end) == Ok((request, rest))
       <==> exists first, lines, blank :: Layout(limits, data, end, request, rest, first, lines, blank)
  {
    hide Layout, FoldedLayout, ParseRequest;
    ParsesFolded(limits, data, end, request, rest);
    forall first, lines, blank
      ensures Layout(limits, data, end, request, rest, first, lines, blank)
         <==> FoldedLayout(limits, data, end, request, rest, first, lines, blank)
    {
      LayoutFolds(limits, data, end, request, rest, first, lines, blank);
    }
  }

  /** What a parsed request holds of lengths and codings: none refused, and its length is
      the one its fields declare. */
  lemma ParsedIsAllowed(limits: HttpLimits, data: bytes, end: End)
    ensures
      var r := ParseRequest(limits, data, end);
      r.Ok? ==> Allowed(r.value.0.headers) && Declares(r.value.0.headers, r.value.0.contentLength)
  {
    hide ParseRequest, Allowed, Declares, Words, GoodLine, FieldsOf, TrimEol;
    var r := ParseRequest(limits, data, end);
    if r.Ok? {
      ParsesIff(limits, data, end, r.value.0, r.value.1);
      var first, lines, blank :| Layout(limits, data, end, r.value.0, r.value.1, first, lines, blank);
    }
  }
}
