/** What the request reader makes of a request that is cut short. */
module RequestTruncation {
  import opened ByteSource
  import opened Bytes
  import opened HttpRequest
  import opened HttpRequestLayout
  import opened HttpRequestRefusals
  import opened RequestRoundTrip
  import opened Wrappers

  /** No line after the first starts with a carriage return. */
  predicate Smooth(s: bytes) {
    forall i :: 0 <= i < |s| - 1 && s[i] == LF ==> s[i + 1] != CR
  }

  // ---------------------------------------------------------------- bytes that arrive later

  /** A request whose blank line has arrived whole stays the same request. */
  lemma LayoutExtends(
    limits: HttpLimits, p: bytes, q: bytes, end: End, later: End, request: Request, rest: bytes,
    first: bytes, lines: seq<bytes>, blank: bytes)
    requires Layout(limits, p, end, request, rest, first, lines, blank) && IsLine(blank)
    ensures Layout(limits, p + q, later, request, rest + q, first, lines, blank)
  {
    hide IsLine, GoodLine, Allowed, Declares, FieldsOf, Flatten, Words, TrimEol;
    var body := if request.body.Some? then request.body.value else [];
    assert p + q == first + Flatten(lines) + blank + body + (rest + q);
  }

  /** Otherwise the stream ended in carriage returns at the start of a line. */
  lemma OpenBlank(
    limits: HttpLimits, p: bytes, end: End, request: Request, rest: bytes,
    first: bytes, lines: seq<bytes>, blank: bytes)
    requires Layout(limits, p, end, request, rest, first, lines, blank) && !IsLine(blank)
    ensures !Smooth(p)
  {
    hide GoodLine, Allowed, Declares, FieldsOf, Words;
    var front := first + Flatten(lines);
    assert p == front + blank;
    FrontEnds(limits, first, lines);
    assert blank[0] == CR;
    assert p[|front| - 1] == front[|front| - 1] && p[|front|] == blank[0];
  }

  lemma {:induction false} FrontEnds(limits: HttpLimits, first: bytes, lines: seq<bytes>)
    requires IsLine(first) && forall i :: 0 <= i < |lines| ==> GoodLine(limits, lines[i])
    ensures
      var front := first + Flatten(lines);
      front != [] && front[|front| - 1] == LF
    decreases |lines|
  {
    if lines == [] {
      assert first + [] == first;
    } else {
      FrontEnds(limits, lines[0], lines[1..]);
      assert first + Flatten(lines) == first + (lines[0] + Flatten(lines[1..]));
    }
  }

  /** A prefix that ends before the section does is refused. */
  lemma SectionCut(limits: HttpLimits, p: bytes, q: bytes, end: End, later: End, request: Request)
    requires ParseRequest(limits, p + q, later) == Ok((request, [])) && q != [] && Smooth(p)
    ensures ParseRequest(limits, p, end).Err?
  {
    hide ParseRequest, Layout, IsLine, Smooth;
    var r := ParseRequest(limits, p, end);
    if r.Ok? {
      var (other, rest) := r.value;
      ParsesIff(limits, p, end, other, rest);
      assert |rest + q| > 0;
      var first, lines, blank :| Layout(limits, p, end, other, rest, first, lines, blank);
      if IsLine(blank) {
        LayoutExtends(limits, p, q, end, later, other, rest, first, lines, blank);
        ParsesIff(limits, p + q, later, other, rest + q);
      } else {
        OpenBlank(limits, p, end, other, rest, first, lines, blank);
      }
    }
  }

  // ---------------------------------------------------------------- the end of the section

  /** The section that was parsed off a text is the one before its empty line. */
  lemma SectionIs(
    limits: HttpLimits, section: bytes, content: bytes, later: End, request: Request,
    first: bytes, lines: seq<bytes>, blank: bytes)
    requires section != [] && section[|section| - 1] == LF
    requires Layout(limits, section + CRLF + content, later, request, [], first, lines, blank)
    requires request.contentLength == |content|
    ensures section == first + Flatten(lines) && blank == CRLF
    ensures Started(limits, first, lines) && Declares(FieldsOf(lines), |content|)
  {
    hide Allowed, Declares, FieldsOf, Words;
    var body := if request.body.Some? then request.body.value else [];
    var front := first + Flatten(lines);
    FrontEnds(limits, first, lines);
    hide Flatten, GoodLine;
    SameEnd(section, content, front, blank, body);
  }

  lemma SameEnd(section: bytes, content: bytes, front: bytes, blank: bytes, body: bytes)
    requires section != [] && section[|section| - 1] == LF
    requires section + CRLF + content == front + blank + body && |content| == |body|
    requires front != [] && front[|front| - 1] == LF
    requires blank != [] && TrimEol(blank) == [] && (IsLine(blank) || LF !in blank)
    ensures section == front && blank == CRLF
  {
    var all := section + CRLF + content;
    var n := |section|;
    assert all[..n + 2] == section + CRLF;
    assert all[..n + 2] == front + blank;
    assert all[n - 1] == LF && all[n] == CR && all[n + 1] == LF;
    assert blank[|blank| - 1] == all[n + 1];
    assert all[|front| - 1] == LF;
    forall j | |front| <= j < n + 1
      ensures all[j] != LF
    {
      assert all[j] == blank[j - |front|] == blank[..|blank| - 1][j - |front|];
    }
    assert section == all[..n] == front;
  }

  /** The stream ends in the middle of the empty line. */
  lemma LoneReturn(limits: HttpLimits, first: bytes, lines: seq<bytes>, end: End, length: nat)
    requires Started(limits, first, lines) && Declares(FieldsOf(lines), length)
    requires 1 <= limits.maxHeaderLineBytes && |Flatten(lines)| + 1 <= limits.maxHeaderBytes
    ensures
      var r := ParseRequest(limits, first + Flatten(lines) + [CR], end);
      if end.Eof? && length == 0 then r == Ok((Request(Words(first)[0], Words(first)[1], FieldsOf(lines), 0, None), []))
      else r.Err?
  {
    hide FoldHeaders, ReadHeaders, ReadLine, Flatten, FieldsOf, Allowed, Words, HeaderLine, IsLine, GoodLine;
    hide Consistent, Declares;
    var last: bytes := [CR];
    assert first + Flatten(lines) + [CR] == first + (Flatten(lines) + last);
    StartedReads(limits, first, lines, last, end);
    NotEmpty(first);
    var h := FoldHeaders(limits, NO_HEADERS, lines).value;
    DeclaresOnce(h, length);
    ReturnRead(limits, h, end);
  }

  lemma ReturnRead(limits: HttpLimits, h: HeaderState, end: End)
    requires |h.headers| < limits.maxHeaderCount
    requires 1 <= limits.maxHeaderLineBytes && h.total + 1 <= limits.maxHeaderBytes
    ensures
      var r := ReadHeaders(limits, h, [CR], end);
      if end.Eof? then r == Ok((h, [])) else r.Err?
  {
    assert TrimEol([CR]) == [];
  }

  // ---------------------------------------------------------------- a request cut short

  /** A request that parses, cut anywhere: the reader refuses it, except that one without a
      body lacks nothing but the last line feed and the peer closed; then it is the same. */
  lemma CutText(limits: HttpLimits, section: bytes, content: bytes, later: End, request: Request, n: nat, end: End)
    requires section != [] && section[|section| - 1] == LF && Smooth(section)
    requires ParseRequest(limits, section + CRLF + content, later) == Ok((request, []))
    requires request.contentLength == |content| && n < |section| + 2 + |content|
    ensures
      var r := ParseRequest(limits, (section + CRLF + content)[..n], end);
      if end.Eof? && content == [] && n == |section| + 1 then r == Ok((request, [])) else r.Err?
  {
    hide ParseRequest, Started, Declares, FieldsOf, Flatten, Words, IsLine, GoodLine, Allowed, TrimEol;
    var all := section + CRLF + content;
    if n <= |section| {
      assert all == section[..n] + all[n..] && all[..n] == section[..n];
      SectionCut(limits, section[..n], all[n..], end, later, request);
    } else {
      ParsesIff(limits, all, later, request, []);
      var first, lines, blank :| Layout(limits, all, later, request, [], first, lines, blank);
      SectionIs(limits, section, content, later, request, first, lines, blank);
      if n == |section| + 1 {
        assert all[..n] == section + [CR];
        LoneReturn(limits, first, lines, end, |content|);
      } else {
        assert all[..n] == section + CRLF + content[..n - |section| - 2];
        CrlfBlank();
        BodyRefused(limits, first, lines, CRLF, content[..n - |section| - 2], end, |content|);
      }
    }
  }

  lemma CrlfBlank()
    ensures IsLine(CRLF) && TrimEol(CRLF) == []
  {
    TrimEolCrlf([]);
    assert [] + CRLF == CRLF;
  }

  // ---------------------------------------------------------------- the client's request

  /** A line that does not start with a carriage return. */
  predicate PlainLine(line: bytes) {
    IsLine(line) && line[0] != CR
  }

  lemma SmoothAppend(a: bytes, b: bytes)
    requires Smooth(a) && Smooth(b) && (b != [] ==> b[0] != CR)
    ensures Smooth(a + b)
  {
    var all := a + b;
    forall i | 0 <= i < |all| - 1 && all[i] == LF
      ensures all[i + 1] != CR
    {
      if i < |a| - 1 {
        assert all[i] == a[i] && all[i + 1] == a[i + 1];
      } else {
        assert all[i + 1] == b[i + 1 - |a|];
        assert i >= |a| ==> all[i] == b[i - |a|];
      }
    }
  }

  lemma PlainLineSmooth(line: bytes)
    requires PlainLine(line)
    ensures Smooth(line)
  {
  }

  lemma {:induction false} LinesSmooth(lines: seq<bytes>)
    requires forall i :: 0 <= i < |lines| ==> PlainLine(lines[i])
    ensures Smooth(Flatten(lines)) && (Flatten(lines) != [] ==> Flatten(lines)[0] != CR)
  {
    if lines != [] {
      LinesSmooth(lines[1..]);
      PlainLineSmooth(lines[0]);
      SmoothAppend(lines[0], Flatten(lines[1..]));
    }
  }

  predicate StartsPlain(name: bytes) {
    name != [] ==> name[0] != '\r' as int
  }

  lemma FieldLinePlain(field: Header)
    requires Clean(field) && StartsPlain(field.0)
    ensures PlainLine(FieldLine(field))
  {
    assert FieldLine(field) == (field.0 + [COLON, SP] + field.1 + [CR]) + [LF];
    LineOf(field.0 + [COLON, SP] + field.1 + [CR]);
  }

  lemma OwnNamesPlain()
    ensures StartsPlain(HOST) && StartsPlain(CONTENT_LENGTH_NAME) && StartsPlain(CONNECTION)
  {
  }

  lemma FieldsPlain(host: bytes, headers: seq<Header>, body: Option<bytes>)
    requires LF !in host && forall i :: 0 <= i < |headers| ==> Plain(headers[i]) && StartsPlain(headers[i].0)
    ensures forall i :: 0 <= i < |FieldLines(Fields(host, headers, body))| ==>
      PlainLine(FieldLines(Fields(host, headers, body))[i])
  {
    FieldsClean(host, headers, body);
    OwnNamesPlain();
    var fields := Fields(host, headers, body);
    assert forall i :: 0 <= i < |fields| ==> StartsPlain(fields[i].0);
    hide Clean, Plain, PlainLine, FieldLine, StartsPlain, Fields;
    forall i | 0 <= i < |fields|
      ensures PlainLine(FieldLine(fields[i]))
    {
      FieldLinePlain(fields[i]);
    }
    LinesOfFields(fields);
  }

  lemma {:induction false} LinesOfFields(fields: seq<Header>)
    requires forall i :: 0 <= i < |fields| ==> PlainLine(FieldLine(fields[i]))
    ensures forall i :: 0 <= i < |FieldLines(fields)| ==> PlainLine(FieldLines(fields)[i])
  {
    if fields != [] {
      LinesOfFields(fields[1..]);
    }
  }

  /** A client's request that fits, cut anywhere: refused, except that one without a body may
      lack its last line feed when the peer closed. */
  lemma CutRequest(
    limits: HttpLimits, verb: bytes, path: bytes, host: bytes, headers: seq<Header>, body: Option<bytes>,
    n: nat, end: End)
    requires verb != [] && NoSpace(verb) && path != [] && NoSpace(path)
    requires '\n' as int !in host
    requires forall i :: 0 <= i < |headers| ==> CallersField(headers[i]) && StartsPlain(headers[i].0)
    requires body.Some? ==> |body.value| <= 0xffff_ffff_ffff_ffff
    requires FitsLimits(limits, verb, path, host, headers, body)
    requires n < |RequestText(verb, path, host, headers, body)|
    ensures
      var text := RequestText(verb, path, host, headers, body);
      var r := ParseRequest(limits, text[..n], end);
      if end.Eof? && (body.None? || body.value == []) && n == |text| - 1 then
        r == Ok((Request(verb, path, ServerHeaders(host, headers, body), 0, None), []))
      else r.Err?
  {
    hide ParseRequest, RequestText, FitsLimits, CallersField, StartsPlain, Smooth, NoSpace;
    hide RequestLine, Flatten, FieldLines, Fields, Trim, ToLower, Format, Ascii;
    var content := if body.Some? then body.value else [];
    var section := RequestLine(verb, path) + Flatten(FieldLines(Fields(host, headers, body)));
    RequestSection(verb, path, host, headers, body);
    RoundTrip(limits, verb, path, host, headers, body, [], Eof);
    hide ServerHeaders;
    var text := RequestText(verb, path, host, headers, body);
    assert text + [] == text;
    CutText(limits, section, content, Eof, ParseRequest(limits, text, Eof).value.0, n, end);
  }

  lemma RequestSection(verb: bytes, path: bytes, host: bytes, headers: seq<Header>, body: Option<bytes>)
    requires verb != [] && NoSpace(verb) && NoSpace(path) && LF !in host
    requires forall i :: 0 <= i < |headers| ==> CallersField(headers[i]) && StartsPlain(headers[i].0)
    ensures
      var content := if body.Some? then body.value else [];
      var section := RequestLine(verb, path) + Flatten(FieldLines(Fields(host, headers, body)));
      && RequestText(verb, path, host, headers, body) == section + CRLF + content
      && section != [] && section[|section| - 1] == LF && Smooth(section)
  {
    RenderedText(verb, path, host, headers, body);
    SectionSmooth(verb, path, host, headers, body);
    hide RequestText, CallersField, StartsPlain, RequestLine, Fields, FieldLines, Flatten, Smooth;
  }

  lemma SectionSmooth(verb: bytes, path: bytes, host: bytes, headers: seq<Header>, body: Option<bytes>)
    requires verb != [] && NoSpace(verb) && NoSpace(path) && LF !in host
    requires forall i :: 0 <= i < |headers| ==> CallersField(headers[i]) && StartsPlain(headers[i].0)
    ensures
      var section := RequestLine(verb, path) + Flatten(FieldLines(Fields(host, headers, body)));
      section != [] && section[|section| - 1] == LF && Smooth(section)
  {
    forall i | 0 <= i < |headers|
      ensures Plain(headers[i])
    {
      CallersFieldIsPlain(headers[i]);
    }
    FieldsPlain(host, headers, body);
    VerbLinePlain(verb, path);
    hide CallersField, StartsPlain, Plain, Fields, FieldLines, RequestLine, PlainLine;
    var lines := FieldLines(Fields(host, headers, body));
    FlattenCons(RequestLine(verb, path), lines);
    LinesSmooth([RequestLine(verb, path)] + lines);
    EndsInFeed([RequestLine(verb, path)] + lines);
  }

  lemma VerbLinePlain(verb: bytes, path: bytes)
    requires verb != [] && NoSpace(verb) && NoSpace(path)
    ensures PlainLine(RequestLine(verb, path))
  {
    RequestLineIsLine(verb, path);
    assert RequestLine(verb, path)[0] == verb[0];
  }

  lemma {:induction false} EndsInFeed(lines: seq<bytes>)
    requires lines != [] && forall i :: 0 <= i < |lines| ==> PlainLine(lines[i])
    ensures Flatten(lines) != [] && Flatten(lines)[|Flatten(lines)| - 1] == LF
  {
    if |lines| > 1 {
      EndsInFeed(lines[1..]);
    }
  }
}
