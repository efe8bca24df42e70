/** What the bounded client gathers from a response's header section. */
module ResponseHeaders {
  import opened ByteLaws
  import opened ByteSource
  import opened Bytes
  import HttpRequest
  import opened HttpRequestLayout
  import opened HttpResponse
  import opened RequestRoundTrip
  import opened Wrappers

  // ---------------------------------------------------------------- one line

  /** A value that mentions the chunked coding, in any letter case. */
  ghost predicate Mentions(value: bytes) {
    exists before: bytes, after: bytes :: ToLower(value) == before + Ascii("chunked") + after
  }

  /** A field that asks for the chunked coding. */
  ghost predicate Coded(field: HttpRequest.Header) {
    ToLower(field.0) == Ascii("transfer-encoding") && Mentions(field.1)
  }

  /** What a field's line adds. */
  ghost function Absorb(h: Gathered, field: HttpRequest.Header): Gathered {
    Gathered(
      h.count + 1,
      h.total + |FieldLine(field)|,
      if ToLower(field.0) == HttpRequest.CONTENT_LENGTH then ParseUnsigned(ToLower(Trim(field.1)), 10, USIZE_MAX)
      else h.contentLength,
      h.chunked || Coded(field))
  }

  lemma Prefixes()
    ensures LENGTH_PREFIX == HttpRequest.CONTENT_LENGTH + [COLON]
    ensures TRANSFER_PREFIX == HttpRequest.TRANSFER_ENCODING + [COLON]
    ensures COLON !in HttpRequest.CONTENT_LENGTH && COLON !in HttpRequest.TRANSFER_ENCODING
  {
    assert |LENGTH_PREFIX| == 15 && |HttpRequest.CONTENT_LENGTH| == 14;
    assert |TRANSFER_PREFIX| == 18 && |HttpRequest.TRANSFER_ENCODING| == 17;
  }

  /** A field line starts with a name and its colon exactly when that is its name. */
  lemma PrefixOfField(name: bytes, key: bytes, value: bytes)
    requires COLON !in name && COLON !in key
    ensures key + [COLON] <= name + [COLON] + value <==> key == name
    ensures key == name ==> (name + [COLON] + value)[|key| + 1..] == value
  {
    var line := name + [COLON] + value;
    assert line[..|name|] == name;
    IndexOfIs(line, COLON, |name|);
    if key + [COLON] <= line {
      assert line[|key|] == (key + [COLON])[|key|] == COLON;
      assert line[..|key|] == (key + [COLON])[..|key|] == key;
      IndexOfIs(line, COLON, |key|);
    }
  }

  lemma LowerAppend(a: bytes, b: bytes)
    ensures ToLower(a + b) == ToLower(a) + ToLower(b)
  {
    var l := ToLower(a + b);
    forall i | 0 <= i < |a + b|
      ensures l[i] == (ToLower(a) + ToLower(b))[i]
    {
    }
  }

  lemma {:induction false} LowerTrimStart(s: bytes)
    ensures TrimStart(ToLower(s)) == ToLower(TrimStart(s))
  {
    if s != [] && IsSpace(s[0]) {
      assert ToLower(s)[1..] == ToLower(s[1..]);
      LowerTrimStart(s[1..]);
    }
  }

  lemma {:induction false} LowerTrimEnd(s: bytes)
    ensures TrimEnd(ToLower(s)) == ToLower(TrimEnd(s))
  {
    if s != [] && IsSpace(s[|s| - 1]) {
      assert ToLower(s)[..|s| - 1] == ToLower(s[..|s| - 1]);
      LowerTrimEnd(s[..|s| - 1]);
    }
  }

  lemma LowerTrim(s: bytes)
    ensures Trim(ToLower(s)) == ToLower(Trim(s))
  {
    LowerTrimStart(s);
    LowerTrimEnd(TrimStart(s));
  }

  lemma NoColonLower(name: bytes)
    requires COLON !in name
    ensures COLON !in ToLower(name)
  {
  }

  lemma TrimmedField(field: HttpRequest.Header)
    requires Clean(field)
    ensures
      var value := TrimEol(field.1 + CRLF);
      && TrimEol(FieldLine(field)) == field.0 + [COLON] + ([SP] + value)
      && Trim([SP] + value) == Trim(field.1)
  {
    hide TrimEol, Trim;
    var front, tail := field.0 + [COLON, SP], field.1 + CRLF;
    assert FieldLine(field) == front + tail;
    TrimEolInside(front, tail);
    TrimIgnoresEol(tail);
    assert tail == field.1 + [CR] + [LF];
    TrimTrailing(field.1 + [CR], LF);
    TrimTrailing(field.1, CR);
    TrimLeading(SP, TrimEol(tail));
  }

  lemma LowerField(name: bytes, value: bytes)
    ensures ToLower(name + [COLON] + value) == ToLower(name) + [COLON] + ToLower(value)
  {
    LowerAppend(name, [COLON]);
    LowerAppend(name + [COLON], value);
    assert ToLower([COLON]) == [COLON];
  }

  /** A field's line has the effect its name asks for. */
  lemma FieldNoted(h: Gathered, field: HttpRequest.Header)
    requires Clean(field)
    ensures Note(h.(total := h.total + |FieldLine(field)|), ToLower(TrimEol(FieldLine(field)))) == Absorb(h, field)
  {
    Names();
    hide TrimEol, Trim, FieldLine, ToLower, Contains, LENGTH_PREFIX;
    hide TRANSFER_PREFIX, HttpRequest.CONTENT_LENGTH, HttpRequest.TRANSFER_ENCODING, ParseUnsigned, Mentions, Ascii;
    var value := [SP] + TrimEol(field.1 + CRLF);
    TrimmedField(field);
    LowerField(field.0, value);
    Prefixes();
    NoColonLower(field.0);
    PrefixOfField(ToLower(field.0), HttpRequest.CONTENT_LENGTH, ToLower(value));
    PrefixOfField(ToLower(field.0), HttpRequest.TRANSFER_ENCODING, ToLower(value));
    LowerTrim(value);
    MentionsInLine(field.1);
  }

  lemma ContainsFront(b: byte, s: bytes, part: bytes)
    requires part != [] && b != part[0]
    ensures Contains([b] + s, part) <==> Contains(s, part)
  {
    var all := [b] + s;
    if Contains(all, part) {
      var i :| 0 <= i <= |all| - |part| && all[i..][..|part|] == part;
      assert all[i..][..|part|][0] == all[i];
      assert all[i..] == s[i - 1..];
    }
    if Contains(s, part) {
      var i :| 0 <= i <= |s| - |part| && s[i..][..|part|] == part;
      assert all[i + 1..] == s[i..];
    }
  }

  lemma {:induction false} ContainsEnd(s: bytes, more: bytes, part: bytes)
    requires part != [] && part[|part| - 1] !in more
    ensures Contains(s + more, part) <==> Contains(s, part)
    decreases |more|
  {
    if more == [] {
      assert s + more == s;
    } else {
      var front, last := more[..|more| - 1], more[|more| - 1];
      assert s + more == (s + front) + [last];
      ContainsEnd(s, front, part);
      ContainsOne(s + front, last, part);
    }
  }

  lemma ContainsOne(s: bytes, b: byte, part: bytes)
    requires part != [] && part[|part| - 1] != b
    ensures Contains(s + [b], part) <==> Contains(s, part)
  {
    var all := s + [b];
    if Contains(all, part) {
      var i :| 0 <= i <= |all| - |part| && all[i..][..|part|] == part;
      assert all[i..][..|part|][|part| - 1] == all[i + |part| - 1];
      assert i + |part| - 1 != |s|;
      assert s[i..][..|part|] == all[i..][..|part|];
    }
    if Contains(s, part) {
      var i :| 0 <= i <= |s| - |part| && s[i..][..|part|] == part;
      assert all[i..][..|part|] == s[i..][..|part|];
    }
  }

  lemma MentionsIs(value: bytes)
    ensures Mentions(value) <==> Contains(ToLower(value), CHUNKED)
  {
    var lower := ToLower(value);
    assert CHUNKED == Ascii("chunked");
    hide CHUNKED, ToLower, Ascii;
    if Contains(lower, CHUNKED) {
      var i :| 0 <= i <= |lower| - |CHUNKED| && lower[i..][..|CHUNKED|] == CHUNKED;
      assert lower == lower[..i] + CHUNKED + lower[i..][|CHUNKED|..];
    }
    if Mentions(value) {
      var before: bytes, after: bytes :| lower == before + CHUNKED + after;
      assert lower[|before|..][..|CHUNKED|] == CHUNKED;
    }
  }

  /** The space before a value and its line end do not matter to what it mentions. */
  lemma MentionsInLine(value: bytes)
    ensures Contains(ToLower([SP] + TrimEol(value + CRLF)), CHUNKED) <==> Mentions(value)
  {
    hide Contains, Mentions, ToLower;
    var line := value + CRLF;
    var kept := TrimEol(line);
    var ends := line[|kept|..];
    assert line == kept + ends;
    ChunkedEnds(ends);
    LowerAppend([SP], kept);
    LowerAppend(kept, ends);
    LowerAppend(value, CRLF);
    ContainsFront(SP, ToLower(kept), CHUNKED);
    ContainsEnd(ToLower(kept), ends, CHUNKED);
    ContainsEnd(ToLower(value), CRLF, CHUNKED);
    MentionsIs(value);
  }

  lemma ChunkedEnds(ends: bytes)
    requires forall i :: 0 <= i < |ends| ==> IsEol(ends[i])
    ensures ToLower(ends) == ends && ToLower(CRLF) == CRLF && ToLower([SP]) == [SP]
    ensures CHUNKED != [] && CHUNKED[0] != SP
    ensures CHUNKED[|CHUNKED| - 1] !in ends && CHUNKED[|CHUNKED| - 1] !in CRLF
  {
    assert CHUNKED[0] == 99 && CHUNKED[6] == 100 && |CHUNKED| == 7;
  }

  // ---------------------------------------------------------------- the header section

  ghost function AbsorbAll(h: Gathered, fields: seq<HttpRequest.Header>): Gathered
    decreases |fields|
  {
    if fields == [] then h else AbsorbAll(Absorb(h, fields[0]), fields[1..])
  }

  predicate SectionAccepted(limits: ResponseLimits, after: Gathered, fields: seq<HttpRequest.Header>) {
    && after.count < limits.maxHeaderCount
    && after.total + |CRLF| <= limits.maxHeaderBytes
    && |CRLF| <= limits.maxHeaderLineBytes
    && forall i :: 0 <= i < |fields| ==> |FieldLine(fields[i])| <= limits.maxHeaderLineBytes
  }

  lemma {:induction false} AbsorbCounts(h: Gathered, fields: seq<HttpRequest.Header>)
    ensures AbsorbAll(h, fields).count == h.count + |fields|
    ensures AbsorbAll(h, fields).total == h.total + |Flatten(FieldLines(fields))|
    decreases |fields|
  {
    hide FieldLine;
    if fields != [] {
      AbsorbCounts(Absorb(h, fields[0]), fields[1..]);
      assert FieldLines(fields)[1..] == FieldLines(fields[1..]);
    }
  }

  lemma FieldStep(limits: ResponseLimits, h: Gathered, field: HttpRequest.Header)
    requires Clean(field)
    ensures FieldLine(field) != [] && IsLine(FieldLine(field))
    ensures HeaderStep(limits, h, FieldLine(field))
         == if h.total + |FieldLine(field)| > limits.maxHeaderBytes then Overlong else More(Absorb(h, field))
  {
    hide Absorb, Note;
    TrimmedField(field);
    FieldNoted(h, field);
    FieldIsLine(field);
  }

  lemma FieldIsLine(field: HttpRequest.Header)
    requires Clean(field)
    ensures IsLine(FieldLine(field))
  {
    var line := FieldLine(field);
    assert line[..|line| - 1] == field.0 + [COLON, SP] + field.1 + [CR];
  }

  lemma BlankStep(limits: ResponseLimits, h: Gathered)
    ensures IsLine(CRLF)
    ensures HeaderStep(limits, h, CRLF) == if h.total + |CRLF| > limits.maxHeaderBytes then Overlong else Blank
  {
    TerminatorLine();
  }

  lemma AcceptedTail(limits: ResponseLimits, after: Gathered, fields: seq<HttpRequest.Header>)
    requires fields != []
    ensures SectionAccepted(limits, after, fields) <==>
      SectionAccepted(limits, after, fields[1..]) && |FieldLine(fields[0])| <= limits.maxHeaderLineBytes
  {
    hide FieldLine;
    assert forall i :: 0 < i < |fields| ==> fields[i] == fields[1..][i - 1];
  }

  /** A rendered header section is gathered field by field exactly when it fits. */
  lemma {:induction false} SectionGathered(
    limits: ResponseLimits, h: Gathered, fields: seq<HttpRequest.Header>, rest: bytes, end: End)
    requires forall i :: 0 <= i < |fields| ==> Clean(fields[i])
    ensures
      var after := AbsorbAll(h, fields);
      var r := GatherHeaders(limits, h, Flatten(FieldLines(fields)) + CRLF + rest, end);
      if SectionAccepted(limits, after, fields) then r == Ok((after, rest)) else r.Err?
    decreases |fields|
  {
    hide Absorb, FieldLine, HeaderStep, ReadLine, Clean;
    var data := Flatten(FieldLines(fields)) + CRLF + rest;
    AbsorbCounts(h, fields);
    if fields == [] {
      assert data == CRLF + rest;
      BlankStep(limits, h);
      LineOrTooLong(CRLF, rest, end, limits.maxHeaderLineBytes, HeaderLineTooLong);
    } else {
      var line := FieldLine(fields[0]);
      var more := Flatten(FieldLines(fields[1..])) + CRLF + rest;
      assert FieldLines(fields)[1..] == FieldLines(fields[1..]);
      assert data == line + more;
      FieldStep(limits, h, fields[0]);
      LineOrTooLong(line, more, end, limits.maxHeaderLineBytes, HeaderLineTooLong);
      AbsorbOne(h, fields[0]);
      AbsorbCounts(Absorb(h, fields[0]), fields[1..]);
      SectionGathered(limits, Absorb(h, fields[0]), fields[1..], rest, end);
      AcceptedTail(limits, AbsorbAll(h, fields), fields);
    }
  }

  lemma AbsorbOne(h: Gathered, field: HttpRequest.Header)
    ensures Absorb(h, field).count == h.count + 1 && Absorb(h, field).total == h.total + |FieldLine(field)|
  {
  }
}
