/** What the chunk-size lines of either decoder may look like. */
module ChunkSizes {
  import opened ByteLaws
  import opened ByteSource
  import opened Bytes
  import opened ChunkedBody
  import opened Wrappers

  predicate Blank(s: bytes) {
    forall i :: 0 <= i < |s| ==> s[i] in {9, 10, 11, 12, 13, 32}
  }

  /** Extensions: nothing, or a semicolon and anything after it. */
  predicate Extensions(s: bytes) {
    s == [] || s[0] == ';' as int
  }

  lemma {:induction false} TrimEndInside(front: bytes, b: byte, s: bytes)
    requires !IsSpace(b)
    ensures TrimEnd(front + [b] + s) == front + [b] + TrimEnd(s)
  {
    if s == [] {
      assert front + [b] + s == front + [b];
    } else {
      var init, last := s[..|s| - 1], s[|s| - 1];
      var all := front + [b] + s;
      assert all[|all| - 1] == last && all[..|all| - 1] == front + [b] + init;
      if IsSpace(last) {
        TrimEndInside(front, b, init);
      }
    }
  }

  lemma {:induction false} TrimStartBlank(before: bytes, s: bytes)
    requires Blank(before)
    ensures TrimStart(before + s) == TrimStart(s)
  {
    if before == [] {
      assert before + s == s;
    } else {
      SpaceIff(before[0]);
      assert (before + s)[1..] == before[1..] + s;
      TrimStartBlank(before[1..], s);
    }
  }

  /** Digits of either case, white space around them and extensions after them: the size is
      the number the digits denote in base 16, unless it is too large. */
  lemma SizeReads(before: bytes, digits: bytes, middle: bytes, extensions: bytes)
    requires Blank(before) && Blank(middle) && Extensions(extensions)
    requires digits != [] && forall i :: 0 <= i < |digits| ==> DigitValue(digits[i]) < 16
    ensures
      var n := Positional(digits, 16);
      ChunkSize(before + digits + middle + extensions) == if n <= 0xffff_ffff_ffff_ffff then Some(n) else None
  {
    hide ParseUnsigned, Trim, Positional;
    DigitsSolid(digits);
    SizeText(before, digits, middle, extensions);
    DigitsWrite(digits);
    var n := Positional(digits, 16);
    ParseUnsignedIff(digits, 16, USIZE_MAX, n);
    var parsed := ParseUnsigned(digits, 16, USIZE_MAX);
    if parsed.Some? {
      ParseUnsignedIff(digits, 16, USIZE_MAX, parsed.value);
    }
  }

  lemma DigitsSolid(digits: bytes)
    requires forall i :: 0 <= i < |digits| ==> DigitValue(digits[i]) < 16
    ensures forall i :: 0 <= i < |digits| ==> !IsSpace(digits[i]) && digits[i] != SEMICOLON && digits[i] != PLUS
  {
    forall i | 0 <= i < |digits|
      ensures !IsSpace(digits[i]) && digits[i] != SEMICOLON && digits[i] != PLUS
    {
      DigitIs(digits[i]);
    }
  }

  lemma DigitsWrite(digits: bytes)
    requires digits != [] && forall i :: 0 <= i < |digits| ==> DigitValue(digits[i]) < 16 && digits[i] != PLUS
    ensures forall n :: Writes(digits, 16, n) <==> n == Positional(digits, 16)
  {
    assert PLUS == '+' as int;
    assert Unsigned(digits) == digits;
  }

  /** What is left of a size line once its ends and extensions are gone. */
  lemma SizeText(before: bytes, digits: bytes, middle: bytes, extensions: bytes)
    requires Blank(before) && Blank(middle) && Extensions(extensions) && digits != []
    requires forall i :: 0 <= i < |digits| ==> !IsSpace(digits[i]) && digits[i] != SEMICOLON
    ensures
      var text := Trim(before + digits + middle + extensions);
      Trim(text[..IndexOf(text, SEMICOLON)]) == digits
  {
    hide Trim;
    SolidSpaces(digits);
    var none: bytes := [];
    if extensions == [] {
      assert before + digits + middle + extensions == before + digits + middle;
      TrimIs(before, digits, middle);
      NoSemicolon(digits);
      assert none + digits + none == digits;
      TrimIs([], digits, []);
    } else {
      BeforeExtensions(before, digits, middle, extensions);
      assert none + digits + middle == digits + middle;
      TrimIs([], digits, middle);
    }
  }

  lemma BeforeExtensions(before: bytes, digits: bytes, middle: bytes, extensions: bytes)
    requires Blank(before) && Blank(middle) && Extensions(extensions) && digits != [] && extensions != []
    requires forall i :: 0 <= i < |digits| ==> !IsSpace(digits[i]) && digits[i] != SEMICOLON
    ensures
      var text := Trim(before + digits + middle + extensions);
      text[..IndexOf(text, SEMICOLON)] == digits + middle
  {
    hide TrimEnd;
    var more := extensions[1..];
    var front := digits + middle;
    assert before + digits + middle + extensions == before + (front + [SEMICOLON] + more);
    TrimStartBlank(before, front + [SEMICOLON] + more);
    assert (front + [SEMICOLON] + more)[0] == digits[0];
    TrimEndInside(front, SEMICOLON, more);
    NoSemicolonBefore(digits, middle);
    var text := front + [SEMICOLON] + TrimEnd(more);
    IndexOfIs(text, SEMICOLON, |front|);
  }

  lemma SolidSpaces(digits: bytes)
    requires digits != [] && forall i :: 0 <= i < |digits| ==> !IsSpace(digits[i])
    ensures digits[0] !in {9, 10, 11, 12, 13, 32} && digits[|digits| - 1] !in {9, 10, 11, 12, 13, 32}
  {
    SpaceIff(digits[0]);
    SpaceIff(digits[|digits| - 1]);
  }

  lemma NoSemicolon(digits: bytes)
    requires SEMICOLON !in digits
    ensures digits[..IndexOf(digits, SEMICOLON)] == digits
  {
  }

  lemma NoSemicolonBefore(digits: bytes, middle: bytes)
    requires SEMICOLON !in digits && Blank(middle)
    ensures SEMICOLON !in digits + middle
  {
  }

  /** The bounded decoder reads size lines of at most 32 bytes, line feed included. */
  lemma SizeLineLimit(line: bytes, rest: bytes, end: End, cap: nat, got: nat)
    requires LF !in line
    ensures |line| + 1 > 32 ==> DecodeChunks(line + [LF] + rest, end, cap, got) == Err(HeaderLineTooLong)
    ensures |line| + 1 <= 32 && ChunkSize(line).None? ==>
      DecodeChunks(line + [LF] + rest, end, cap, got) == Err(Malformed)
    ensures |line| + 1 <= 32 && ChunkSize(line).Some? ==>
      DecodeChunks(line + [LF] + rest, end, cap, got) == DecodeSized(rest, ChunkSize(line).value, end, cap, got)
  {
    hide ReadLine, ChunkSize, DecodeSized;
    ReadWholeLine(line, rest, end, MAX_CHUNK_SIZE_LINE_BYTES, HeaderLineTooLong);
    SizeIgnoresTrailing(line, LF);
  }

  // ---------------------------------------------------------------- a body's text

  /** Every chunk is its size in hexadecimal digits and its bytes, each followed by a line
      end; the size 0 and an empty line come last. */
  lemma EncodedText(chunks: seq<bytes>)
    ensures
      if chunks == [] then Encode(chunks) == Ascii("0\r\n\r\n")
      else
        Encode(chunks)
        == Format(|chunks[0]|, 16) + Ascii("\r\n") + chunks[0] + Ascii("\r\n") + Encode(chunks[1..])
  {
    LineEnd();
    hide Format;
    if chunks != [] {
      hide Ascii, Encode;
      assert Encode(chunks) == EncodeChunk(chunks[0]) + Encode(chunks[1..]) by {
        EncodeFirst(chunks);
      }
    }
  }

  lemma LineEnd()
    ensures Ascii("\r\n") == CRLF
  {
  }

  lemma EncodeFirst(chunks: seq<bytes>)
    requires chunks != []
    ensures Encode(chunks) == EncodeChunk(chunks[0]) + Encode(chunks[1..])
  {
  }
}
