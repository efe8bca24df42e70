/** Cutting UTF-8 text between characters. */
module CharBoundary {
  import opened Bytes

  predicate Continuation(b: byte) {
    0x80 <= b < 0xC0
  }

  /** An encoded character: a leading byte and up to three continuation bytes. */
  predicate IsChar(c: bytes) {
    1 <= |c| <= 4 && !Continuation(c[0]) && forall i :: 0 < i < |c| ==> Continuation(c[i])
  }

  predicate IsBoundary(text: bytes, i: nat) {
    i == 0 || i == |text| || (i < |text| && !Continuation(text[i]))
  }

  /** The longest prefix of at most `max` bytes that ends at a boundary. */
  function Truncated(text: bytes, max: nat): (r: bytes)
    ensures |r| <= max && r <= text && IsBoundary(text, |r|)
    ensures forall i :: |r| < i <= max && i <= |text| ==> !IsBoundary(text, i)
  {
    if |text| <= max then text
    else if max == 0 || IsBoundary(text, max) then text[..max]
    else Truncated(text, max - 1)
  }

  lemma TruncatedIs(text: bytes, max: nat, n: nat)
    requires n <= max && n <= |text| && IsBoundary(text, n)
    requires forall i :: n < i <= max && i <= |text| ==> !IsBoundary(text, i)
    ensures Truncated(text, max) == text[..n]
  {
    var r := Truncated(text, max);
    assert |r| == n;
    assert r == text[..|r|];
  }

  method TruncateAtCharBoundary(text: bytes, maxBytes: nat) returns (r: bytes)
    ensures r == Truncated(text, maxBytes)
  {
    if |text| <= maxBytes {
      return text;
    }
    var max: nat := maxBytes;
    while max > 0 && !IsBoundary(text, max)
      invariant max <= maxBytes
      invariant forall i :: max < i <= maxBytes ==> !IsBoundary(text, i)
    {
      max := max - 1;
    }
    TruncatedIs(text, maxBytes, max);
    return text[..max];
  }

  // ---------------------------------------------------------------- whole characters

  /** The characters that fit whole into `max` bytes. */
  function Fitting(chars: seq<bytes>, max: nat): (r: seq<bytes>)
    ensures |r| <= |chars| && r == chars[..|r|]
    ensures |Flatten(r)| <= max
    ensures |r| < |chars| ==> |Flatten(r)| + |chars[|r|]| > max
  {
    if chars == [] || |chars[0]| > max then []
    else
      var more := Fitting(chars[1..], max - |chars[0]|);
      assert ([chars[0]] + more)[1..] == more;
      [chars[0]] + more
  }

  lemma BoundaryShift(c: bytes, rest: bytes, i: nat)
    requires IsChar(c)
    requires rest == [] || !Continuation(rest[0])
    ensures IsBoundary(c + rest, 0)
    ensures 0 < i < |c| ==> !IsBoundary(c + rest, i)
    ensures |c| <= i <= |c| + |rest| ==> (IsBoundary(c + rest, i) <==> IsBoundary(rest, i - |c|))
  {
  }

  lemma NextLeads(chars: seq<bytes>)
    requires forall i :: 0 <= i < |chars| ==> IsChar(chars[i])
    ensures Flatten(chars) == [] || !Continuation(Flatten(chars)[0])
  {
  }

  lemma TruncatedCons(c: bytes, rest: bytes, max: nat)
    requires IsChar(c)
    requires rest == [] || !Continuation(rest[0])
    ensures Truncated(c + rest, max) == if |c| > max then [] else c + Truncated(rest, max - |c|)
  {
    hide IsBoundary, IsChar;
    forall i: nat
      ensures IsBoundary(c + rest, 0)
      ensures 0 < i < |c| ==> !IsBoundary(c + rest, i)
      ensures |c| <= i <= |c| + |rest| ==> (IsBoundary(c + rest, i) <==> IsBoundary(rest, i - |c|))
    {
      BoundaryShift(c, rest, i);
    }
    if |c| > max {
      TruncatedIs(c + rest, max, 0);
    } else {
      var r := Truncated(rest, max - |c|);
      TruncatedIs(c + rest, max, |c| + |r|);
      assert (c + rest)[..|c| + |r|] == c + r;
    }
  }

  lemma FittingCons(chars: seq<bytes>, max: nat)
    requires chars != []
    ensures Flatten(Fitting(chars, max))
         == if |chars[0]| > max then [] else chars[0] + Flatten(Fitting(chars[1..], max - |chars[0]|))
  {
    if |chars[0]| <= max {
      var more := Fitting(chars[1..], max - |chars[0]|);
      assert ([chars[0]] + more)[1..] == more;
    }
  }

  /** Truncation keeps exactly the characters that fit: it splits none, and drops none it
      could have kept. */
  lemma {:induction false} TruncatedKeepsWholeChars(chars: seq<bytes>, max: nat)
    requires forall i :: 0 <= i < |chars| ==> IsChar(chars[i])
    ensures Truncated(Flatten(chars), max) == Flatten(Fitting(chars, max))
  {
    hide IsChar, Truncated, Fitting;
    if chars == [] {
      NothingToKeep(max);
    } else {
      NextLeads(chars[1..]);
      TruncatedCons(chars[0], Flatten(chars[1..]), max);
      FittingCons(chars, max);
      if |chars[0]| <= max {
        TruncatedKeepsWholeChars(chars[1..], max - |chars[0]|);
      }
    }
  }

  lemma NothingToKeep(max: nat)
    ensures Truncated([], max) == [] == Flatten(Fitting([], max))
  {
  }

  // ---------------------------------------------------------------- characters in UTF-8

  /** UTF-8 (section 3 of RFC 3629). */
  function Encoded(c: char): (r: bytes)
    ensures 1 <= |r| <= 4
  {
    var n := c as int;
    if n < 0x80 then [n]
    else if n < 0x800 then [0xC0 + n / 64, 0x80 + n % 64]
    else if n < 0x1_0000 then [0xE0 + n / 4096, 0x80 + n / 64 % 64, 0x80 + n % 64]
    else [0xF0 + n / 0x4_0000, 0x80 + n / 4096 % 64, 0x80 + n / 64 % 64, 0x80 + n % 64]
  }

  function Encodings(text: string): (r: seq<bytes>)
    ensures |r| == |text| && forall i :: 0 <= i < |text| ==> r[i] == Encoded(text[i])
  {
    seq(|text|, i requires 0 <= i < |text| => Encoded(text[i]))
  }

  function Utf8(text: string): bytes {
    Flatten(Encodings(text))
  }

  lemma EncodedIsChar(c: char)
    ensures IsChar(Encoded(c))
  {
  }

  /** A text is cut to as many of its characters as fit: no character is split, and one more
      would be too many. */
  lemma TextTruncated(text: string, max: nat) returns (n: nat)
    ensures n <= |text| && Truncated(Utf8(text), max) == Utf8(text[..n])
    ensures |Utf8(text[..n])| <= max && (n < |text| ==> |Utf8(text[..n + 1])| > max)
  {
    var chars := Encodings(text);
    forall i | 0 <= i < |chars|
      ensures IsChar(chars[i])
    {
      EncodedIsChar(text[i]);
    }
    TruncatedKeepsWholeChars(chars, max);
    hide IsChar, Truncated, Encoded, Flatten;
    n := |Fitting(chars, max)|;
    EncodingsPrefix(text, n);
    if n < |text| {
      EncodingsPrefix(text, n + 1);
      assert chars[..n + 1] == chars[..n] + [chars[n]];
      FlattenSnoc(chars[..n], chars[n]);
    }
  }

  lemma EncodingsPrefix(text: string, n: nat)
    requires n <= |text|
    ensures Encodings(text[..n]) == Encodings(text)[..n]
  {
  }

  lemma {:induction false} FlattenSnoc(pieces: seq<bytes>, piece: bytes)
    ensures Flatten(pieces + [piece]) == Flatten(pieces) + piece
  {
    if pieces != [] {
      assert (pieces + [piece])[1..] == pieces[1..] + [piece];
      FlattenSnoc(pieces[1..], piece);
    }
  }
}
