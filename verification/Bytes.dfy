/** Byte strings and the text operations the HTTP code applies to them.  White space
    and case are those of ASCII. */
module Bytes {
  import opened Arithmetic
  import opened Wrappers

  type byte = x: int | 0 <= x < 256
  type bytes = seq<byte>

  const TAB: byte := 9
  const LF: byte := 10
  const CR: byte := 13
  const SP: byte := 32
  const PLUS: byte := 43
  const COLON: byte := 58
  const SEMICOLON: byte := 59
  const CRLF: bytes := [13, 10]

  const USIZE_MAX: nat := 0xffff_ffff_ffff_ffff

  function Ascii(s: string): (b: bytes)
    requires forall i :: 0 <= i < |s| ==> s[i] < 128 as char
    ensures |b| == |s| && forall i :: 0 <= i < |s| ==> b[i] == s[i] as int
  {
    seq(|s|, i requires 0 <= i < |s| => s[i] as int)
  }

  function Flatten(pieces: seq<bytes>): bytes {
    if pieces == [] then [] else pieces[0] + Flatten(pieces[1..])
  }

  // ---------------------------------------------------------------- searching

  /** The first index of `b`, or the length when it does not occur. */
  function IndexOf(s: bytes, b: byte): (i: nat)
    ensures i <= |s|
    ensures i < |s| ==> s[i] == b
    ensures forall j :: 0 <= j < i ==> s[j] != b
  {
    if s == [] || s[0] == b then 0 else 1 + IndexOf(s[1..], b)
  }

  lemma IndexOfIs(s: bytes, b: byte, i: nat)
    requires i < |s| && s[i] == b && b !in s[..i]
    ensures IndexOf(s, b) == i
  {
    assert forall j :: 0 <= j < i ==> s[..i][j] == s[j];
  }

  lemma IndexOfPrefix(s: bytes, more: bytes, b: byte)
    requires IndexOf(s, b) < |s|
    ensures IndexOf(s + more, b) == IndexOf(s, b)
  {
    var i := IndexOf(s, b);
    assert (s + more)[..i] == s[..i];
    IndexOfIs(s + more, b, i);
  }

  // ---------------------------------------------------------------- trimming

  predicate IsSpace(b: byte) {
    TAB <= b <= CR || b == SP
  }

  predicate NoSpace(s: bytes) {
    forall i :: 0 <= i < |s| ==> !IsSpace(s[i])
  }

  function TrimStart(s: bytes): (t: bytes)
    ensures |t| <= |s|
    ensures t != [] ==> !IsSpace(t[0])
  {
    if s != [] && IsSpace(s[0]) then TrimStart(s[1..]) else s
  }

  function TrimEnd(s: bytes): (t: bytes)
    ensures |t| <= |s| && t == s[..|t|]
    ensures t != [] ==> !IsSpace(t[|t| - 1])
  {
    if s != [] && IsSpace(s[|s| - 1]) then TrimEnd(s[..|s| - 1]) else s
  }

  function Trim(s: bytes): (t: bytes)
    ensures |t| <= |s|
  {
    TrimEnd(TrimStart(s))
  }

  lemma TrimFixed(s: bytes)
    requires s != [] ==> !IsSpace(s[0]) && !IsSpace(s[|s| - 1])
    ensures Trim(s) == s
  {
  }

  lemma TrimLeading(b: byte, s: bytes)
    requires IsSpace(b)
    ensures Trim([b] + s) == Trim(s)
  {
    assert ([b] + s)[1..] == s;
  }

  lemma {:induction false} TrimStartAppend(s: bytes, b: byte)
    requires IsSpace(b)
    ensures TrimStart(s + [b]) == if TrimStart(s) == [] then [] else TrimStart(s) + [b]
  {
    if s == [] {
      assert s + [b] == [b];
      assert TrimStart([b][1..]) == [];
    } else {
      assert (s + [b])[1..] == s[1..] + [b];
      TrimStartAppend(s[1..], b);
    }
  }

  lemma TrimTrailing(s: bytes, b: byte)
    requires IsSpace(b)
    ensures Trim(s + [b]) == Trim(s)
  {
    TrimStartAppend(s, b);
    var t := TrimStart(s);
    assert (t + [b])[..|t|] == t;
  }

  predicate IsEol(b: byte) {
    b == CR || b == LF
  }

  /** Drop every trailing carriage return and line feed. */
  function TrimEol(s: bytes): (t: bytes)
    ensures |t| <= |s| && t == s[..|t|]
    ensures t != [] ==> !IsEol(t[|t| - 1])
    ensures forall i :: |t| <= i < |s| ==> IsEol(s[i])
  {
    if s != [] && IsEol(s[|s| - 1]) then TrimEol(s[..|s| - 1]) else s
  }

  lemma TrimEolStep(s: bytes, b: byte)
    requires IsEol(b)
    ensures TrimEol(s + [b]) == TrimEol(s)
  {
    assert (s + [b])[..|s|] == s;
  }

  lemma TrimEolCrlf(s: bytes)
    requires s != [] ==> !IsEol(s[|s| - 1])
    ensures TrimEol(s + CRLF) == s
  {
    assert s + CRLF == s + [CR] + [LF];
    TrimEolStep(s + [CR], LF);
    TrimEolStep(s, CR);
  }

  // ---------------------------------------------------------------- case and fields

  function LowerByte(b: byte): byte {
    if 65 <= b <= 90 then b + 32 else b
  }

  function ToLower(s: bytes): (t: bytes)
    ensures |t| == |s| && forall i :: 0 <= i < |s| ==> t[i] == LowerByte(s[i])
  {
    seq(|s|, i requires 0 <= i < |s| => LowerByte(s[i]))
  }

  /** The parts before and after the first `b`. */
  function SplitOnce(s: bytes, b: byte): (r: Option<(bytes, bytes)>)
    ensures r.Some? <==> b in s
    ensures r.Some? ==> s == r.value.0 + [b] + r.value.1 && b !in r.value.0
  {
    var i := IndexOf(s, b);
    if i == |s| then None
    else
      assert s == s[..i] + [b] + s[i + 1..];
      Some((s[..i], s[i + 1..]))
  }

  lemma SplitOnceAt(left: bytes, b: byte, right: bytes)
    requires b !in left
    ensures SplitOnce(left + [b] + right, b) == Some((left, right))
  {
    var s := left + [b] + right;
    assert s[..|left|] == left && s[|left| + 1..] == right;
    IndexOfIs(s, b, |left|);
  }

  // ---------------------------------------------------------------- words

  function WordLength(s: bytes): (n: nat)
    ensures n <= |s|
    ensures forall i :: 0 <= i < n ==> !IsSpace(s[i])
    ensures n < |s| ==> IsSpace(s[n])
  {
    if s == [] || IsSpace(s[0]) then 0 else 1 + WordLength(s[1..])
  }

  function Words(s: bytes): seq<bytes>
    decreases |s|
  {
    var t := TrimStart(s);
    if t == [] then [] else [t[..WordLength(t)]] + Words(t[WordLength(t)..])
  }

  lemma FirstWord(word: bytes, b: byte, rest: bytes)
    requires word != [] && NoSpace(word) && IsSpace(b)
    ensures Words(word + [b] + rest) == [word] + Words(rest)
  {
    var s := word + [b] + rest;
    assert s[0] == word[0];
    var n := WordLength(s);
    assert n == |word| by {
      assert forall i :: 0 <= i < |word| ==> s[i] == word[i];
      assert s[|word|] == b;
    }
    assert s[..n] == word;
    assert s[n..] == [b] + rest;
    assert ([b] + rest)[1..] == rest;
    assert TrimStart([b] + rest) == TrimStart(rest);
  }

  // ---------------------------------------------------------------- numbers

  predicate IsRadix(radix: nat) {
    radix == 10 || radix == 16
  }

  /** The value of a digit; at least `radix` when it is none. */
  function DigitValue(b: byte): nat {
    if 48 <= b <= 57 then b - 48
    else if 97 <= b <= 102 then b - 87
    else if 65 <= b <= 70 then b - 55
    else 99
  }

  function Digit(d: nat): (b: byte)
    requires d < 16
    ensures DigitValue(b) == d && !IsSpace(b) && b != PLUS && b != COLON && b != SEMICOLON
  {
    if d < 10 then 48 + d else 87 + d
  }

  predicate AllDigits(s: bytes, radix: nat) {
    forall i :: 0 <= i < |s| ==> DigitValue(s[i]) < radix
  }

  function Value(s: bytes, radix: nat): nat {
    if s == [] then 0 else Value(s[..|s| - 1], radix) * radix + DigitValue(s[|s| - 1])
  }

  /** Rust's `from_str_radix` for an unsigned type with the given maximum: an optional
      plus sign, then at least one digit, and no overflow. */
  function ParseUnsigned(s: bytes, radix: nat, max: nat): Option<nat>
    requires IsRadix(radix)
  {
    var digits := if s != [] && s[0] == PLUS then s[1..] else s;
    if digits == [] || !AllDigits(digits, radix) || Value(digits, radix) > max then None
    else Some(Value(digits, radix))
  }

  function Format(n: nat, radix: nat): (s: bytes)
    requires IsRadix(radix)
    ensures s != []
    decreases n
  {
    if n < radix then [Digit(n)] else Format(n / radix, radix) + [Digit(n % radix)]
  }

  lemma ValueAppend(front: bytes, b: byte, radix: nat)
    ensures Value(front + [b], radix) == Value(front, radix) * radix + DigitValue(b)
  {
    assert (front + [b])[..|front|] == front;
  }

  lemma {:induction false} FormatValue(n: nat, radix: nat)
    requires IsRadix(radix)
    ensures Value(Format(n, radix), radix) == n
    decreases n
  {
    hide Value;
    if n < radix {
      ValueAppend([], Digit(n), radix);
      assert [] + [Digit(n)] == [Digit(n)];
      NoValue(radix);
    } else {
      FormatValue(n / radix, radix);
      ValueAppend(Format(n / radix, radix), Digit(n % radix), radix);
    }
  }

  lemma NoValue(radix: nat)
    ensures Value([], radix) == 0
  {
  }

  /** A digit of some number in this radix, as it is printed. */
  predicate IsDigit(b: byte, radix: nat) {
    exists d: nat :: d < radix && d < 16 && b == Digit(d)
  }

  lemma {:induction false} FormatIsDigits(n: nat, radix: nat)
    requires IsRadix(radix)
    ensures forall i :: 0 <= i < |Format(n, radix)| ==> IsDigit(Format(n, radix)[i], radix)
    decreases n
  {
    if n >= radix {
      FormatIsDigits(n / radix, radix);
    }
  }

  lemma FormatDigits(n: nat, radix: nat)
    requires IsRadix(radix)
    ensures AllDigits(Format(n, radix), radix) && Value(Format(n, radix), radix) == n
    ensures NoSpace(Format(n, radix)) && Format(n, radix)[0] != PLUS && SEMICOLON !in Format(n, radix)
  {
    FormatValue(n, radix);
    FormatIsDigits(n, radix);
    hide Value;
  }

  /** Printing a number and reading it back gives the number, unless it is too large. */
  lemma ParseFormat(n: nat, radix: nat, max: nat)
    requires IsRadix(radix)
    ensures ParseUnsigned(Format(n, radix), radix, max) == if n <= max then Some(n) else None
  {
    FormatDigits(n, radix);
  }

  lemma {:induction false} HexLength(n: nat, k: nat)
    requires n < Power(16, k) && k > 0
    ensures |Format(n, 16)| <= k
  {
    if n >= 16 {
      HexLength(n / 16, k - 1);
    }
  }

  lemma UsizeHexLength(n: nat)
    requires n <= USIZE_MAX
    ensures |Format(n, 16)| <= 16
  {
    assert Power(16, 4) == 0x1_0000;
    assert Power(16, 8) == 0x1_0000_0000;
    assert Power(16, 12) == 0x1_0000_0000_0000;
    assert Power(16, 16) == 0x1_0000_0000_0000_0000;
    HexLength(n, 16);
  }

  // ---------------------------------------------------------------- padded hexadecimal

  const ZERO: byte := 48

  function PadTo(s: bytes, width: nat): (r: bytes)
    ensures |r| == if |s| < width then width else |s|
    decreases width - |s|
  {
    if |s| >= width then s else PadTo([ZERO] + s, width)
  }

  /** Lower-case hexadecimal, filled with zeros to at least `width` digits. */
  function PaddedHex(n: nat, width: nat): (s: bytes)
    ensures |s| >= width
  {
    PadTo(Format(n, 16), width)
  }

  lemma {:induction false} LeadingZero(s: bytes, radix: nat)
    ensures Value([ZERO] + s, radix) == Value(s, radix)
  {
    if s == [] {
      assert ([ZERO] + s)[..0] == [];
    } else {
      var front := s[..|s| - 1];
      assert ([ZERO] + s)[..|s|] == [ZERO] + front;
      LeadingZero(front, radix);
    }
  }

  lemma {:induction false} PadKeepsValue(s: bytes, width: nat)
    ensures Value(PadTo(s, width), 16) == Value(s, 16)
    decreases width - |s|
  {
    if |s| < width {
      LeadingZero(s, 16);
      PadKeepsValue([ZERO] + s, width);
    }
  }

  lemma PaddedHexInjective(a: nat, b: nat, width: nat)
    requires PaddedHex(a, width) == PaddedHex(b, width)
    ensures a == b
  {
    FormatDigits(a, 16);
    FormatDigits(b, 16);
    PadKeepsValue(Format(a, 16), width);
    PadKeepsValue(Format(b, 16), width);
  }
}
