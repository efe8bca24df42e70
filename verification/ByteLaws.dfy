/** What the text operations mean, in terms of the bytes themselves. */
module ByteLaws {
  import opened Arithmetic
  import opened Bytes
  import opened Wrappers

  // ---------------------------------------------------------------- single bytes

  lemma SpaceIff(b: byte)
    ensures IsSpace(b) <==> b in {9, 10, 11, 12, 13, 32}
    ensures IsEol(b) <==> b in {13, 10}
  {
  }

  /** Only A to Z change case. */
  lemma LowerIs(b: byte)
    ensures LowerByte(b) == if 'A' as int <= b <= 'Z' as int then b + ('a' as int - 'A' as int) else b
  {
  }

  /** The digits of both cases. */
  lemma DigitIs(b: byte)
    ensures '0' as int <= b <= '9' as int ==> DigitValue(b) == b - '0' as int
    ensures 'a' as int <= b <= 'f' as int ==> DigitValue(b) == 10 + (b - 'a' as int)
    ensures 'A' as int <= b <= 'F' as int ==> DigitValue(b) == 10 + (b - 'A' as int)
    ensures DigitValue(b) < 16 <==>
      '0' as int <= b <= '9' as int || 'a' as int <= b <= 'f' as int || 'A' as int <= b <= 'F' as int
    ensures DigitValue(b) < 10 <==> '0' as int <= b <= '9' as int
  {
  }

  // ---------------------------------------------------------------- numbers

  /** The number a text of digits denotes, the most significant digit first. */
  function Positional(s: bytes, radix: nat): nat {
    if s == [] then 0 else DigitValue(s[0]) * Power(radix, |s| - 1) + Positional(s[1..], radix)
  }

  lemma {:induction false} PositionalSnoc(s: bytes, b: byte, radix: nat)
    ensures Positional(s + [b], radix) == Positional(s, radix) * radix + DigitValue(b)
  {
    if s == [] {
      assert (s + [b])[1..] == [];
    } else {
      assert (s + [b])[1..] == s[1..] + [b];
      PositionalSnoc(s[1..], b, radix);
      Shifted(DigitValue(s[0]), Power(radix, |s| - 1), Positional(s[1..], radix), radix);
    }
  }

  lemma Shifted(d: nat, p: nat, more: nat, radix: nat)
    ensures d * (radix * p) + (more * radix) == (d * p + more) * radix
  {
    assert d * (radix * p) == (d * p) * radix;
  }

  lemma {:induction false} ValueIsPositional(s: bytes, radix: nat)
    ensures Value(s, radix) == Positional(s, radix)
  {
    if s != [] {
      var front := s[..|s| - 1];
      ValueIsPositional(front, radix);
      PositionalSnoc(front, s[|s| - 1], radix);
      assert s == front + [s[|s| - 1]];
    }
  }

  /** A number's digits: an optional plus sign is not one. */
  function Unsigned(s: bytes): bytes {
    if s != [] && s[0] == '+' as int then s[1..] else s
  }

  /** A text writes a number with digits and nothing else. */
  predicate Writes(s: bytes, radix: nat, n: nat) {
    && Unsigned(s) != []
    && (forall i :: 0 <= i < |Unsigned(s)| ==> DigitValue(Unsigned(s)[i]) < radix)
    && Positional(Unsigned(s), radix) == n
  }

  /** Parsing finds the number a text writes, if it is within the type, and nothing else. */
  lemma ParseUnsignedIff(s: bytes, radix: nat, max: nat, n: nat)
    requires IsRadix(radix)
    ensures ParseUnsigned(s, radix, max) == Some(n) <==> Writes(s, radix, n) && n <= max
  {
    var digits := if s != [] && s[0] == PLUS then s[1..] else s;
    assert digits == Unsigned(s);
    ValueIsPositional(digits, radix);
  }

  /** Printed digits are those of lower case. */
  lemma {:induction false} FormatLower(n: nat, radix: nat)
    requires IsRadix(radix)
    ensures forall i :: 0 <= i < |Format(n, radix)| ==>
      '0' as int <= Format(n, radix)[i] <= '9' as int || 'a' as int <= Format(n, radix)[i] <= 'f' as int
    ensures n == 0 || Format(n, radix)[0] != '0' as int
    decreases n
  {
    if n >= radix {
      FormatLower(n / radix, radix);
    }
  }

  lemma {:induction false} FormatLength(n: nat, radix: nat, width: nat)
    requires IsRadix(radix) && n < Power(radix, width) && width > 0
    ensures |Format(n, radix)| <= width
    decreases n
  {
    if n >= radix {
      assert width > 1;
      FormatLength(n / radix, radix, width - 1);
    }
  }

  lemma {:induction false} PadToIs(s: bytes, width: nat)
    ensures
      var padded := PadTo(s, width);
      && (forall i :: 0 <= i < |padded| - |s| ==> padded[i] == '0' as int)
      && padded[|padded| - |s|..] == s
    decreases width - |s|
  {
    if |s| < width {
      PadToIs([ZERO] + s, width);
    }
  }

  /** The padded form of a number that fits: that many lower-case digits that write it. */
  lemma PaddedHexIs(n: nat, width: nat)
    requires width > 0 && n < Power(16, width)
    ensures
      var text := PaddedHex(n, width);
      && |text| == width && Positional(text, 16) == n
      && forall i :: 0 <= i < width ==>
        '0' as int <= text[i] <= '9' as int || 'a' as int <= text[i] <= 'f' as int
  {
    var digits, text := Format(n, 16), PaddedHex(n, width);
    FormatLength(n, 16, width);
    FormatLower(n, 16);
    PadToIs(digits, width);
    FormatValue(n, 16);
    PadKeepsValue(digits, width);
    ValueIsPositional(text, 16);
    forall i | width - |digits| <= i < width
      ensures text[i] == digits[i - (width - |digits|)]
    {
      assert text[width - |digits|..][i - (width - |digits|)] == text[i];
    }
  }

  // ---------------------------------------------------------------- words and trimming

  /** The words of a text are its stretches without white space. */
  lemma WordsAfterSpace(b: byte, s: bytes)
    ensures b in {9, 10, 11, 12, 13, 32} ==> Words([b] + s) == Words(s)
  {
    if IsSpace(b) {
      assert ([b] + s)[1..] == s;
    }
  }

  lemma WordsOfOne(word: bytes)
    requires word != [] && forall i :: 0 <= i < |word| ==> word[i] !in {9, 10, 11, 12, 13, 32}
    ensures Words(word) == [word]
  {
    var n := WordLength(word);
    assert n == |word| && word[..n] == word && word[n..] == [];
    assert Words([]) == [];
  }

  /** Trimming takes white space off both ends and nothing else. */
  lemma TrimIs(before: bytes, s: bytes, after: bytes)
    requires forall i :: 0 <= i < |before| ==> before[i] in {9, 10, 11, 12, 13, 32}
    requires forall i :: 0 <= i < |after| ==> after[i] in {9, 10, 11, 12, 13, 32}
    requires s != [] ==> s[0] !in {9, 10, 11, 12, 13, 32} && s[|s| - 1] !in {9, 10, 11, 12, 13, 32}
    ensures Trim(before + s + after) == s
    decreases |before| + |after|
  {
    if before != [] {
      assert before + s + after == [before[0]] + (before[1..] + s + after);
      TrimLeading(before[0], before[1..] + s + after);
      TrimIs(before[1..], s, after);
    } else if after != [] {
      var front, last := after[..|after| - 1], after[|after| - 1];
      assert before + s + after == (before + s + front) + [last];
      TrimTrailing(before + s + front, last);
      TrimIs(before, s, front);
    } else {
      assert before + s + after == s;
      TrimFixed(s);
    }
  }

  /** Trimming line ends takes carriage returns and line feeds off the end and nothing else. */
  lemma {:induction false} TrimEolIs(s: bytes, ends: bytes)
    requires forall i :: 0 <= i < |ends| ==> ends[i] in {10, 13}
    requires s != [] ==> s[|s| - 1] !in {10, 13}
    ensures TrimEol(s + ends) == s
    decreases |ends|
  {
    if ends == [] {
      assert s + ends == s;
    } else {
      var front, last := ends[..|ends| - 1], ends[|ends| - 1];
      assert s + ends == (s + front) + [last];
      TrimEolStep(s + front, last);
      TrimEolIs(s, front);
    }
  }
}
