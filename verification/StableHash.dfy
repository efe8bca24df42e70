/** The 64-bit FNV-1a fingerprint that shows when a configuration has drifted. */
module StableHash {
  import opened Arithmetic
  import opened Bytes

  const MODULUS: nat := 0x1_0000_0000_0000_0000
  const OFFSET: u64 := 0xcbf2_9ce4_8422_2325
  const PRIME: nat := 0x100_0000_01b3
  const INVERSE: nat := 0xce96_5057_aff6_957b

  type u64 = x: int | 0 <= x < 0x1_0000_0000_0000_0000

  /** Exclusive or, bit by bit. */
  function Xor(a: nat, b: nat): nat
    decreases a + b
  {
    if a == 0 && b == 0 then 0 else (a + b) % 2 + 2 * Xor(a / 2, b / 2)
  }

  lemma {:induction false} XorFits(a: nat, b: nat, k: nat)
    requires a < Power(2, k) && b < Power(2, k)
    ensures Xor(a, b) < Power(2, k)
  {
    if k > 0 && (a > 0 || b > 0) {
      XorFits(a / 2, b / 2, k - 1);
    }
  }

  lemma WordSize()
    ensures Power(2, 64) == MODULUS
  {
    assert Power(2, 8) == 0x100;
    assert Power(2, 16) == 0x1_0000;
    assert Power(2, 24) == 0x100_0000;
    assert Power(2, 32) == 0x1_0000_0000;
    assert Power(2, 40) == 0x100_0000_0000;
    assert Power(2, 48) == 0x1_0000_0000_0000;
    assert Power(2, 56) == 0x100_0000_0000_0000;
  }

  function Mix(hash: u64, b: byte): u64 {
    WordSize();
    XorFits(hash, b, 64);
    Xor(hash, b)
  }

  /** Wrapping multiplication by the FNV prime. */
  function Scale(hash: u64): u64 {
    hash * PRIME % MODULUS
  }

  function Step(hash: u64, b: byte): u64 {
    Scale(Mix(hash, b))
  }

  function Fold(hash: u64, input: bytes): u64
    decreases |input|
  {
    if input == [] then hash else Fold(Step(hash, input[0]), input[1..])
  }

  function Fingerprint(input: bytes): bytes {
    PaddedHex(Fold(OFFSET, input), 16)
  }

  method StableHash(input: bytes) returns (hex: bytes)
    ensures hex == Fingerprint(input)
  {
    hide PaddedHex, Mix, Scale;
    var hash := OFFSET;
    for i := 0 to |input|
      invariant Fold(hash, input[i..]) == Fold(OFFSET, input)
    {
      assert input[i..][1..] == input[i + 1..];
      hash := Mix(hash, input[i]);
      hash := Scale(hash);
    }
    return PaddedHex(hash, 16);
  }

  // ---------------------------------------------------------------- every step can be undone

  /** Wrapping multiplication by the prime's inverse. */
  function Unscale(hash: u64): u64 {
    hash * INVERSE % MODULUS
  }

  function Unstep(hash: u64, b: byte): u64 {
    Mix(Unscale(hash), b)
  }

  /** Multiplying by `p` and then by `q` modulo `m` gives back the value when p * q is 1. */
  lemma ModularInverse(x: nat, p: nat, q: nat, m: nat, k: nat)
    requires x < m && p * q == 1 + k * m
    ensures x * p % m * q % m == x
  {
    var y, t := x * p % m, x * p / m;
    assert x * p == t * m + y;
    calc {
      y * q;
      (x * p - t * m) * q;
      { assert (x * p) * q == x * (p * q) && (t * m) * q == (t * q) * m; }
      x * (1 + k * m) - (t * q) * m;
      { assert x * (k * m) == (x * k) * m; }
      x + (x * k - t * q) * m;
    }
    RemainderIs(y * q, x * k - t * q, m, x);
  }

  lemma ScaleBijective(x: u64)
    ensures Unscale(Scale(x)) == x && Scale(Unscale(x)) == x
  {
    var k := PRIME * INVERSE / MODULUS;
    assert PRIME * INVERSE == 1 + k * MODULUS;
    ModularInverse(x, PRIME, INVERSE, MODULUS, k);
    ModularInverse(x, INVERSE, PRIME, MODULUS, k);
  }

  lemma XorBits(a: nat, b: nat)
    ensures Xor(a, b) == (a + b) % 2 + 2 * Xor(a / 2, b / 2)
  {
  }

  lemma XorStep(bit: nat, rest: nat, b: nat)
    requires bit < 2
    ensures Xor(bit + 2 * rest, b) == (bit + b) % 2 + 2 * Xor(rest, b / 2)
  {
    hide Xor;
    XorBits(bit + 2 * rest, b);
    assert (bit + 2 * rest) / 2 == rest;
  }

  lemma Parity(a: nat, b: nat)
    ensures ((a + b) % 2 + b) % 2 + 2 * (a / 2) == a
  {
  }

  lemma {:induction false} XorTwice(a: nat, b: nat)
    ensures Xor(Xor(a, b), b) == a
    decreases a + b
  {
    hide Xor;
    if a > 0 || b > 0 {
      XorTwice(a / 2, b / 2);
      XorBits(a, b);
      XorStep((a + b) % 2, Xor(a / 2, b / 2), b);
      Parity(a, b);
    } else {
      XorNothing();
    }
  }

  lemma XorNothing()
    ensures Xor(0, 0) == 0
  {
  }

  lemma {:induction false} XorSwap(a: nat, b: nat)
    ensures Xor(a, b) == Xor(b, a)
    decreases a + b
  {
    if a > 0 || b > 0 {
      XorSwap(a / 2, b / 2);
    }
  }

  lemma MixTellsBytes(x: u64, a: byte, b: byte)
    requires Mix(x, a) == Mix(x, b)
    ensures a == b
  {
    XorSwap(x, a);
    XorSwap(x, b);
    XorTwice(a, x);
    XorTwice(b, x);
  }

  /** Whatever the byte, a step maps the 64-bit values one to one onto themselves. */
  lemma StepBijective(hash: u64, b: byte)
    ensures Unstep(Step(hash, b), b) == hash
    ensures Step(Unstep(hash, b), b) == hash
  {
    hide Xor, Scale, Unscale;
    XorTwice(hash, b);
    XorTwice(Unscale(hash), b);
    ScaleBijective(Mix(hash, b));
    ScaleBijective(hash);
  }

  /** From the same value, different bytes lead to different values. */
  lemma StepTellsBytes(hash: u64, a: byte, b: byte)
    requires Step(hash, a) == Step(hash, b)
    ensures a == b
  {
    hide Mix, Scale, Unscale;
    ScaleBijective(Mix(hash, a));
    ScaleBijective(Mix(hash, b));
    MixTellsBytes(hash, a, b);
  }

  // ---------------------------------------------------------------- what the fingerprint tells apart

  lemma {:induction false} FoldInjective(h: u64, k: u64, input: bytes)
    ensures Fold(h, input) == Fold(k, input) <==> h == k
    decreases |input|
  {
    if input != [] {
      hide Step, Unstep;
      StepBijective(h, input[0]);
      StepBijective(k, input[0]);
      FoldInjective(Step(h, input[0]), Step(k, input[0]), input[1..]);
    }
  }

  lemma {:induction false} FoldAppend(h: u64, a: bytes, b: bytes)
    ensures Fold(h, a + b) == Fold(Fold(h, a), b)
    decreases |a|
  {
    hide Step;
    if a == [] {
      assert a + b == b;
    } else {
      assert (a + b)[1..] == a[1..] + b;
      FoldAppend(Step(h, a[0]), a[1..], b);
    }
  }

  /** A common suffix neither merges nor separates two fingerprints. */
  lemma CommonSuffix(a: bytes, b: bytes, suffix: bytes)
    ensures Fingerprint(a + suffix) == Fingerprint(b + suffix) <==> Fingerprint(a) == Fingerprint(b)
  {
    hide PaddedHex, Fold;
    FoldAppend(OFFSET, a, suffix);
    FoldAppend(OFFSET, b, suffix);
    FoldInjective(Fold(OFFSET, a), Fold(OFFSET, b), suffix);
    SameFingerprint(a, b);
    SameFingerprint(a + suffix, b + suffix);
  }

  lemma SameFingerprint(a: bytes, b: bytes)
    ensures Fingerprint(a) == Fingerprint(b) <==> Fold(OFFSET, a) == Fold(OFFSET, b)
  {
    hide PaddedHex, Fold;
    if Fingerprint(a) == Fingerprint(b) {
      PaddedHexInjective(Fold(OFFSET, a), Fold(OFFSET, b), 16);
    }
  }

  /** Inputs of equal length that differ in exactly one byte have different fingerprints. */
  lemma OneByteChanged(a: bytes, b: bytes, i: nat)
    requires |a| == |b| && i < |a| && a[i] != b[i]
    requires forall j :: 0 <= j < |a| && j != i ==> a[j] == b[j]
    ensures Fingerprint(a) != Fingerprint(b)
  {
    hide PaddedHex, Fold, Step;
    var front, back := a[..i], a[i + 1..];
    assert a == front + [a[i]] + back;
    assert b == front + [b[i]] + back;
    CommonSuffix(front + [a[i]], front + [b[i]], back);
    SameFingerprint(front + [a[i]], front + [b[i]]);
    LastByte(front, a[i]);
    LastByte(front, b[i]);
    if Step(Fold(OFFSET, front), a[i]) == Step(Fold(OFFSET, front), b[i]) {
      StepTellsBytes(Fold(OFFSET, front), a[i], b[i]);
    }
  }

  lemma LastByte(front: bytes, b: byte)
    ensures Fold(OFFSET, front + [b]) == Step(Fold(OFFSET, front), b)
  {
    hide Step;
    FoldAppend(OFFSET, front, [b]);
    assert [b][1..] == [];
  }

  // ---------------------------------------------------------------- bits and published values

  function Bit(a: nat, i: nat): nat {
    if i == 0 then a % 2 else Bit(a / 2, i - 1)
  }

  /** A bit of the exclusive or is set exactly when it is set in one of the two numbers. */
  lemma {:induction false} XorAt(a: nat, b: nat, i: nat)
    ensures Bit(Xor(a, b), i) == if Bit(a, i) != Bit(b, i) then 1 else 0
    decreases i
  {
    hide Xor;
    XorBits(a, b);
    if i > 0 {
      XorAt(a / 2, b / 2, i - 1);
    }
  }

  lemma {:induction false} XorZero(a: nat)
    ensures Xor(a, 0) == a
  {
    if a > 0 {
      XorZero(a / 2);
    }
  }

  /** The published value for "a". */
  lemma OfOneLetter()
    ensures Fold(OFFSET, Ascii("a")) == 0xaf63_dc4c_8601_ec8c
  {
    assert Ascii("a") == [97];
    LowBits();
    LastByte([], 97);
    assert [] + [97] == [97];
    assert Mix(OFFSET, 97) == 0xcbf2_9ce4_8422_2344;
    Product();
    hide Mix, Scale, Fold;
  }

  lemma Product()
    ensures Scale(0xcbf2_9ce4_8422_2344) == 0xaf63_dc4c_8601_ec8c
  {
  }

  lemma LowBits()
    ensures Xor(0xcbf2_9ce4_8422_2325, 97) == 0xcbf2_9ce4_8422_2344
  {
    hide Xor;
    XorZero(0x197_e539_c908_4446);
    XorStep(0, 0x197_e539_c908_4446, 1);
    XorStep(1, 0x32f_ca73_9210_888c, 3);
    XorStep(0, 0x65f_94e7_2421_1119, 6);
    XorStep(0, 0xcbf_29ce_4842_2232, 12);
    XorStep(1, 0x197e_539c_9084_4464, 24);
    XorStep(0, 0x32fc_a739_2108_88c9, 48);
    XorStep(1, 0x65f9_4e72_4211_1192, 97);
  }
}
