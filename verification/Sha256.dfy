/** The SHA-256 digest that fingerprints a system prompt, against the recursive definition
    of FIPS 180-4. */
module Sha256 {
  import opened Arithmetic
  import opened Bytes

  // ---------------------------------------------------------------- constants

  const INITIAL_STATE: seq<bv32> := [
    0x6a09_e667, 0xbb67_ae85, 0x3c6e_f372, 0xa54f_f53a, 0x510e_527f, 0x9b05_688c, 0x1f83_d9ab, 0x5be0_cd19
  ]

  const ROUNDS_FROM_0: seq<bv32> := [
    0x428a_2f98, 0x7137_4491, 0xb5c0_fbcf, 0xe9b5_dba5, 0x3956_c25b, 0x59f1_11f1, 0x923f_82a4, 0xab1c_5ed5,
    0xd807_aa98, 0x1283_5b01, 0x2431_85be, 0x550c_7dc3, 0x72be_5d74, 0x80de_b1fe, 0x9bdc_06a7, 0xc19b_f174
  ]

  const ROUNDS_FROM_16: seq<bv32> := [
    0xe49b_69c1, 0xefbe_4786, 0x0fc1_9dc6, 0x240c_a1cc, 0x2de9_2c6f, 0x4a74_84aa, 0x5cb0_a9dc, 0x76f9_88da,
    0x983e_5152, 0xa831_c66d, 0xb003_27c8, 0xbf59_7fc7, 0xc6e0_0bf3, 0xd5a7_9147, 0x06ca_6351, 0x1429_2967
  ]

  const ROUNDS_FROM_32: seq<bv32> := [
    0x27b7_0a85, 0x2e1b_2138, 0x4d2c_6dfc, 0x5338_0d13, 0x650a_7354, 0x766a_0abb, 0x81c2_c92e, 0x9272_2c85,
    0xa2bf_e8a1, 0xa81a_664b, 0xc24b_8b70, 0xc76c_51a3, 0xd192_e819, 0xd699_0624, 0xf40e_3585, 0x106a_a070
  ]

  const ROUNDS_FROM_48: seq<bv32> := [
    0x19a4_c116, 0x1e37_6c08, 0x2748_774c, 0x34b0_bcb5, 0x391c_0cb3, 0x4ed8_aa4a, 0x5b9c_ca4f, 0x682e_6ff3,
    0x748f_82ee, 0x78a5_636f, 0x84c8_7814, 0x8cc7_0208, 0x90be_fffa, 0xa450_6ceb, 0xbef9_a3f7, 0xc671_78f2
  ]

  const ROUND_CONSTANTS: seq<bv32> := ROUNDS_FROM_0 + ROUNDS_FROM_16 + ROUNDS_FROM_32 + ROUNDS_FROM_48

  // ---------------------------------------------------------------- the standard's functions (section 4.1.2)

  function Rotr(n: nat, x: bv32): bv32
    requires 0 < n < 32
  {
    (x >> n) | (x << (32 - n))
  }

  /** Addition modulo 2^32. */
  function Add(x: bv32, y: bv32): bv32 {
    x + y
  }

  function Sum4(w: bv32, x: bv32, y: bv32, z: bv32): bv32 {
    w + x + y + z
  }

  function Sum5(v: bv32, w: bv32, x: bv32, y: bv32, z: bv32): bv32 {
    v + w + x + y + z
  }

  /** The standard's rotation is the one the program calls. */
  lemma RotrIs(x: bv32)
    ensures Rotr(2, x) == x.RotateRight(2) && Rotr(13, x) == x.RotateRight(13) && Rotr(22, x) == x.RotateRight(22)
    ensures Rotr(6, x) == x.RotateRight(6) && Rotr(11, x) == x.RotateRight(11) && Rotr(25, x) == x.RotateRight(25)
    ensures Rotr(7, x) == x.RotateRight(7) && Rotr(18, x) == x.RotateRight(18)
    ensures Rotr(17, x) == x.RotateRight(17) && Rotr(19, x) == x.RotateRight(19)
  {
  }

  function Ch(x: bv32, y: bv32, z: bv32): bv32 {
    (x & y) ^ (!x & z)
  }

  function Maj(x: bv32, y: bv32, z: bv32): bv32 {
    (x & y) ^ (x & z) ^ (y & z)
  }

  function Xor3(x: bv32, y: bv32, z: bv32): bv32 {
    x ^ y ^ z
  }

  function BigSigma0(x: bv32): bv32 {
    Xor3(Rotr(2, x), Rotr(13, x), Rotr(22, x))
  }

  function BigSigma1(x: bv32): bv32 {
    Xor3(Rotr(6, x), Rotr(11, x), Rotr(25, x))
  }

  function SmallSigma0(x: bv32): bv32 {
    Xor3(Rotr(7, x), Rotr(18, x), x >> 3)
  }

  function SmallSigma1(x: bv32): bv32 {
    Xor3(Rotr(17, x), Rotr(19, x), x >> 10)
  }

  // ---------------------------------------------------------------- padding (section 5.1.1)

  const LENGTH_MODULUS: nat := 0x1_0000_0000_0000_0000

  function Zeros(n: nat): (r: bytes)
    ensures |r| == n && forall i :: 0 <= i < n ==> r[i] == 0
  {
    seq(n, i => 0)
  }

  /** A number in `n` bytes, the most significant first. */
  function BigEndian(v: nat, n: nat): (r: bytes)
    ensures |r| == n
  {
    if n == 0 then [] else BigEndian(v / 256, n - 1) + [v % 256]
  }

  predicate FillsBlock(length: nat, zeros: nat) {
    (length + 1 + zeros) % 64 == 56
  }

  /** The fewest zero bytes that bring a message and its end mark to 56 modulo 64 bytes. */
  function ZeroCount(length: nat): (k: nat)
    ensures k < 64 && FillsBlock(length, k)
    ensures forall j: nat :: FillsBlock(length, j) ==> k <= j
  {
    (55 - length) % 64
  }

  function Padded(data: bytes): (r: bytes)
    ensures |r| == |data| + 1 + ZeroCount(|data|) + 8
  {
    data + [0x80] + Zeros(ZeroCount(|data|)) + BigEndian(8 * |data| % LENGTH_MODULUS, 8)
  }

  /** A padded message is a whole number of blocks. */
  lemma PaddedLength(data: bytes)
    ensures |Padded(data)| % 64 == 0
  {
    hide Padded;
    var zeros := ZeroCount(|data|);
    PaddedSize(data);
    assert FillsBlock(|data|, zeros);
    EightMore(|data| + 1 + zeros);
  }

  lemma PaddedSize(data: bytes)
    ensures |Padded(data)| == |data| + 1 + ZeroCount(|data|) + 8
  {
  }

  lemma EightMore(n: nat)
    requires n % 64 == 56
    ensures (n + 8) % 64 == 0
  {
  }

  // ---------------------------------------------------------------- hashing (sections 5.2.1 and 6.2.2)

  function Word(b: bytes): bv32
    requires |b| == 4
  {
    ((b[0] as bv32) << 24) | ((b[1] as bv32) << 16) | ((b[2] as bv32) << 8) | (b[3] as bv32)
  }

  /** Word `t` of the message schedule of a block. */
  function Schedule(block: bytes, t: nat): bv32
    requires |block| == 64
  {
    if t < 16 then Word(block[4 * t..4 * t + 4])
    else
      Sum4(SmallSigma1(Schedule(block, t - 2)), Schedule(block, t - 7),
           SmallSigma0(Schedule(block, t - 15)), Schedule(block, t - 16))
  }

  datatype Registers = Registers(a: bv32, b: bv32, c: bv32, d: bv32, e: bv32, f: bv32, g: bv32, h: bv32)

  function T1(r: Registers, k: bv32, w: bv32): bv32 {
    Sum5(r.h, BigSigma1(r.e), Ch(r.e, r.f, r.g), k, w)
  }

  function T2(r: Registers): bv32 {
    Add(BigSigma0(r.a), Maj(r.a, r.b, r.c))
  }

  function Round(r: Registers, k: bv32, w: bv32): Registers {
    Registers(Add(T1(r, k, w), T2(r)), r.a, r.b, r.c, Add(r.d, T1(r, k, w)), r.e, r.f, r.g)
  }

  /** The registers after the first `t` rounds on a block. */
  function Rounds(r: Registers, block: bytes, t: nat): Registers
    requires |block| == 64 && t <= 64
  {
    if t == 0 then r else Round(Rounds(r, block, t - 1), ROUND_CONSTANTS[t - 1], Schedule(block, t - 1))
  }

  type State = s: seq<bv32> | |s| == 8 witness [0, 0, 0, 0, 0, 0, 0, 0]

  function Load(s: State): Registers {
    Registers(s[0], s[1], s[2], s[3], s[4], s[5], s[6], s[7])
  }

  /** The intermediate hash value after one more block. */
  function Compressed(s: State, block: bytes): State
    requires |block| == 64
  {
    var r := Rounds(Load(s), block, 64);
    [Add(r.a, s[0]), Add(r.b, s[1]), Add(r.c, s[2]), Add(r.d, s[3]),
     Add(r.e, s[4]), Add(r.f, s[5]), Add(r.g, s[6]), Add(r.h, s[7])]
  }

  /** The intermediate hash value after the first `n` blocks of a padded message. */
  function Chained(message: bytes, n: nat): State
    requires 64 * n <= |message|
  {
    if n == 0 then INITIAL_STATE else Compressed(Chained(message, n - 1), message[64 * (n - 1)..64 * n])
  }

  lemma {:induction false} ChainedPrefix(message: bytes, more: bytes, n: nat)
    requires 64 * n <= |message|
    ensures Chained(message + more, n) == Chained(message, n)
  {
    hide Compressed;
    if n > 0 {
      ChainedPrefix(message, more, n - 1);
      assert (message + more)[64 * (n - 1)..64 * n] == message[64 * (n - 1)..64 * n];
    }
  }

  /** Every block is taken once, after all before it. */
  lemma NextBlock(message: bytes, block: bytes, n: nat)
    requires |message| == 64 * n && |block| == 64
    ensures Chained(message + block, n + 1) == Compressed(Chained(message, n), block)
  {
    hide Compressed;
    ChainedPrefix(message, block, n);
    assert (message + block)[64 * n..64 * (n + 1)] == block;
  }

  function HexText(s: seq<bv32>): bytes {
    if s == [] then [] else HexText(s[..|s| - 1]) + PaddedHex(s[|s| - 1] as int, 8)
  }

  function Digest(data: bytes): bytes {
    HexText(Chained(Padded(data), |Padded(data)| / 64))
  }

  // ---------------------------------------------------------------- the loops

  method Pad(data: bytes) returns (message: bytes)
    ensures message == Padded(data)
  {
    message := data + [0x80];
    ghost var k: nat := 0;
    while |message| % 64 != 56
      invariant k <= ZeroCount(|data|)
      invariant message == data + [0x80] + Zeros(k)
      decreases ZeroCount(|data|) - k
    {
      assert Zeros(k) + [0] == Zeros(k + 1);
      message := message + [0];
      k := k + 1;
    }
    assert k == ZeroCount(|data|);
    message := message + BigEndian(8 * |data| % LENGTH_MODULUS, 8);
  }

  // ---------------------------------------------------------------- the loops over blocks

  lemma ScheduleStep(block: bytes, t: nat)
    requires |block| == 64 && t >= 16
    ensures Schedule(block, t)
         == Sum4(Schedule(block, t - 16), SmallSigma0(Schedule(block, t - 15)), Schedule(block, t - 7),
                 SmallSigma1(Schedule(block, t - 2)))
  {
    hide Sum4, SmallSigma0, SmallSigma1;
    SumReversed(Schedule(block, t - 16), SmallSigma0(Schedule(block, t - 15)), Schedule(block, t - 7),
                SmallSigma1(Schedule(block, t - 2)));
  }

  lemma SumReversed(w: bv32, x: bv32, y: bv32, z: bv32)
    ensures Sum4(w, x, y, z) == Sum4(z, y, x, w)
  {
  }

  lemma AddCommutes(x: bv32, y: bv32)
    ensures Add(x, y) == Add(y, x)
  {
  }

  lemma ScheduleStart(block: bytes, t: nat)
    requires |block| == 64 && t < 16
    ensures Schedule(block, t) == Word(block[4 * t..4 * t + 4])
  {
  }

  method Expand(block: bytes, schedule: array<bv32>)
    requires |block| == 64 && schedule.Length == 64
    modifies schedule
    ensures forall j :: 0 <= j < 64 ==> schedule[j] == Schedule(block, j)
  {
    hide Schedule, Word, Sum4, Rotr, Xor3;
    for i := 0 to 16
      invariant forall j :: 0 <= j < i ==> schedule[j] == Schedule(block, j)
    {
      ScheduleStart(block, i);
      schedule[i] := Word(block[4 * i..4 * i + 4]);
    }
    for i := 16 to 64
      invariant forall j :: 0 <= j < i ==> schedule[j] == Schedule(block, j)
    {
      ScheduleStep(block, i);
      var w15, w2 := schedule[i - 15], schedule[i - 2];
      RotrIs(w15);
      RotrIs(w2);
      var s0 := Xor3(w15.RotateRight(7), w15.RotateRight(18), w15 >> 3);
      var s1 := Xor3(w2.RotateRight(17), w2.RotateRight(19), w2 >> 10);
      schedule[i] := Sum4(schedule[i - 16], s0, schedule[i - 7], s1);
    }
  }

  lemma RoundConstantCount()
    ensures |ROUND_CONSTANTS| == 64
  {
  }

  lemma NextRound(r: Registers, block: bytes, t: nat)
    requires |block| == 64 && t < 64
    ensures Rounds(r, block, t + 1) == Round(Rounds(r, block, t), ROUND_CONSTANTS[t], Schedule(block, t))
  {
    hide Round, Schedule;
  }

  method Mingle(state: State, block: bytes, schedule: array<bv32>) returns (r: Registers)
    requires |block| == 64 && schedule.Length == 64
    requires forall j :: 0 <= j < 64 ==> schedule[j] == Schedule(block, j)
    ensures r == Rounds(Load(state), block, 64)
  {
    RoundConstantCount();
    hide Schedule, Add, Sum5, Ch, Maj, Rotr, Xor3, Rounds, ROUND_CONSTANTS;
    var a, b, c, d := state[0], state[1], state[2], state[3];
    var e, f, g, h := state[4], state[5], state[6], state[7];
    NoRounds(Load(state), block);
    for i := 0 to 64
      invariant Registers(a, b, c, d, e, f, g, h) == Rounds(Load(state), block, i)
    {
      NextRound(Load(state), block, i);
      RotrIs(a);
      RotrIs(e);
      var s1 := Xor3(e.RotateRight(6), e.RotateRight(11), e.RotateRight(25));
      var ch := Ch(e, f, g);
      var t1 := Sum5(h, s1, ch, ROUND_CONSTANTS[i], schedule[i]);
      var s0 := Xor3(a.RotateRight(2), a.RotateRight(13), a.RotateRight(22));
      var maj := Maj(a, b, c);
      var t2 := Add(s0, maj);
      h := g;
      g := f;
      f := e;
      e := Add(d, t1);
      d := c;
      c := b;
      b := a;
      a := Add(t1, t2);
    }
    r := Registers(a, b, c, d, e, f, g, h);
  }

  lemma NoRounds(r: Registers, block: bytes)
    requires |block| == 64
    ensures Rounds(r, block, 0) == r
  {
  }

  method Compress(state: array<bv32>, block: bytes, schedule: array<bv32>)
    requires state.Length == 8 && |block| == 64 && schedule.Length == 64 && state != schedule
    modifies state, schedule
    ensures state[..] == Compressed(old(state[..]), block)
  {
    hide Schedule, Add, Rounds;
    Expand(block, schedule);
    var r := Mingle(state[..], block, schedule);
    ghost var was: State := state[..];
    SumsCommute(was, r);
    state[0] := Add(state[0], r.a);
    state[1] := Add(state[1], r.b);
    state[2] := Add(state[2], r.c);
    state[3] := Add(state[3], r.d);
    state[4] := Add(state[4], r.e);
    state[5] := Add(state[5], r.f);
    state[6] := Add(state[6], r.g);
    state[7] := Add(state[7], r.h);
  }

  lemma SumsCommute(s: State, r: Registers)
    ensures Add(s[0], r.a) == Add(r.a, s[0]) && Add(s[1], r.b) == Add(r.b, s[1])
    ensures Add(s[2], r.c) == Add(r.c, s[2]) && Add(s[3], r.d) == Add(r.d, s[3])
    ensures Add(s[4], r.e) == Add(r.e, s[4]) && Add(s[5], r.f) == Add(r.f, s[5])
    ensures Add(s[6], r.g) == Add(r.g, s[6]) && Add(s[7], r.h) == Add(r.h, s[7])
  {
    hide Add;
    AddCommutes(s[0], r.a);
    AddCommutes(s[1], r.b);
    AddCommutes(s[2], r.c);
    AddCommutes(s[3], r.d);
    AddCommutes(s[4], r.e);
    AddCommutes(s[5], r.f);
    AddCommutes(s[6], r.g);
    AddCommutes(s[7], r.h);
  }

  method Sha256Hex(data: bytes) returns (hex: bytes)
    ensures hex == Digest(data)
  {
    hide Padded, Compressed, PaddedHex;
    var state := new bv32[8](i requires 0 <= i < 8 => INITIAL_STATE[i]);
    var message := Pad(data);
    var schedule := new bv32[64];
    PaddedLength(data);
    var n := |message| / 64;
    for i := 0 to n
      invariant state[..] == Chained(message, i)
    {
      Compress(state, message[64 * i..64 * i + 64], schedule);
    }
    hex := [];
    for i := 0 to 8
      invariant hex == HexText(state[..i])
    {
      assert state[..i + 1][..i] == state[..i];
      hex := hex + PaddedHex(state[i] as int, 8);
    }
    assert state[..8] == state[..];
  }

  // ---------------------------------------------------------------- padding tells messages apart

  lemma {:induction false} BigEndianInjective(v: nat, w: nat, n: nat)
    requires BigEndian(v, n) == BigEndian(w, n) && v < Power(256, n) && w < Power(256, n)
    ensures v == w
  {
    if n > 0 {
      var a, b := BigEndian(v / 256, n - 1), BigEndian(w / 256, n - 1);
      assert BigEndian(v, n)[..n - 1] == a && BigEndian(w, n)[..n - 1] == b;
      assert BigEndian(v, n)[n - 1] == v % 256 && BigEndian(w, n)[n - 1] == w % 256;
      BigEndianInjective(v / 256, w / 256, n - 1);
    }
  }

  /** Different messages of any length have different padded forms. */
  lemma PaddingInjective(a: bytes, b: bytes)
    ensures Padded(a) == Padded(b) <==> a == b
  {
    hide ZeroCount, BigEndian;
    if Padded(a) != Padded(b) {
      return;
    }
    var p, n := Padded(a), |Padded(a)|;
    var va, vb := 8 * |a| % LENGTH_MODULUS, 8 * |b| % LENGTH_MODULUS;
    assert p[n - 8..] == BigEndian(va, 8) && Padded(b)[n - 8..] == BigEndian(vb, 8);
    assert Power(256, 4) == 0x1_0000_0000;
    assert Power(256, 8) == LENGTH_MODULUS;
    BigEndianInjective(va, vb, 8);
    SameLength(|a|, |b|, ZeroCount(|a|), ZeroCount(|b|));
    assert a == p[..|a|] && b == Padded(b)[..|b|];
  }

  lemma SameLength(a: nat, b: nat, j: nat, k: nat)
    requires a + 1 + j + 8 == b + 1 + k + 8 && j < 64 && k < 64
    requires 8 * a % LENGTH_MODULUS == 8 * b % LENGTH_MODULUS
    ensures a == b
  {
  }
}
